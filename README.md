# DropifyMultiple: validation and file bookkeeping

This project models the core of the `DropifyMultiple` jQuery plugin controller in
`dist/js/dropify-multiple.js` and proves properties of that model. The plugin turns a file
input into a drop zone that accepts several files. The model covers two parts of it.

- **The pure helpers.** `sizeToByte` turns a size text such as "5M" into bytes.
  `checkFileSize`, `getFileType`, `isImage` and `isFileExtensionAllowed` implement the size
  and extension checks. `getImageFormat` and `validateImage` implement the dimension and
  format checks. `cleanFilename` strips a path. `getError` fills an error template and
  `translateMessages` fills the markup templates.
- **The controller's bookkeeping.** It keeps the selected files (`files`), their count
  (`totalFiles`), the shared list of pushed errors (`errorsEvent.errors`), the shown error
  list, the filename label, the input's files and the `isInit` flag. The controller is the
  class `Dropify.DropifyMultiple`. Its methods change those fields in place, as the
  source's methods do.

Files:

- `text.dfy` (module `Text`) holds the string tools the source borrows from JavaScript:
  `indexOf`, `split(c).pop()`, `toLowerCase`, the first-occurrence `replace`, and the leading
  digits `parseFloat` reads.
- `config.dfy` (module `Config`) holds the settings record, the error keys and the built-in
  defaults.
- `validation.dfy` (module `Validation`) holds the checks as the lists of error keys they
  push, the error messages and template translation.
- `controller.dfy` (module `Dropify`) holds the class and the specification of a whole
  intake.

The browser's asynchronous image decoding becomes a sequential step,
`DropifyMultiple.ImageLoaded(name, width, height)`, whose width and height are inputs.
`OnChange` and `ReadFile` return the files the intake hands to the decoder. A selection is
specified by `IntakeOf`, which runs one `TakeStep` per file and uses the per-file `Verdict`
(the size and extension errors, and whether the file is decoded). `SelectionAccepted` and
`SelectionRejected` state the outcome of a whole selection.

## Model

| member | source | states |
|---|---|---|
| Text.IndexOfFirst | dist/js/dropify-multiple.js:489 | `indexOf` is -1 exactly when the element is absent; otherwise it is the first position holding it |
| Text.AfterLastShape | dist/js/dropify-multiple.js:404-406 | `split(c).pop()` is the longest `c`-free suffix: a suffix with no `c`, preceded by `c` unless it is the whole text |
| Text.FindFirstLeftmost | dist/js/dropify-multiple.js:670 | the search `replace` performs finds the leftmost occurrence of the pattern, and finds none only when there is none |
| Text.ReplaceFirstAt | dist/js/dropify-multiple.js:670 | replacing at the first occurrence splices the replacement in there and keeps the text around it |
| Text.ReplaceFirstAbsent | dist/js/dropify-multiple.js:670 | with no occurrence, `replace` returns the text unchanged |
| Text.AfterLastOf | dist/js/dropify-multiple.js:477-480 | `split(c).pop()` of a text that ends in `c` followed by a `c`-free part is that part |
| Text.NumberPrefixOfNatToString | dist/js/dropify-multiple.js:550 | the leading-number reading gives back the number written at the start of a text |
| Validation.SizeToByteInForce | dist/js/dropify-multiple.js:539-559 | a non-zero limit comes only from a text of at least two characters that starts with a digit and ends in a unit |
| Validation.SizeToByteOfUnit | dist/js/dropify-multiple.js:539-559 | the text "n" followed by a unit is n times that unit's factor |
| Validation.FileSizeAgainstWrittenLimit | dist/js/dropify-multiple.js:527-532 | with a limit written "nU", the size check pushes exactly one `fileSize` error if and only if the limit is non-zero and the size is strictly above it, and pushes nothing otherwise; a size equal to the limit passes |
| Validation.FileSizeCheckMonotone | dist/js/dropify-multiple.js:527-532 | a size no larger than one that passes also passes |
| Validation.GetFileTypeShape | dist/js/dropify-multiple.js:477-480 | the file type is the lower-cased text after the last '.', or the whole name lower-cased when there is no '.', and holds no '.' |
| Validation.GetFileTypeIgnoresCase | dist/js/dropify-multiple.js:477-480 | the file type of a name does not depend on the name's case |
| Validation.ExtensionTestsAreMembership | dist/js/dropify-multiple.js:487-510 | `isImage` holds if and only if the file type is in `imgFileExtensions`; the extension test passes if and only if `allowedFileExtensions` holds "*" or the file type |
| Validation.ExtensionCheckIgnoresCase | dist/js/dropify-multiple.js:501-510 | the extension errors and the image test do not depend on the case of the file name |
| Validation.CleanFilename | dist/js/dropify-multiple.js:402-410 | the result is a suffix of the path; it is "" for ""; it follows the last '\' when there is one, else the last '/'; it is the whole path when there is neither |
| Validation.GetImageFormat | dist/js/dropify-multiple.js:595-608 | exactly one format holds: square if and only if width = height, portrait if and only if width < height, landscape if and only if width > height |
| Validation.PushInOrder | dist/js/dropify-multiple.js:569-587 | one more check keeps the pushed keys in check order and adds its key exactly when it fails |
| Validation.ImageErrorsExactly | dist/js/dropify-multiple.js:564-588 | all five image checks run: a key is pushed if and only if its check fails (limits inclusive, 0 disables a limit), in the order minWidth, maxWidth, minHeight, maxHeight, imageFormat |
| Validation.MinWidthIsExclusive | dist/js/dropify-multiple.js:569-571 | a width equal to `minWidth` fails; one pixel more passes that check |
| Validation.MaxWidthIsExclusive | dist/js/dropify-multiple.js:573-575 | a width equal to `maxWidth` fails; one pixel less passes that check |
| Validation.ImageWithinBoundsPasses | dist/js/dropify-multiple.js:564-588 | an image strictly inside every set bound, in an allowed format, gets no error |
| Validation.GetErrorWithoutPlaceholder | dist/js/dropify-multiple.js:648-674 | a template without `{{ value }}` is the message as it is |
| Validation.GetErrorShowsDimensionLimit | dist/js/dropify-multiple.js:648-674 | a width or height message is its template with the first `{{ value }}` replaced by the limit in decimal |
| Validation.ErrorMessage | dist/js/dropify-multiple.js:648-674 | for every key with a non-empty value, a template made of a `{`-free lead-in, the placeholder and a tail gives the lead-in, the configured limit or list, and the tail |
| Validation.DimensionMessage | dist/js/dropify-multiple.js:648-674 | a dimension template made of a `{`-free lead-in, the placeholder and a tail gives the lead-in, the limit and the tail |
| Validation.SizeMessage | dist/js/dropify-multiple.js:648-674 | with the built-in templates the size message shows the configured `maxFileSize` text in parentheses; when that text is empty the placeholder stays in the message |
| Validation.FormatMessage | dist/js/dropify-multiple.js:648-674 | with the built-in templates the format message lists the allowed formats joined by ", "; with no format, or one empty name, the placeholder stays in the message |
| Validation.ExtensionMessage | dist/js/dropify-multiple.js:648-674 | with the built-in templates the extension message lists the allowed extensions joined by ", "; with none, or one empty entry, the placeholder stays in the message |
| Validation.NoFormatAllowed | dist/js/dropify-multiple.js:585-587 | with no allowed format every image fails the format check, and its message is the template as it stands, placeholder included |
| Text.JoinEmpty | dist/js/dropify-multiple.js:664 | with a non-empty separator, `join` gives the empty text exactly for no parts or a single empty part |
| Validation.WrittenMinWidthMessage | dist/js/dropify-multiple.js:57 | with the templates as written, the minimum-width message shows a stray `}` after the limit |
| Validation.CorrectedMinWidthMessage | dist/js/dropify-multiple.js:57 | with the corrected templates (those `Defaults()` holds), the minimum-width message is the limit followed by "px min)." |
| Validation.ErrorMessagesAt | dist/js/dropify-multiple.js:636-641 | each shown item is the message of the key at that position |
| Validation.ShownMostRecentFirst | dist/js/dropify-multiple.js:286-290 | the error list shows one message per pushed error, the most recently pushed first |
| Validation.TranslateTemplates | dist/js/dropify-multiple.js:515-522 | every template is translated in place under its own name, and the number of templates is kept |
| Validation.TemplateWithoutPlaceholderUnchanged | dist/js/dropify-multiple.js:515-522 | a template in which no `{{ ` opens is left exactly as it was, whatever the messages |
| Validation.TranslateOneMessage | dist/js/dropify-multiple.js:519 | a message replaces the first occurrence of its `{{ key }}` and nothing else |
| Validation.NoPlaceholderWithoutBrace | dist/js/dropify-multiple.js:519 | a text in which no `{` occurs holds no placeholder, so a message leaves it alone |
| Validation.OtherPlaceholderAbsent | dist/js/dropify-multiple.js:515-522 | a `{`-free lead, the placeholder of one brace-free key and a `{`-free tail hold no placeholder of any other brace-free key |
| Validation.ReplacePlaceholderAfterLead | dist/js/dropify-multiple.js:519 | the placeholder right after a `{`-free lead is the one `replace` finds, and the result is lead, text, tail |
| Validation.OtherMessageUnmoved | dist/js/dropify-multiple.js:519 | a message whose key differs from the template's one brace-free key leaves the lead-placeholder-tail template as it is |
| Validation.BraceFreeUnmoved | dist/js/dropify-multiple.js:519 | any message leaves a text made of `{`-free parts as it is |
| Validation.ApplyMessagesBefore | dist/js/dropify-multiple.js:515-522 | with distinct brace-free keys, the messages before message m leave a lead-placeholder-tail template as it is |
| Validation.ApplyMessagesUpTo | dist/js/dropify-multiple.js:515-522 | with distinct brace-free keys, once message m has been applied the template reads lead, the text of m, tail, and later messages keep it so |
| Validation.TranslateAmongMessages | dist/js/dropify-multiple.js:515-522 | with distinct brace-free keys, translating a template made of a `{`-free lead, the placeholder of one message and a `{`-free tail gives lead, that message's text, tail |
| Validation.DefaultClearButtonTranslated | dist/js/dropify-multiple.js:70 | with the built-in messages, the built-in clear button translates to a button labelled "Remove" |
| Validation.DefaultPreviewLimit | dist/js/dropify-multiple.js:46 | by default only images below 5 × 1024 × 1024 bytes are decoded for a preview |
| Validation.DefaultsAcceptEverything | dist/js/dropify-multiple.js:33-74 | the defaults give no size, extension, dimension or format error for any file |
| Dropify.RecordsAt | dist/js/dropify-multiple.js:310-326 | the record for each position copies that file's name, size and type, with width and height null |
| Dropify.IndexOfName | dist/js/dropify-multiple.js:343-351 | the result is the first index whose record has the name, or -1 when no record has it |
| Dropify.VerdictsAt | dist/js/dropify-multiple.js:231-235 | the verdict on each file is its size and extension errors plus whether it is a previewable image |
| Dropify.FirstRejectedShape | dist/js/dropify-multiple.js:262-265 | every file before the first rejected one is accepted, and that one is rejected |
| Dropify.IntakeRunAccepts | dist/js/dropify-multiple.js:219-266 | while no file is rejected, file i is recorded at index old length + i, earlier records are unchanged, the count and the input are kept, and the error list is the last file's |
| Dropify.IntakeRunRejects | dist/js/dropify-multiple.js:262-265 | a rejected file empties the selection, the count and the input; its own errors remain and are shown most recent first |
| Dropify.IntakeRunHidesErrors | dist/js/dropify-multiple.js:624-641 | without an error list, taking in files never changes what is shown |
| Dropify.SelectionAccepted | dist/js/dropify-multiple.js:187-266 | a fresh selection with no rejected file ends with one record per file, in order, and the count equal to the number of files |
| Dropify.SelectionRejected | dist/js/dropify-multiple.js:187-266 | a fresh selection with a file rejected on the spot ends with the selection, the count and the input emptied, that file's size and extension errors (not none) as the error list, and with an error list on the page they are shown most recent first |
| Dropify.WrittenEarlyRejectionShowsNothing | dist/js/dropify-multiple.js:219-266 | as written, when a later file follows the first file rejected on the spot, the errors stay pending but none is shown, and `files` holds one empty object while the count is 0 |
| Dropify.WrittenDecodedErrorsLost | dist/js/dropify-multiple.js:231 | as written, when a decoded file fails the size or extension check and the last file passes both, the intake ends with no error pending; once the failing file's image loads with passing dimensions, it stays in the selection and the count is kept |
| Dropify.LabelTextShowsCount | dist/js/dropify-multiple.js:203 | the "N files to upload." label starts with the count N in decimal |
| Dropify.DropifyMultiple.constructor | dist/js/dropify-multiple.js:28-114 | keeps the merged settings, translates the templates, and starts with an empty selection, no errors and `isInit` set |
| Dropify.DropifyMultiple.TranslateMessages | dist/js/dropify-multiple.js:515-522 | the nested loops leave every template equal to its translation |
| Dropify.DropifyMultiple.CreateElements | dist/js/dropify-multiple.js:129-131 | sets `isInit` |
| Dropify.DropifyMultiple.Init | dist/js/dropify-multiple.js:709-712 | sets `isInit` |
| Dropify.DropifyMultiple.Destroy | dist/js/dropify-multiple.js:699-704 | clears `isInit` and leaves the selection as it is |
| Dropify.DropifyMultiple.IsDropified | dist/js/dropify-multiple.js:717-720 | returns `isInit` |
| Dropify.DropifyMultiple.OnChange | dist/js/dropify-multiple.js:119-124 | resets, then takes in the chosen files: the state is the intake of the selection, and the label and the decode requests follow |
| Dropify.DropifyMultiple.ReadFile | dist/js/dropify-multiple.js:187-267 | the count grows by the number of input files; the label is the first file's name when the count is 1, else the count label; the new state is the intake of the input files; the count stays equal to the number of records |
| Dropify.DropifyMultiple.TakeInFiles | dist/js/dropify-multiple.js:219-266 | the loop takes in each file in turn and stops at the first rejected one; the state becomes `IntakeOf`, and the decode requests become `Decoded` |
| Dropify.DropifyMultiple.TakeInFile | dist/js/dropify-multiple.js:220-265 | one iteration is one `TakeStep` with that file's verdict; reports whether the file is decoded and whether it reset the selection |
| Dropify.DropifyMultiple.RunFileChecks | dist/js/dropify-multiple.js:231-233 | the error list becomes exactly the file's size errors followed by its extension errors |
| Dropify.DropifyMultiple.CheckAtIntake | dist/js/dropify-multiple.js:231-235 | the error list becomes the file's size and extension errors; the result says whether it goes to the decoder |
| Dropify.DropifyMultiple.SetFileInformations | dist/js/dropify-multiple.js:310-326 | writes a fresh record (dimensions null) at the index, appending when the slot does not exist; other records are unchanged |
| Dropify.DropifyMultiple.SetFileDimensions | dist/js/dropify-multiple.js:334-341 | sets width and height of the record at a non-negative index only; -1 changes nothing |
| Dropify.DropifyMultiple.FindFileIndexBasedOnName | dist/js/dropify-multiple.js:343-351 | the linear search returns the first index with that name, or -1 |
| Dropify.DropifyMultiple.PushError | dist/js/dropify-multiple.js:615-619 | appends the key to the error list |
| Dropify.DropifyMultiple.CheckFileSize | dist/js/dropify-multiple.js:527-532 | appends the size errors and nothing else |
| Dropify.DropifyMultiple.IsFileExtensionAllowed | dist/js/dropify-multiple.js:501-510 | returns the extension test and appends one `fileExtension` error exactly when it fails |
| Dropify.DropifyMultiple.ValidateImage | dist/js/dropify-multiple.js:564-588 | appends exactly the image errors of the record's dimensions |
| Dropify.DropifyMultiple.ClearErrors | dist/js/dropify-multiple.js:624-629 | empties the shown list when there is one |
| Dropify.DropifyMultiple.ShowError | dist/js/dropify-multiple.js:636-641 | appends the key's message to the shown list when there is one |
| Dropify.DropifyMultiple.OnFileReady | dist/js/dropify-multiple.js:276-303 | with no errors nothing changes; with errors they are shown most recent first and the selection, the count and the input are emptied |
| Dropify.DropifyMultiple.ClearElement | dist/js/dropify-multiple.js:415-433 | with errors pending it always resets; otherwise it resets unless `beforeClear` cancelled, in which case nothing changes |
| Dropify.DropifyMultiple.ResetFile | dist/js/dropify-multiple.js:438-448 | the countdown of pops leaves no record and a count of 0 |
| Dropify.DropifyMultiple.ImageLoaded | dist/js/dropify-multiple.js:250-258 | looks the file up by name and records the dimensions; the error list becomes that file's own size and extension errors followed by its image errors, so, when the selection's file names are distinct, a file that failed a check at intake always empties the selection here; with no errors the file is kept, with errors the selection is reset and they are shown most recent first; an unknown name changes nothing |

## Left out

- The jQuery DOM work is left out: the wrapper, preview, loader, CSS classes, fading, `setPreview`, `resetPreview` and `setContainerSize`. Of `createElements` only `isInit` is kept. The filename label is kept as a `FilenameLabel` value rather than markup.
- The triggered events (`dropify.error.*`, `dropify.errors`, `dropify.fileReady`, `afterClear`) are left out. The result of `beforeClear` enters `ClearElement` as the parameter `cancelled`.
- `FileReader`, `Image.onload` and the `setTimeout` that hides the error banner are browser callbacks. The decoded dimensions enter through `ImageLoaded`. Decodes may finish in any order, and the model allows any order of `ImageLoaded` calls.
- The settings are taken as an already-merged record. The `$.extend` deep merge, the element's data attributes and the `split(' ')` of string-valued `allowedFormats`/`allowedFileExtensions` are not modelled. The constructor's early return when the browser lacks the File API (`File`, `FileReader`, `FileList`, `Blob`) is not modelled; the model assumes they are present. `isTouchDevice`, the plugin registration and `gulpfile.js` are not part of this model.
- Dimension limits are natural numbers. Negative or fractional limits are not modelled.
- Validation.SizeToByte: `parseFloat` is reduced to the leading decimal digits, and a text with no leading digit gives 0 (no limit). The source differs on:
  - a fraction: "1.5M" is 1.5 MiB there, 1 MiB here;
  - a leading '.': ".5M" is 0.5 MiB there, no limit here;
  - leading blanks or a '+': " 5M" and "+5M" are 5 MiB there, no limit here;
  - a '-': "-1M" is a negative limit there, which every file exceeds; no limit here;
  - an exponent: "1e3K" is 1000 KiB there, 1 KiB here.
  Only a text `parseFloat` reads as NaN gives no limit in both, since NaN makes `fSize > limit` and `size < limit` false.
- Validation.SizeToByte: a numeric `maxFileSize` other than 0 is not modelled. The source would call `slice` on a number and throw.
- Validation.GetError: the value is inserted literally. `String.replace` would also expand `$&`-style patterns in it.
- Validation.ApplyMessages: a message text is inserted literally. The `replace` at line 519 would also expand `$&`-style patterns in it.
- Validation.GetFileType: lower-casing is ASCII only.
- Dropify.DropifyMultiple.TakeInFiles: follows the corrected intake, which ends at the first file rejected on the spot with its errors on show. As written, when another file follows, the loop's next iteration empties the shown list, pushes an empty object into the emptied `files` and throws; `Dropify.WrittenIntakeOf` states that outcome (see Findings).
- Dropify.SelectionRejected: states the corrected intake; the outcome as written for a rejection that is not the last file is `Dropify.WrittenEarlyRejectionShowsNothing` (no message shown, one empty object in `files`).
- Dropify.DropifyMultiple.OnChange: follows the corrected intake, as `TakeInFiles` does; it does not model the emptied shown list and the empty object the source leaves when a file follows a rejected one.
- Dropify.DropifyMultiple.ReadFile: follows the corrected intake, as `TakeInFiles` does; it does not model the emptied shown list and the empty object the source leaves when a file follows a rejected one.
- Dropify.DropifyMultiple.ReadFile: requires that a count of 1 does not come with an empty input. That would require a previous count of 1 with no new files, and the source would then read the name of a missing first file and throw.
- Dropify.DropifyMultiple.ValidateImage: requires the record's width and height to be set. Its only caller sets them just before.
- Dropify.DropifyMultiple.OnFileReady: the preview branch (no errors) is DOM only. For a file that is not decoded (a non-image, or an image at or above the preview limit) and has no errors, the source reads the name of a missing `img` and throws. That throw ends the intake loop: the batch's later files are neither recorded nor decoded, while `totalFiles` and the label already count them. The model finishes such a file with no change and carries on with the loop.
- Dropify.DropifyMultiple.ImageLoaded: follows the corrected load, which checks the file's size and extension again, so that the errors are that file's own. As written, the image errors are appended to the shared list as it stands, where the next file's intake has already wiped the file's own intake errors. `Dropify.WrittenImageLoaded` states that (see Findings).
- Dropify.DropifyMultiple.ImageLoaded: the image is matched to its record by name, as `findFileIndexBasedOnName` does, and the load re-checks the first record of that name. With repeated names in a selection, a failing file that shares its name with an earlier passing file stays: for [x.png of 10 B, x.png of 2 MiB] under a 1 MiB limit both loads re-check the 10-byte record and find no error. The all-or-nothing batch holds only when the selection's file names are distinct.
- Dropify.DropifyMultiple.ImageLoaded: when no record has the image's name, the source throws inside `validateImage`. The model changes nothing, which leaves the same state.
- The source defines `resetFile` on the undefined `Dropify` and `new Dropify` at line 725 has the same problem. The model treats both as the controller's own. `getFileType()` without an argument (line 376) belongs to the preview rendering, which is left out.
- `Config.Defaults()` holds the error templates corrected (`CorrectedErrorTemplates`); the templates as written are `WrittenErrorTemplates` (see Findings).
- The error list holds error keys rather than jQuery event objects. The shown list holds keys whose text is `ErrorMessages(settings, shownErrors)`.
- Two behaviours the model keeps exactly as the code has them:
  - `destroy` followed by `init` does not empty the selection.
  - `errorsEvent.errors` is one list shared by all files, and each file's intake starts it afresh. So a decoded file's size or extension errors are wiped when the next file is taken in. The intake alone therefore does not give an all-or-nothing batch, in which any failing file empties the selection: `Dropify.WrittenDecodedErrorsLost` shows a failing file that stays. The model restores that property at the load of an image, in `ImageLoaded`, when the selection's file names are distinct (see Findings).

## Findings

| source | as written | input that shows it | evidently intended | confidence | as-written member | corrected member |
|---|---|---|---|---|---|---|
| dist/js/dropify-multiple.js:57-59 | the default `minWidth`, `maxWidth` and `minHeight` templates close the placeholder with three braces, so one `}` is left after the value | `minWidth` 100 and a 50-pixel-wide image: the message reads "The image width is too small (100}px min)." | "(100px min)", as the `maxHeight` template at line 60 gives | not executed | Validation.WrittenMinWidthMessage | Validation.CorrectedMinWidthMessage |
| dist/js/dropify-multiple.js:219-266 | after a file rejected on the spot that is not the last, the loop goes on: `clearErrors` empties the error list just shown, and `setFileInformations` pushes an empty object into the emptied `files` and then throws writing to a missing slot | `showErrors` on, `allowedFileExtensions` ["png"], selection [a.exe, b.png]: no message is shown, `files` is [{}] and the count is 0 | end the intake at the rejection, so that its errors stay shown and `files` stays empty | not executed | Dropify.WrittenEarlyRejectionShowsNothing | Dropify.SelectionRejected |
| dist/js/dropify-multiple.js:231 | each file's intake starts the shared error list afresh, which wipes the size and extension errors of a decoded file before its image loads; `image.onload` then appends only the image errors | `maxFileSize` "1M", the default preview limit, selection [big.png of 2 MiB, ok.png of 10 B], both images loading with passing dimensions: no error is ever shown and big.png stays in the selection | a file that fails any check empties the selection: the load of a decoded file sees that file's own intake errors (the corrected load gives this when the selection's file names are distinct) | not executed | Dropify.WrittenDecodedErrorsLost | Dropify.DropifyMultiple.ImageLoaded |
