/**
 * The controller's pure helpers: size-limit parsing, the size, extension,
 * dimension and format checks (as the lists of error keys they push), file
 * names and types, error messages and the `{{ key }}` template substitution.
 */
module Validation {
  import opened Text
  import opened Config

  // ---------------------------------------------------------------------------
  // sizeToByte and the size check

  /** The multiplier for the last character of a size text, after `toUpperCase`: binary K, M and G, else 0. */
  function UnitFactor(unit: char): nat
  {
    if unit == 'K' || unit == 'k' then 1024
    else if unit == 'M' || unit == 'm' then 1024 * 1024
    else if unit == 'G' || unit == 'g' then 1024 * 1024 * 1024
    else 0
  }

  /** `sizeToByte`: the number at the start of the text times the unit its last character names; 0 means no limit. */
  function SizeToByte(size: SizeSetting): nat
  {
    match size
    case NumericZero => 0
    case SizeText(t) =>
      if t == [] then 0
      else
        var n := NumberPrefix(t);
        var unit := t[|t| - 1];
        if unit == 'K' || unit == 'k' then n * 1024
        else if unit == 'M' || unit == 'm' then n * (1024 * 1024)
        else if unit == 'G' || unit == 'g' then n * (1024 * 1024 * 1024)
        else 0
  }

  /** A limit is in force only when the setting is a text that starts with a digit and ends with a unit. */
  lemma SizeToByteInForce(size: SizeSetting)
    requires SizeToByte(size) != 0
    ensures size.SizeText? && |size.text| >= 2
    ensures IsDigit(size.text[0]) && UnitFactor(size.text[|size.text| - 1]) != 0
  {
  }

  /** A limit written as a number and a unit character is that number times the unit. */
  lemma SizeToByteOfUnit(n: nat, unit: char)
    ensures SizeToByte(SizeText(NatToString(n) + [unit])) == n * UnitFactor(unit)
  {
    var t := NatToString(n) + [unit];
    assert t[|t| - 1] == unit;
    if !IsDigit(unit) {
      NumberPrefixOfNatToString(n, [unit]);
    }
  }

  /** The errors `checkFileSize` pushes for a file of `fileSize` bytes. */
  function SizeErrors(s: Settings, fileSize: nat): seq<ErrorKey>
  {
    var limit := SizeToByte(s.maxFileSize);
    if limit != 0 && fileSize > limit then [FileSize] else []
  }

  /** With a limit written "<n><unit>", a file fails exactly when the limit is
      nonzero and the file is strictly larger: a file of exactly the limit passes. */
  lemma FileSizeAgainstWrittenLimit(s: Settings, n: nat, unit: char, fileSize: nat)
    requires s.maxFileSize == SizeText(NatToString(n) + [unit])
    ensures SizeErrors(s, fileSize) == [FileSize] <==> n * UnitFactor(unit) != 0 && fileSize > n * UnitFactor(unit)
    ensures SizeErrors(s, fileSize) != [FileSize] ==> SizeErrors(s, fileSize) == []
    ensures SizeErrors(s, n * UnitFactor(unit)) == []
  {
    SizeToByteOfUnit(n, unit);
  }

  /** A file that passes the size check makes every smaller file pass it too. */
  lemma FileSizeCheckMonotone(s: Settings, small: nat, large: nat)
    requires small <= large && SizeErrors(s, large) == []
    ensures SizeErrors(s, small) == []
  {
  }

  // ---------------------------------------------------------------------------
  // File names and types

  /** `getFileType`: the lower-cased text after the last '.' of the name (all of it when there is none). */
  function GetFileType(fileName: string): string
  {
    ToLower(AfterLast(fileName, '.'))
  }

  /** The file type is the lower-cased last dot-free segment of the name: it follows the
      last '.' when there is one, and is the whole name otherwise. */
  lemma GetFileTypeShape(fileName: string)
    ensures var r := GetFileType(fileName);
      && '.' !in r
      && |r| <= |fileName| && r == ToLower(fileName[|fileName| - |r|..])
      && ('.' in fileName ==> |r| < |fileName| && fileName[|fileName| - |r| - 1] == '.')
      && ('.' !in fileName ==> r == ToLower(fileName))
  {
    var tail := AfterLast(fileName, '.');
    AfterLastShape(fileName, '.');
    assert forall i :: 0 <= i < |tail| ==> GetFileType(fileName)[i] != '.';
  }

  /** The file type does not depend on the case of the name. */
  lemma GetFileTypeIgnoresCase(fileName: string)
    ensures GetFileType(ToLower(fileName)) == GetFileType(fileName)
  {
    AfterLastDotToLower(fileName);
    ToLowerIdempotent(AfterLast(fileName, '.'));
  }

  /** `isImage`: `indexOf` finds the file type among the configured image extensions. */
  predicate IsImage(s: Settings, fileName: string)
  {
    IndexOf(s.imgFileExtensions, GetFileType(fileName)) != -1
  }

  /** `isFileExtensionAllowed`'s verdict: a `*` entry or the file type in the allow-list. */
  predicate ExtensionAllowed(s: Settings, fileName: string)
  {
    IndexOf(s.allowedFileExtensions, "*") != -1 || IndexOf(s.allowedFileExtensions, GetFileType(fileName)) != -1
  }

  /** The errors `isFileExtensionAllowed` pushes. */
  function ExtensionErrors(s: Settings, fileName: string): seq<ErrorKey>
  {
    if ExtensionAllowed(s, fileName) then [] else [FileExtension]
  }

  /** The `indexOf` tests are membership tests: a file is an image when its type is listed
      among the image extensions, and its extension is allowed when the allow-list holds
      `*` or its type. */
  lemma ExtensionTestsAreMembership(s: Settings, fileName: string)
    ensures IsImage(s, fileName) <==> GetFileType(fileName) in s.imgFileExtensions
    ensures ExtensionAllowed(s, fileName) <==> "*" in s.allowedFileExtensions || GetFileType(fileName) in s.allowedFileExtensions
  {
    IndexOfFirst(s.imgFileExtensions, GetFileType(fileName));
    IndexOfFirst(s.allowedFileExtensions, "*");
    IndexOfFirst(s.allowedFileExtensions, GetFileType(fileName));
  }

  /** Lower-case allow-list entries accept a name whatever its case. */
  lemma ExtensionCheckIgnoresCase(s: Settings, fileName: string)
    ensures ExtensionErrors(s, ToLower(fileName)) == ExtensionErrors(s, fileName)
    ensures IsImage(s, ToLower(fileName)) == IsImage(s, fileName)
  {
    GetFileTypeIgnoresCase(fileName);
    var lower := ToLower(fileName);
    assert ExtensionAllowed(s, lower) == ExtensionAllowed(s, fileName);
  }

  /** The errors checked synchronously when a file is taken in: size, then extension. */
  function IntakeErrors(s: Settings, fileName: string, fileSize: nat): seq<ErrorKey>
  {
    SizeErrors(s, fileSize) + ExtensionErrors(s, fileName)
  }

  /** A file is decoded for a preview when it is an image smaller than the preview limit. */
  predicate Previewable(s: Settings, fileName: string, fileSize: nat)
  {
    IsImage(s, fileName) && fileSize < SizeToByte(s.maxFileSizePreview)
  }

  /** `cleanFilename`: the part of a path after its last '\', or, when it has none, after its last '/'. */
  function CleanFilename(src: string): (r: string)
    ensures |r| <= |src| && r == src[|src| - |r|..]
    ensures src == "" ==> r == ""
    ensures '\\' in src ==> '\\' !in r && src[|src| - |r| - 1] == '\\'
    ensures '\\' !in src ==> '/' !in r
    ensures '\\' !in src && '/' in src ==> src[|src| - |r| - 1] == '/'
    ensures '\\' !in src && '/' !in src ==> r == src
  {
    AfterLastShape(src, '\\');
    AfterLastShape(src, '/');
    var filename := AfterLast(src, '\\');
    var filename := if filename == src then AfterLast(src, '/') else filename;
    if src != "" then filename else ""
  }

  // ---------------------------------------------------------------------------
  // Image dimensions and format

  datatype Format = Square | Portrait | Landscape

  function FormatName(f: Format): string
  {
    match f
    case Square => "square"
    case Portrait => "portrait"
    case Landscape => "landscape"
  }

  /** `getImageFormat`: exactly one of square, portrait and landscape fits each width and height. */
  function GetImageFormat(width: nat, height: nat): (f: Format)
    ensures f == Square <==> width == height
    ensures f == Portrait <==> width < height
    ensures f == Landscape <==> width > height
  {
    if width == height then Square
    else if width < height then Portrait
    else Landscape
  }

  /** The key list after one check, which pushes `k` when it fails. */
  function PushIf(keys: seq<ErrorKey>, fails: bool, k: ErrorKey): seq<ErrorKey>
  {
    if fails then keys + [k] else keys
  }

  /** The errors `validateImage` pushes, in the order it runs its five checks. */
  function ImageErrors(s: Settings, width: nat, height: nat): seq<ErrorKey>
  {
    PushIf(PushIf(PushIf(PushIf(PushIf([],
      s.minWidth != 0 && s.minWidth >= width, MinWidth),
      s.maxWidth != 0 && s.maxWidth <= width, MaxWidth),
      s.minHeight != 0 && s.minHeight >= height, MinHeight),
      s.maxHeight != 0 && s.maxHeight <= height, MaxHeight),
      FormatName(GetImageFormat(width, height)) !in s.allowedFormats, ImageFormat)
  }

  /** Whether the dimension or format check for `k` fails; the size and extension keys are not image checks. */
  predicate ImageCheckFails(s: Settings, width: nat, height: nat, k: ErrorKey)
  {
    match k
    case MinWidth => s.minWidth != 0 && width <= s.minWidth
    case MaxWidth => s.maxWidth != 0 && width >= s.maxWidth
    case MinHeight => s.minHeight != 0 && height <= s.minHeight
    case MaxHeight => s.maxHeight != 0 && height >= s.maxHeight
    case ImageFormat => FormatName(GetImageFormat(width, height)) !in s.allowedFormats
    case FileSize => false
    case FileExtension => false
  }

  /** The position of an image check in `validateImage`. */
  function CheckOrder(k: ErrorKey): nat
  {
    match k
    case MinWidth => 0
    case MaxWidth => 1
    case MinHeight => 2
    case MaxHeight => 3
    case ImageFormat => 4
    case FileSize => 5
    case FileExtension => 6
  }

  predicate Ascending(keys: seq<ErrorKey>)
  {
    forall i, j :: 0 <= i < j < |keys| ==> CheckOrder(keys[i]) < CheckOrder(keys[j])
  }

  /** A check whose key comes after every key so far keeps the list ascending, and
      adds its key exactly when it fails. */
  lemma PushInOrder(keys: seq<ErrorKey>, fails: bool, k: ErrorKey)
    requires Ascending(keys) && forall x :: x in keys ==> CheckOrder(x) < CheckOrder(k)
    ensures Ascending(PushIf(keys, fails, k))
    ensures forall x :: x in PushIf(keys, fails, k) ==> CheckOrder(x) <= CheckOrder(k)
    ensures forall x :: x in PushIf(keys, fails, k) <==> x in keys || (fails && x == k)
  {
  }

  /** Every image check runs: a key is pushed exactly when its check fails, at
      most once, and the keys come in the order minWidth, maxWidth, minHeight,
      maxHeight, imageFormat. */
  lemma ImageErrorsExactly(s: Settings, width: nat, height: nat)
    ensures forall k :: k in ImageErrors(s, width, height) <==> ImageCheckFails(s, width, height, k)
    ensures Ascending(ImageErrors(s, width, height))
  {
    var f1 := ImageCheckFails(s, width, height, MinWidth);
    var f2 := ImageCheckFails(s, width, height, MaxWidth);
    var f3 := ImageCheckFails(s, width, height, MinHeight);
    var f4 := ImageCheckFails(s, width, height, MaxHeight);
    var f5 := ImageCheckFails(s, width, height, ImageFormat);
    var a := PushIf([], f1, MinWidth);
    var b := PushIf(a, f2, MaxWidth);
    var c := PushIf(b, f3, MinHeight);
    var d := PushIf(c, f4, MaxHeight);
    var r := PushIf(d, f5, ImageFormat);
    assert r == ImageErrors(s, width, height);
    PushInOrder([], f1, MinWidth);
    PushInOrder(a, f2, MaxWidth);
    PushInOrder(b, f3, MinHeight);
    PushInOrder(c, f4, MaxHeight);
    PushInOrder(d, f5, ImageFormat);
    forall k
      ensures k in r <==> ImageCheckFails(s, width, height, k)
    {
      assert k in r <==> (f1 && k == MinWidth) || (f2 && k == MaxWidth) || (f3 && k == MinHeight)
                         || (f4 && k == MaxHeight) || (f5 && k == ImageFormat);
    }
  }

  /** The bounds are strict: a width equal to a nonzero `minWidth` fails, one pixel more passes. */
  lemma MinWidthIsExclusive(s: Settings, height: nat)
    requires s.minWidth != 0
    ensures MinWidth in ImageErrors(s, s.minWidth, height)
    ensures MinWidth !in ImageErrors(s, s.minWidth + 1, height)
  {
    ImageErrorsExactly(s, s.minWidth, height);
    ImageErrorsExactly(s, s.minWidth + 1, height);
  }

  /** A width equal to a nonzero `maxWidth` fails, one pixel less passes. */
  lemma MaxWidthIsExclusive(s: Settings, height: nat)
    requires s.maxWidth != 0
    ensures MaxWidth in ImageErrors(s, s.maxWidth, height)
    ensures MaxWidth !in ImageErrors(s, s.maxWidth - 1, height)
  {
    ImageErrorsExactly(s, s.maxWidth, height);
    ImageErrorsExactly(s, s.maxWidth - 1, height);
  }

  /** An image strictly inside every configured bound, in an allowed format, gets no error;
      a bound set to 0 constrains nothing. */
  lemma ImageWithinBoundsPasses(s: Settings, width: nat, height: nat)
    requires s.minWidth == 0 || s.minWidth < width
    requires s.maxWidth == 0 || width < s.maxWidth
    requires s.minHeight == 0 || s.minHeight < height
    requires s.maxHeight == 0 || height < s.maxHeight
    requires FormatName(GetImageFormat(width, height)) in s.allowedFormats
    ensures ImageErrors(s, width, height) == []
  {
  }

  // ---------------------------------------------------------------------------
  // Error messages

  /** The text `getError` substitutes for `{{ value }}`: the configured limit or list. */
  function ValueText(s: Settings, k: ErrorKey): string
  {
    match k
    case FileSize => (match s.maxFileSize case NumericZero => "0" case SizeText(t) => t)
    case MinWidth => NatToString(s.minWidth)
    case MaxWidth => NatToString(s.maxWidth)
    case MinHeight => NatToString(s.minHeight)
    case MaxHeight => NatToString(s.maxHeight)
    case ImageFormat => Join(s.allowedFormats, ", ")
    case FileExtension => Join(s.allowedFileExtensions, ", ")
  }

  /** `getError`: the key's template with its first `{{ value }}` replaced by the value text, unless that text is empty. */
  function GetError(s: Settings, k: ErrorKey): string
  {
    var value := ValueText(s, k);
    if value != "" then ReplaceFirst(s.error.Template(k), ValuePlaceholder, value) else s.error.Template(k)
  }

  /** A template without `{{ value }}` is shown as it is. */
  lemma GetErrorWithoutPlaceholder(s: Settings, k: ErrorKey)
    requires forall j: nat :: !OccursAt(s.error.Template(k), ValuePlaceholder, j)
    ensures GetError(s, k) == s.error.Template(k)
  {
    if ValueText(s, k) != "" {
      ReplaceFirstAbsent(s.error.Template(k), ValuePlaceholder, ValueText(s, k));
    }
  }

  /** The limit a dimension message reports. */
  function DimensionLimit(s: Settings, k: ErrorKey): nat
  {
    match k
    case MinWidth => s.minWidth
    case MaxWidth => s.maxWidth
    case MinHeight => s.minHeight
    case _ => s.maxHeight
  }

  /** A dimension message always shows its configured limit, in decimal, where the template's first `{{ value }}` stood. */
  lemma GetErrorShowsDimensionLimit(s: Settings, k: ErrorKey, i: nat)
    requires k in {MinWidth, MaxWidth, MinHeight, MaxHeight}
    requires OccursAt(s.error.Template(k), ValuePlaceholder, i)
    requires forall j: nat :: j < i ==> !OccursAt(s.error.Template(k), ValuePlaceholder, j)
    ensures var t := s.error.Template(k);
      GetError(s, k) == t[..i] + NatToString(DimensionLimit(s, k)) + t[i + |ValuePlaceholder|..]
  {
    ReplaceFirstAt(s.error.Template(k), ValuePlaceholder, ValueText(s, k), i);
  }

  /** Any error template made of a `{`-free lead-in, the placeholder and a tail yields the
      lead-in, the configured limit or list, and the tail, unless that value is empty. */
  lemma ErrorMessage(s: Settings, k: ErrorKey, lead: string, tail: string)
    requires ValueText(s, k) != ""
    requires s.error.Template(k) == lead + ValuePlaceholder + tail
    requires '{' !in lead
    ensures GetError(s, k) == lead + ValueText(s, k) + tail
  {
    var t := s.error.Template(k);
    var i := |lead|;
    assert t[i..i + |ValuePlaceholder|] == ValuePlaceholder;
    forall j: nat | j < i
      ensures !OccursAt(t, ValuePlaceholder, j)
    {
      assert t[j] == lead[j];
    }
    ReplaceFirstAt(t, ValuePlaceholder, ValueText(s, k), i);
    assert t[..i] == lead;
    assert t[i + |ValuePlaceholder|..] == tail;
  }

  /** A dimension template made of a `{`-free lead-in, the placeholder and a tail yields
      the lead-in, the limit in decimal and the tail. */
  lemma DimensionMessage(s: Settings, k: ErrorKey, lead: string, tail: string)
    requires k in {MinWidth, MaxWidth, MinHeight, MaxHeight}
    requires s.error.Template(k) == lead + ValuePlaceholder + tail
    requires '{' !in lead
    ensures GetError(s, k) == lead + NatToString(DimensionLimit(s, k)) + tail
  {
    ErrorMessage(s, k, lead, tail);
  }

  /** The built-in templates, written or corrected: they agree on the size, format and extension keys. */
  predicate BuiltInTemplates(s: Settings)
  {
    s.error == CorrectedErrorTemplates || s.error == WrittenErrorTemplates
  }

  /** With the built-in templates the size message shows the configured limit text in
      parentheses; an empty text leaves the placeholder in the message. */
  lemma SizeMessage(s: Settings)
    requires BuiltInTemplates(s)
    ensures GetError(s, FileSize) == "The file size is too big (" + (if ValueText(s, FileSize) == "" then ValuePlaceholder else ValueText(s, FileSize)) + " max)."
  {
    if ValueText(s, FileSize) != "" {
      ErrorMessage(s, FileSize, "The file size is too big (", " max).");
    }
  }

  /** With the built-in templates the format message lists the allowed formats, comma
      separated; with no format (or one empty name) the placeholder stays in the message. */
  lemma FormatMessage(s: Settings)
    requires BuiltInTemplates(s)
    ensures GetError(s, ImageFormat) == "The image format is not allowed (" + (if s.allowedFormats == [] || s.allowedFormats == [""] then ValuePlaceholder else Join(s.allowedFormats, ", ")) + " only)."
  {
    JoinEmpty(s.allowedFormats, ", ");
    if ValueText(s, ImageFormat) != "" {
      ErrorMessage(s, ImageFormat, "The image format is not allowed (", " only).");
    }
  }

  /** With the built-in templates the extension message lists the allowed extensions, comma
      separated; with none (or one empty entry) the placeholder stays in the message. */
  lemma ExtensionMessage(s: Settings)
    requires BuiltInTemplates(s)
    ensures GetError(s, FileExtension) == "The file is not allowed (" + (if s.allowedFileExtensions == [] || s.allowedFileExtensions == [""] then ValuePlaceholder else Join(s.allowedFileExtensions, ", ")) + " only)."
  {
    JoinEmpty(s.allowedFileExtensions, ", ");
    if ValueText(s, FileExtension) != "" {
      ErrorMessage(s, FileExtension, "The file is not allowed (", " only).");
    }
  }

  /** With no allowed format every image fails the format check, and its message is the
      template as it stands, placeholder and all, because the joined list is empty. */
  lemma NoFormatAllowed(s: Settings, width: nat, height: nat)
    requires s.allowedFormats == []
    ensures ImageFormat in ImageErrors(s, width, height)
    ensures GetError(s, ImageFormat) == s.error.Template(ImageFormat)
  {
    ImageErrorsExactly(s, width, height);
  }

  /** With the templates as written, the minimum-width message shows a stray `}` after
      the limit, whatever the limit: "(100}px min)" for a limit of 100. */
  lemma WrittenMinWidthMessage(s: Settings)
    requires s.error == WrittenErrorTemplates
    ensures GetError(s, MinWidth) == "The image width is too small (" + NatToString(s.minWidth) + "}px min)."
  {
    DimensionMessage(s, MinWidth, "The image width is too small (", "}px min).");
  }

  /** With the corrected templates, the minimum-width message shows the limit followed by "px". */
  lemma CorrectedMinWidthMessage(s: Settings)
    requires s.error == CorrectedErrorTemplates
    ensures GetError(s, MinWidth) == "The image width is too small (" + NatToString(s.minWidth) + "px min)."
  {
    DimensionMessage(s, MinWidth, "The image width is too small (", "px min).");
  }

  /** The messages of a list of error keys, in list order. */
  function ErrorMessages(s: Settings, keys: seq<ErrorKey>): (r: seq<string>)
    ensures |r| == |keys|
  {
    if keys == [] then [] else ErrorMessages(s, keys[..|keys| - 1]) + [GetError(s, keys[|keys| - 1])]
  }

  /** The message at each position is the message of the key at that position. */
  lemma {:induction false} ErrorMessagesAt(s: Settings, keys: seq<ErrorKey>)
    ensures forall i :: 0 <= i < |keys| ==> ErrorMessages(s, keys)[i] == GetError(s, keys[i])
  {
    if keys != [] {
      ErrorMessagesAt(s, keys[..|keys| - 1]);
    }
  }

  /** The elements of `xs`, last first. */
  function Reverse<T>(xs: seq<T>): seq<T>
  {
    seq(|xs|, i requires 0 <= i < |xs| => xs[|xs| - 1 - i])
  }

  /** The error list shows the most recently pushed error first. */
  lemma ShownMostRecentFirst(s: Settings, errors: seq<ErrorKey>)
    ensures var shown := ErrorMessages(s, Reverse(errors));
      |shown| == |errors| && forall i :: 0 <= i < |errors| ==> shown[i] == GetError(s, errors[|errors| - 1 - i])
  {
    var r := Reverse(errors);
    ErrorMessagesAt(s, r);
    forall i | 0 <= i < |errors|
      ensures ErrorMessages(s, r)[i] == GetError(s, errors[|errors| - 1 - i])
    {
      assert r[i] == errors[|errors| - 1 - i];
    }
  }

  // ---------------------------------------------------------------------------
  // translateMessages

  /** One template after the message loop: each message in turn replaces the first `{{ key }}` of the text so far. */
  function ApplyMessages(template: string, messages: seq<(string, string)>): string
  {
    if messages == [] then template
    else
      var (key, text) := messages[|messages| - 1];
      ReplaceFirst(ApplyMessages(template, messages[..|messages| - 1]), Placeholder(key), text)
  }

  /** Every template translated, names kept in place. */
  function TranslateTemplates(tpl: seq<(string, string)>, messages: seq<(string, string)>): (r: seq<(string, string)>)
    ensures |r| == |tpl|
    ensures forall i :: 0 <= i < |tpl| ==> r[i] == (tpl[i].0, ApplyMessages(tpl[i].1, messages))
  {
    if tpl == [] then []
    else TranslateTemplates(tpl[..|tpl| - 1], messages) + [(tpl[|tpl| - 1].0, ApplyMessages(tpl[|tpl| - 1].1, messages))]
  }

  /** A template in which no `{{ ` opens is left exactly as it was, whatever the messages say. */
  lemma {:induction false} TemplateWithoutPlaceholderUnchanged(template: string, messages: seq<(string, string)>)
    requires forall j: nat :: !OccursAt(template, "{{ ", j)
    ensures ApplyMessages(template, messages) == template
  {
    if messages != [] {
      var (key, text) := messages[|messages| - 1];
      TemplateWithoutPlaceholderUnchanged(template, messages[..|messages| - 1]);
      forall j: nat
        ensures !OccursAt(template, Placeholder(key), j)
      {
        if OccursAt(template, Placeholder(key), j) {
          PrefixOccursAt(template, Placeholder(key), "{{ ", j);
        }
      }
      ReplaceFirstAbsent(template, Placeholder(key), text);
    }
  }

  /** A single message replaces the first occurrence of its placeholder and nothing else. */
  lemma TranslateOneMessage(template: string, key: string, text: string, i: nat)
    requires OccursAt(template, Placeholder(key), i)
    requires forall j: nat :: j < i ==> !OccursAt(template, Placeholder(key), j)
    ensures ApplyMessages(template, [(key, text)]) == template[..i] + text + template[i + |Placeholder(key)|..]
  {
    assert [(key, text)][..0] == [];
    ReplaceFirstAt(template, Placeholder(key), text, i);
  }

  predicate NoOpenBrace(x: string)
  {
    forall i :: 0 <= i < |x| ==> x[i] != '{'
  }

  /** A message key without braces, as the built-in keys are. */
  predicate PlainKey(key: string)
  {
    forall i :: 0 <= i < |key| ==> key[i] != '{' && key[i] != '}'
  }

  /** A text without `{` holds no placeholder. */
  lemma NoPlaceholderWithoutBrace(x: string, key: string)
    requires NoOpenBrace(x)
    ensures forall j: nat :: !OccursAt(x, Placeholder(key), j)
  {
    forall j: nat
      ensures !OccursAt(x, Placeholder(key), j)
    {
      if j + |Placeholder(key)| <= |x| {
        assert x[j..j + |Placeholder(key)|][0] == x[j];
      }
    }
  }

  /** The placeholder of a plain key occurs in a text made of a `{`-free lead, the placeholder
      of another plain key and a `{`-free tail nowhere. */
  lemma OtherPlaceholderAbsent(lead: string, key: string, tail: string, other: string)
    requires NoOpenBrace(lead) && NoOpenBrace(tail)
    requires PlainKey(key) && PlainKey(other) && key != other
    ensures forall j: nat :: !OccursAt(lead + Placeholder(key) + tail, Placeholder(other), j)
  {
    var q := Placeholder(key);
    var t := lead + q + tail;
    var p := Placeholder(other);
    assert forall i :: 0 <= i < |lead| ==> t[i] == lead[i];
    assert forall i :: |lead| <= i < |lead| + |q| ==> t[i] == q[i - |lead|];
    assert forall i :: |lead| + |q| <= i < |t| ==> t[i] == tail[i - |lead| - |q|];
    assert forall i :: 3 <= i < 3 + |key| ==> q[i] == key[i - 3];
    forall j: nat
      ensures !OccursAt(t, p, j)
    {
      if j + |p| <= |t| {
        var w := t[j..j + |p|];
        if j != |lead| {
          // only `t[|lead|]` starts a `{{`
          assert w[0] == t[j] && w[1] == t[j + 1];
          assert t[j] != '{' || t[j + 1] != '{';
        } else if |key| == |other| {
          assert w == q;
          assert w[3..3 + |key|] == key;
        } else {
          // where the shorter key ends, one placeholder closes with `}` and the other does not
          var d := 4 + if |key| < |other| then |key| else |other|;
          assert w[d] == t[j + d] == q[d];
          assert q[d] == '}' <==> |key| < |other|;
          assert p[d] == '}' <==> |other| < |key|;
        }
      }
    }
  }

  /** A placeholder right after a `{`-free lead is the first one, and replacing it keeps the lead and the tail. */
  lemma ReplacePlaceholderAfterLead(lead: string, key: string, tail: string, text: string)
    requires NoOpenBrace(lead)
    ensures ReplaceFirst(lead + Placeholder(key) + tail, Placeholder(key), text) == lead + text + tail
  {
    var p := Placeholder(key);
    var t := lead + p + tail;
    assert t[|lead|..|lead| + |p|] == p;
    forall j: nat | j < |lead|
      ensures !OccursAt(t, p, j)
    {
      assert t[j] == lead[j];
      if j + |p| <= |t| {
        assert t[j..j + |p|][0] == t[j];
      }
    }
    ReplaceFirstAt(t, p, text, |lead|);
    assert t[..|lead|] == lead;
    assert t[|lead| + |p|..] == tail;
  }

  /** The messages up to `n` are those up to `n - 1` followed by message `n - 1`. */
  lemma ApplyMessagesStep(template: string, messages: seq<(string, string)>, n: nat)
    requires 0 < n <= |messages|
    ensures ApplyMessages(template, messages[..n])
      == ReplaceFirst(ApplyMessages(template, messages[..n - 1]), Placeholder(messages[n - 1].0), messages[n - 1].1)
  {
    assert messages[..n][..n - 1] == messages[..n - 1];
  }

  /** Another key's message leaves a lead-placeholder-tail template as it is. */
  lemma OtherMessageUnmoved(lead: string, key: string, tail: string, other: string, text: string)
    requires NoOpenBrace(lead) && NoOpenBrace(tail)
    requires PlainKey(key) && PlainKey(other) && key != other
    ensures ReplaceFirst(lead + Placeholder(key) + tail, Placeholder(other), text) == lead + Placeholder(key) + tail
  {
    OtherPlaceholderAbsent(lead, key, tail, other);
    ReplaceFirstAbsent(lead + Placeholder(key) + tail, Placeholder(other), text);
  }

  /** Any message leaves a text made of `{`-free parts as it is. */
  lemma BraceFreeUnmoved(lead: string, middle: string, tail: string, key: string, text: string)
    requires NoOpenBrace(lead) && NoOpenBrace(middle) && NoOpenBrace(tail)
    ensures ReplaceFirst(lead + middle + tail, Placeholder(key), text) == lead + middle + tail
  {
    var r := lead + middle + tail;
    assert NoOpenBrace(r);
    NoPlaceholderWithoutBrace(r, key);
    ReplaceFirstAbsent(r, Placeholder(key), text);
  }

  /** Distinct plain keys and a template made of a `{`-free lead, the placeholder of message
      `m` and a `{`-free tail: the messages before `m` leave it as it is. */
  lemma {:induction false} ApplyMessagesBefore(lead: string, tail: string, messages: seq<(string, string)>, m: nat, n: nat)
    requires n <= m < |messages|
    requires NoOpenBrace(lead) && NoOpenBrace(tail)
    requires forall i :: 0 <= i < |messages| ==> PlainKey(messages[i].0)
    requires forall i, j :: 0 <= i < j < |messages| ==> messages[i].0 != messages[j].0
    ensures ApplyMessages(lead + Placeholder(messages[m].0) + tail, messages[..n]) == lead + Placeholder(messages[m].0) + tail
  {
    if n > 0 {
      ApplyMessagesBefore(lead, tail, messages, m, n - 1);
      ApplyMessagesStep(lead + Placeholder(messages[m].0) + tail, messages, n);
      OtherMessageUnmoved(lead, messages[m].0, tail, messages[n - 1].0, messages[n - 1].1);
    }
  }

  /** The same template reads lead, the text of `m`, tail once message `m` has been applied
      (when that text holds no `{`), and the messages after `m` leave it so. */
  lemma {:induction false} ApplyMessagesUpTo(lead: string, tail: string, messages: seq<(string, string)>, m: nat, n: nat)
    requires m < n <= |messages|
    requires NoOpenBrace(lead) && NoOpenBrace(tail) && NoOpenBrace(messages[m].1)
    requires forall i :: 0 <= i < |messages| ==> PlainKey(messages[i].0)
    requires forall i, j :: 0 <= i < j < |messages| ==> messages[i].0 != messages[j].0
    ensures ApplyMessages(lead + Placeholder(messages[m].0) + tail, messages[..n]) == lead + messages[m].1 + tail
  {
    var t := lead + Placeholder(messages[m].0) + tail;
    ApplyMessagesStep(t, messages, n);
    if n - 1 == m {
      ApplyMessagesBefore(lead, tail, messages, m, m);
      ReplacePlaceholderAfterLead(lead, messages[m].0, tail, messages[m].1);
    } else {
      ApplyMessagesUpTo(lead, tail, messages, m, n - 1);
      BraceFreeUnmoved(lead, messages[m].1, tail, messages[n - 1].0, messages[n - 1].1);
    }
  }

  /** `translateMessages` on one template holding one placeholder: with distinct plain keys,
      the template becomes its lead, the text of the message whose key it names, and its tail;
      the other messages find nothing to replace. */
  lemma TranslateAmongMessages(lead: string, tail: string, messages: seq<(string, string)>, m: nat)
    requires m < |messages|
    requires NoOpenBrace(lead) && NoOpenBrace(tail) && NoOpenBrace(messages[m].1)
    requires forall i :: 0 <= i < |messages| ==> PlainKey(messages[i].0)
    requires forall i, j :: 0 <= i < j < |messages| ==> messages[i].0 != messages[j].0
    ensures ApplyMessages(lead + Placeholder(messages[m].0) + tail, messages) == lead + messages[m].1 + tail
  {
    ApplyMessagesUpTo(lead, tail, messages, m, |messages|);
    assert messages[..|messages|] == messages;
  }

  // ---------------------------------------------------------------------------
  // The defaults

  /** The built-in clear button is labelled with the built-in "remove" message. */
  lemma DefaultClearButtonTranslated()
    ensures TranslateTemplates(DefaultTemplates, DefaultMessages)[5]
      == ("clearButton", "<button type=\"button\" class=\"dropify-clear\">" + "Remove" + "</button>")
  {
    TranslateAmongMessages("<button type=\"button\" class=\"dropify-clear\">", "</button>", DefaultMessages, 2);
  }

  /** By default images below 5 MiB (5 * 1024 * 1024 bytes) are decoded for a preview. */
  lemma DefaultPreviewLimit()
    ensures SizeToByte(Defaults().maxFileSizePreview) == 5 * 1024 * 1024
  {
    assert NatToString(5) == "5";
    assert "5M" == NatToString(5) + ['M'];
    SizeToByteOfUnit(5, 'M');
  }

  /** The defaults reject nothing: no size limit, any extension, any dimensions and format. */
  lemma DefaultsAcceptEverything(fileName: string, fileSize: nat, width: nat, height: nat)
    ensures IntakeErrors(Defaults(), fileName, fileSize) == []
    ensures ImageErrors(Defaults(), width, height) == []
  {
  }
}
