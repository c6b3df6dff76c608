/**
 * The `DropifyMultiple` controller's bookkeeping: the selected files, their
 * count, the list of pushed errors, the shown error list, the filename label
 * and the initialised flag. The surrounding DOM work (wrapping, previews,
 * loader, CSS classes) has no state here; the browser's asynchronous image
 * decoding enters as the `ImageLoaded` step with the decoded width and height.
 */
module Dropify {
  import opened Text
  import opened Config
  import opened Validation

  /** A file as the browser's file input hands it over. */
  datatype InputFile = InputFile(name: string, size: nat, mime: string)

  /** One entry of `files`: width and height stay null until the image is decoded. */
  datatype FileRecord = FileRecord(name: string, size: nat, mime: string, width: Option<nat>, height: Option<nat>)

  function NewRecord(f: InputFile): FileRecord
  {
    FileRecord(f.name, f.size, f.mime, None, None)
  }

  /** The records an intake appends for a batch of input files, one per file, in order. */
  function Records(fs: seq<InputFile>): (r: seq<FileRecord>)
    ensures |r| == |fs|
  {
    if fs == [] then [] else Records(fs[..|fs| - 1]) + [NewRecord(fs[|fs| - 1])]
  }

  /** The record at each position is the fresh record of the file at that position. */
  lemma {:induction false} RecordsAt(fs: seq<InputFile>)
    ensures forall i :: 0 <= i < |fs| ==> Records(fs)[i] == NewRecord(fs[i])
  {
    if fs != [] {
      RecordsAt(fs[..|fs| - 1]);
    }
  }

  /** The first index whose record carries `name`, or -1. */
  function IndexOfName(files: seq<FileRecord>, name: string): (r: int)
    ensures -1 <= r < |files|
    ensures r >= 0 ==> files[r].name == name
    ensures forall j :: 0 <= j < |files| && (r < 0 || j < r) ==> files[j].name != name
  {
    IndexOfNameFrom(files, name, 0)
  }

  /** The first index from `from` on whose record carries `name`, or -1. */
  function IndexOfNameFrom(files: seq<FileRecord>, name: string, from: nat): (r: int)
    requires from <= |files|
    ensures r == -1 || (from <= r < |files| && files[r].name == name)
    ensures forall j :: from <= j < |files| && (r < 0 || j < r) ==> files[j].name != name
    decreases |files| - from
  {
    if from == |files| then -1
    else if files[from].name == name then from
    else IndexOfNameFrom(files, name, from + 1)
  }

  /** What the size and extension checks make of one file at intake: the errors they
      push, and whether the file goes on to the image decoder. */
  datatype Verdict = Verdict(errs: seq<ErrorKey>, decode: bool)
  {
    /** A file that is not decoded and has errors is rejected on the spot. */
    predicate Rejected()
    {
      !decode && errs != []
    }
  }

  /** The intake checks of one file: its size and extension errors, and whether it is previewable. */
  function Check(s: Settings, f: InputFile): Verdict
  {
    Verdict(IntakeErrors(s, f.name, f.size), Previewable(s, f.name, f.size))
  }

  /** The verdict on each file of a batch, in order. */
  function Verdicts(s: Settings, fs: seq<InputFile>): (vs: seq<Verdict>)
    ensures |vs| == |fs|
    decreases |fs|, 1
  {
    if fs == [] then [] else VerdictsThenLast(s, fs)
  }

  /** The verdicts on all but the last file of `fs`, then the verdict on the last one.
      Kept apart from `Verdicts` so that unfolding `Verdicts` once does not unfold
      the checks of a file. */
  function VerdictsThenLast(s: Settings, fs: seq<InputFile>): (vs: seq<Verdict>)
    requires fs != []
    ensures |vs| == |fs|
    decreases |fs|, 0
  {
    Verdicts(s, fs[..|fs| - 1]) + [Check(s, fs[|fs| - 1])]
  }

  /** The verdict at each position is the one on the file at that position. */
  lemma {:induction false} VerdictsAt(s: Settings, fs: seq<InputFile>, i: nat)
    requires i < |fs|
    ensures Verdicts(s, fs)[i] == Check(s, fs[i])
  {
    if i < |fs| - 1 {
      VerdictsAt(s, fs[..|fs| - 1], i);
    }
  }

  /** The index of the first rejected verdict, or the number of verdicts. */
  function FirstRejected(vs: seq<Verdict>): (k: nat)
    ensures k <= |vs|
  {
    FirstRejectedFrom(vs, 0)
  }

  /** The index of the first rejected verdict from `from` on, or the number of verdicts. */
  function FirstRejectedFrom(vs: seq<Verdict>, from: nat): (k: nat)
    requires from <= |vs|
    ensures from <= k <= |vs|
    decreases |vs| - from
  {
    if from == |vs| then from
    else if vs[from].Rejected() then from
    else FirstRejectedFrom(vs, from + 1)
  }

  /** Every verdict from `from` up to the first rejected one accepts, and that one rejects. */
  lemma {:induction false} FirstRejectedFromShape(vs: seq<Verdict>, from: nat)
    requires from <= |vs|
    ensures var k := FirstRejectedFrom(vs, from);
      && (forall i :: from <= i < k ==> !vs[i].Rejected())
      && (k < |vs| ==> vs[k].Rejected())
    decreases |vs| - from
  {
    if from < |vs| && !vs[from].Rejected() {
      FirstRejectedFromShape(vs, from + 1);
    }
  }

  /** Every verdict before the first rejected one accepts, and that one rejects. */
  lemma FirstRejectedShape(vs: seq<Verdict>)
    ensures var k := FirstRejected(vs);
      && (forall i :: 0 <= i < k ==> !vs[i].Rejected())
      && (k < |vs| ==> vs[k].Rejected())
  {
    FirstRejectedFromShape(vs, 0);
  }

  /** Up to the first rejected verdict, a verdict rejects exactly when it is that one. */
  lemma FirstRejectedAt(vs: seq<Verdict>, i: nat)
    requires i < |vs| && i <= FirstRejected(vs)
    ensures vs[i].Rejected() <==> i == FirstRejected(vs)
  {
    FirstRejectedShape(vs);
  }

  /** The files among the first `n` of `fs` handed to the image decoder, in order. */
  function DecodeRequests(fs: seq<InputFile>, vs: seq<Verdict>, n: nat): seq<InputFile>
    requires n <= |fs| == |vs|
  {
    if n == 0 then []
    else DecodeRequests(fs, vs, n - 1) + (if vs[n - 1].decode then [fs[n - 1]] else [])
  }

  /** One more file adds itself to the decode requests exactly when it is decoded. */
  lemma DecodeRequestsNext(fs: seq<InputFile>, vs: seq<Verdict>, n: nat)
    requires n < |fs| == |vs|
    ensures DecodeRequests(fs, vs, n + 1) == DecodeRequests(fs, vs, n) + (if vs[n].decode then [fs[n]] else [])
  {
  }

  /** The files of a selection that the intake hands to the image decoder: the
      previewable ones, up to the first file rejected on the spot. */
  function Decoded(s: Settings, fs: seq<InputFile>): seq<InputFile>
  {
    var vs := Verdicts(s, fs);
    DecodeRequests(fs, vs, FirstRejected(vs))
  }

  /** The part of the controller's state that taking in files changes. */
  datatype Intake = Intake(
    files: seq<FileRecord>,
    totalFiles: nat,
    errors: seq<ErrorKey>,
    inputFiles: seq<InputFile>,
    shownErrors: seq<ErrorKey>)

  /** One file taken in at the end of the selection: its record is appended, the error
      list starts afresh with its size and extension errors, and the shown list is
      cleared. A file rejected on the spot resets the selection and the input, and its
      errors are shown, most recent first. */
  function TakeStep(showErrors: bool, st: Intake, f: InputFile, v: Verdict): Intake
  {
    if v.Rejected() then
      Intake([], 0, v.errs, [], if showErrors then Reverse(v.errs) else st.shownErrors)
    else
      Intake(st.files + [NewRecord(f)], st.totalFiles, v.errs, st.inputFiles, if showErrors then [] else st.shownErrors)
  }

  /** The first `n` files of `fs`, with their verdicts `vs`, taken in one after another, starting from `st`. */
  function IntakeRun(showErrors: bool, st: Intake, fs: seq<InputFile>, vs: seq<Verdict>, n: nat): Intake
    requires n <= |fs| == |vs|
  {
    if n == 0 then st else TakeStep(showErrors, IntakeRun(showErrors, st, fs, vs, n - 1), fs[n - 1], vs[n - 1])
  }

  /** Taking in one more file is one more step. */
  lemma IntakeRunNext(showErrors: bool, st: Intake, fs: seq<InputFile>, vs: seq<Verdict>, n: nat)
    requires n < |fs| == |vs|
    ensures IntakeRun(showErrors, st, fs, vs, n + 1) == TakeStep(showErrors, IntakeRun(showErrors, st, fs, vs, n), fs[n], vs[n])
  {
  }

  /** How many files an intake takes in: up to and including the first one rejected on
      the spot, or all of them. */
  function Taken(vs: seq<Verdict>): (n: nat)
    ensures n <= |vs|
  {
    var k := FirstRejected(vs);
    if k < |vs| then k + 1 else k
  }

  /** The intake of the whole of `fs` under the settings `s`, starting from `st`. */
  function IntakeOf(s: Settings, st: Intake, fs: seq<InputFile>): Intake
  {
    var vs := Verdicts(s, fs);
    IntakeRun(s.showErrors, st, fs, vs, Taken(vs))
  }

  /** While no file is rejected, every file adds its record in order, the count and the
      input are kept, the errors are those of the last file and the shown list is empty
      (when there is one). */
  lemma {:induction false} IntakeRunAccepts(showErrors: bool, st: Intake, fs: seq<InputFile>, vs: seq<Verdict>, n: nat)
    requires n <= |fs| == |vs|
    requires forall i :: 0 <= i < n ==> !vs[i].Rejected()
    ensures var r := IntakeRun(showErrors, st, fs, vs, n);
      && r.files == st.files + Records(fs[..n])
      && r.totalFiles == st.totalFiles
      && r.inputFiles == st.inputFiles
      && r.errors == (if n == 0 then st.errors else vs[n - 1].errs)
      && r.shownErrors == (if n == 0 || !showErrors then st.shownErrors else [])
  {
    if n > 0 {
      IntakeRunAccepts(showErrors, st, fs, vs, n - 1);
      assert fs[..n][..n - 1] == fs[..n - 1];
      AppendAssociative(st.files, Records(fs[..n - 1]), [NewRecord(fs[n - 1])]);
    }
  }

  /** A rejected file empties the selection and the input whatever came before it, and
      leaves its own errors as the error list, shown most recent first. */
  lemma IntakeRunRejects(showErrors: bool, st: Intake, fs: seq<InputFile>, vs: seq<Verdict>, k: nat)
    requires k < |fs| == |vs| && vs[k].Rejected()
    ensures var r := IntakeRun(showErrors, st, fs, vs, k + 1);
      && r.files == [] && r.totalFiles == 0 && r.inputFiles == []
      && r.errors == vs[k].errs
      && (showErrors ==> r.shownErrors == Reverse(r.errors))
  {
  }

  /** Without an error list, taking in files never changes what is shown. */
  lemma {:induction false} IntakeRunHidesErrors(st: Intake, fs: seq<InputFile>, vs: seq<Verdict>, n: nat)
    requires n <= |fs| == |vs|
    ensures IntakeRun(false, st, fs, vs, n).shownErrors == st.shownErrors
  {
    if n > 0 {
      IntakeRunHidesErrors(st, fs, vs, n - 1);
    }
  }

  /** A fresh selection of `fs` (empty record list, count `|fs|`, input `fs`) in which no
      file is rejected ends with a record per file, consistent with the count and the input. */
  lemma SelectionAccepted(s: Settings, fs: seq<InputFile>, errors: seq<ErrorKey>, shown: seq<ErrorKey>)
    requires FirstRejected(Verdicts(s, fs)) == |fs|
    ensures var r := IntakeOf(s, Intake([], |fs|, errors, fs, shown), fs);
      r.files == Records(fs) && r.totalFiles == |fs| && r.inputFiles == fs
  {
    var vs := Verdicts(s, fs);
    FirstRejectedShape(vs);
    assert fs[..|fs|] == fs;
    IntakeRunAccepts(s.showErrors, Intake([], |fs|, errors, fs, shown), fs, vs, |fs|);
  }

  /** A fresh selection of `fs` with a file rejected on the spot ends, at the first such
      file, with everything emptied and that file's size and extension errors as the error
      list, which is not empty and stays on show, most recent first (when there is an error list). */
  lemma SelectionRejected(s: Settings, fs: seq<InputFile>, errors: seq<ErrorKey>, shown: seq<ErrorKey>)
    requires FirstRejected(Verdicts(s, fs)) < |fs|
    ensures var r := IntakeOf(s, Intake([], |fs|, errors, fs, shown), fs);
      var k := FirstRejected(Verdicts(s, fs));
      && r.files == [] && r.totalFiles == 0 && r.inputFiles == []
      && r.errors == IntakeErrors(s, fs[k].name, fs[k].size) && r.errors != []
      && (s.showErrors ==> r.shownErrors == Reverse(r.errors))
  {
    var vs := Verdicts(s, fs);
    var k := FirstRejected(vs);
    FirstRejectedShape(vs);
    IntakeRunRejects(s.showErrors, Intake([], |fs|, errors, fs, shown), fs, vs, k);
    VerdictsAt(s, fs, k);
  }

  /** What the source's intake leaves behind as written, with `blanks` empty objects at the
      head of `files`. It runs as `IntakeOf` up to and including the first file rejected on
      the spot. When another file follows that one, the loop goes on to it: `clearErrors`
      empties the shown list, then `setFileInformations` finds no slot at the file's index
      in the emptied `files`, pushes an empty object and throws writing to the missing slot. */
  datatype WrittenIntake = WrittenIntake(state: Intake, blanks: nat)

  function WrittenIntakeOf(s: Settings, st: Intake, fs: seq<InputFile>): WrittenIntake
  {
    var r := IntakeOf(s, st, fs);
    if Taken(Verdicts(s, fs)) < |fs| then
      WrittenIntake(r.(shownErrors := if s.showErrors then [] else r.shownErrors), 1)
    else
      WrittenIntake(r, 0)
  }

  /** As written, a fresh selection whose first file rejected on the spot is not its last file
      ends with that file's errors pending but none of them on show, and with an empty object
      in `files` while the count is 0. */
  lemma WrittenEarlyRejectionShowsNothing(s: Settings, fs: seq<InputFile>, errors: seq<ErrorKey>, shown: seq<ErrorKey>)
    requires s.showErrors
    requires FirstRejected(Verdicts(s, fs)) + 1 < |fs|
    ensures var w := WrittenIntakeOf(s, Intake([], |fs|, errors, fs, shown), fs);
      && w.state.errors != [] && w.state.shownErrors == []
      && w.state.files == [] && w.blanks == 1 && w.state.totalFiles == 0
  {
    SelectionRejected(s, fs, errors, shown);
  }

  /** The controller's state after the image named `name` is decoded to `width` by `height`,
      as the source's `image.onload` handler writes it: the image errors are appended to
      whatever the shared error list holds at that moment, and only then is the file
      finished. An unknown name leaves the state as it is. */
  function WrittenImageLoaded(s: Settings, st: Intake, name: string, width: nat, height: nat): Intake
  {
    var idx := IndexOfName(st.files, name);
    if idx < 0 then st
    else
      var errs := st.errors + ImageErrors(s, width, height);
      if errs == [] then
        st.(files := st.files[idx := st.files[idx].(width := Some(width), height := Some(height))], errors := errs)
      else
        Intake([], 0, errs, [], if s.showErrors then st.shownErrors + Reverse(errs) else st.shownErrors)
  }

  /** As written, the size and extension errors of a decoded file are lost: the next file's
      intake starts the shared list afresh. When the last file passes those checks, the
      intake ends with no error pending, and the failing file, once its image loads with
      passing dimensions, stays in the selection with the count unchanged. */
  lemma WrittenDecodedErrorsLost(s: Settings, fs: seq<InputFile>, errors: seq<ErrorKey>, shown: seq<ErrorKey>,
                                 j: nat, width: nat, height: nat)
    requires FirstRejected(Verdicts(s, fs)) == |fs|
    requires j + 1 < |fs| && IntakeErrors(s, fs[j].name, fs[j].size) != []
    requires IntakeErrors(s, fs[|fs| - 1].name, fs[|fs| - 1].size) == []
    requires ImageErrors(s, width, height) == []
    ensures Verdicts(s, fs)[j].decode
    ensures var r := IntakeOf(s, Intake([], |fs|, errors, fs, shown), fs);
      && r.errors == [] && r.files == Records(fs) && r.totalFiles == |fs|
      && var loaded := WrittenImageLoaded(s, r, fs[j].name, width, height);
        && loaded.errors == [] && |loaded.files| == |fs| && loaded.totalFiles == |fs| && loaded.inputFiles == fs
  {
    var vs := Verdicts(s, fs);
    var st := Intake([], |fs|, errors, fs, shown);
    FirstRejectedShape(vs);
    VerdictsAt(s, fs, j);
    VerdictsAt(s, fs, |fs| - 1);
    assert fs[..|fs|] == fs;
    IntakeRunAccepts(s.showErrors, st, fs, vs, |fs|);
    RecordsAt(fs);
    assert Records(fs)[j].name == fs[j].name;
  }

  lemma AppendAssociative<T>(x: seq<T>, y: seq<T>, z: seq<T>)
    ensures x + y + z == x + (y + z)
  {
  }

  /** What the filename label shows: nothing yet, the name of the only file, or the count of files. */
  datatype FilenameLabel = Blank | FileName(name: string) | FileCount(total: nat)

  /** The label's text as it is written into the page. */
  function LabelText(l: FilenameLabel): string
  {
    match l
    case Blank => ""
    case FileName(name) => name
    case FileCount(total) => NatToString(total) + " files to upload."
  }

  /** The count can be read back from the start of the count label's text. */
  lemma LabelTextShowsCount(total: nat)
    ensures NumberPrefix(LabelText(FileCount(total))) == total
    ensures LabelText(FileCount(total)) != ""
  {
    NumberPrefixOfNatToString(total, " files to upload.");
  }

  class DropifyMultiple {
    /** The merged settings; the controller never changes them. */
    const settings: Settings
    /** The markup templates, which `TranslateMessages` rewrites in place. */
    var tpl: seq<(string, string)>
    /** The selection: one record per file taken in since the last reset. */
    var files: seq<FileRecord>
    var totalFiles: nat
    /** The keys pushed onto the shared `errorsEvent.errors` list. */
    var errors: seq<ErrorKey>
    var isInit: bool
    /** The files of the native input element; clearing its value empties it. */
    var inputFiles: seq<InputFile>
    /** The filename label. */
    var filenameLabel: FilenameLabel
    /** The keys whose messages fill the shown error list, top to bottom; the
        items' text is `ErrorMessages(settings, shownErrors)`. */
    var shownErrors: seq<ErrorKey>

    /** Between events the count agrees with the selection. */
    ghost predicate Valid()
      reads this
    {
      |files| == totalFiles
    }

    /** The fields that taking in files changes. */
    ghost function Snapshot(): Intake
      reads this
    {
      Intake(files, totalFiles, errors, inputFiles, shownErrors)
    }

    /** The settings are the merged `options`; the templates are `templates` with
        every message substituted in. */
    constructor (options: Settings, templates: seq<(string, string)>)
      ensures settings == options && tpl == TranslateTemplates(templates, options.messages)
      ensures files == [] && totalFiles == 0 && errors == [] && isInit
      ensures inputFiles == [] && filenameLabel == Blank && shownErrors == []
      ensures Valid()
    {
      settings := options;
      tpl := templates;
      files := [];
      totalFiles := 0;
      errors := [];
      isInit := false;
      inputFiles := [];
      filenameLabel := Blank;
      shownErrors := [];
      new;
      TranslateMessages();
      CreateElements();
    }

    /** Substitutes every message into every template, in place. */
    method TranslateMessages()
      modifies this`tpl
      ensures tpl == TranslateTemplates(old(tpl), settings.messages)
    {
      ghost var tpl0 := tpl;
      var messages := settings.messages;
      var n := 0;
      while n < |tpl|
        invariant 0 <= n <= |tpl0| == |tpl|
        invariant forall m :: 0 <= m < n ==> tpl[m] == (tpl0[m].0, ApplyMessages(tpl0[m].1, messages))
        invariant forall m :: n <= m < |tpl0| ==> tpl[m] == tpl0[m]
      {
        ghost var before := tpl;
        var k := 0;
        while k < |messages|
          invariant 0 <= k <= |messages|
          invariant |tpl| == |tpl0|
          invariant tpl[n] == (tpl0[n].0, ApplyMessages(tpl0[n].1, messages[..k]))
          invariant forall m :: 0 <= m < |tpl0| && m != n ==> tpl[m] == before[m]
        {
          var (key, text) := messages[k];
          var (name, template) := tpl[n];
          tpl := tpl[n := (name, ReplaceFirst(template, Placeholder(key), text))];
          assert messages[..k + 1][..k] == messages[..k];
          k := k + 1;
        }
        assert messages[..k] == messages;
        n := n + 1;
      }
      assert tpl == TranslateTemplates(tpl0, messages);
    }

    /** Attaches the scaffold: of it the model keeps only the initialised flag. */
    method CreateElements()
      modifies this`isInit
      ensures isInit
    {
      isInit := true;
    }

    method Init()
      modifies this`isInit
      ensures isInit
    {
      CreateElements();
    }

    /** Detaches the scaffold; the selection is left as it is. */
    method Destroy()
      modifies this`isInit
      ensures !isInit
    {
      isInit := false;
    }

    method IsDropified() returns (r: bool)
      ensures r == isInit
    {
      r := isInit;
    }

    /** The change event: the browser has put `chosen` into the input; reset, then take
        the files in (`SelectionAccepted` and `SelectionRejected` spell out the outcome). */
    method OnChange(chosen: seq<InputFile>) returns (decodes: seq<InputFile>)
      modifies this`files, this`totalFiles, this`errors, this`filenameLabel, this`shownErrors, this`inputFiles
      ensures Valid()
      ensures filenameLabel == if |chosen| == 1 then FileName(chosen[0].name) else FileCount(|chosen|)
      ensures decodes == Decoded(settings, chosen)
      ensures Snapshot() == IntakeOf(settings, Intake([], |chosen|, old(errors), chosen, old(shownErrors)), chosen)
    {
      inputFiles := chosen;
      ResetFile();
      assert Snapshot().(totalFiles := |chosen|) == Intake([], |chosen|, old(errors), chosen, old(shownErrors));
      decodes := ReadFile();
    }

    /** Takes in the input's files: appends a record per file, counts them, sets the
        filename label and runs the size and extension checks; a file that is not decoded and
        has errors resets the selection, and the intake ends there. Returns the files
        handed to the image decoder. */
    method ReadFile() returns (decodes: seq<InputFile>)
      requires Valid()
      requires !(totalFiles == 1 && inputFiles == [])
      modifies this`files, this`totalFiles, this`errors, this`filenameLabel, this`shownErrors, this`inputFiles
      ensures Valid()
      ensures var input := old(inputFiles);
        var total := old(totalFiles) + |input|;
        filenameLabel == if total == 1 then FileName(input[0].name) else FileCount(total)
      ensures decodes == Decoded(settings, old(inputFiles))
      ensures Snapshot() == IntakeOf(settings, old(Snapshot()).(totalFiles := old(totalFiles) + |old(inputFiles)|), old(inputFiles))
    {
      var input := inputFiles;
      totalFiles := totalFiles + |input|;
      filenameLabel := if totalFiles == 1 then FileName(input[0].name) else FileCount(totalFiles);
      assert Snapshot() == old(Snapshot()).(totalFiles := old(totalFiles) + |input|);
      decodes := TakeInFiles(input);
    }

    /** The intake loop of `ReadFile`: takes in each file of `input` in turn, ending
        early at the first file rejected on the spot. */
    method TakeInFiles(input: seq<InputFile>) returns (decodes: seq<InputFile>)
      requires totalFiles == |files| + |input|
      modifies this`files, this`totalFiles, this`errors, this`shownErrors, this`inputFiles
      ensures Valid()
      ensures decodes == Decoded(settings, input)
      ensures Snapshot() == IntakeOf(settings, old(Snapshot()), input)
    {
      var start := |files|;
      ghost var s0 := Snapshot();
      ghost var vs := Verdicts(settings, input);
      ghost var k := FirstRejected(vs);
      decodes := [];
      var i := 0;
      while i < |input|
        invariant 0 <= i <= |input| && i <= k
        invariant Snapshot() == IntakeRun(settings.showErrors, s0, input, vs, i)
        invariant |files| == start + i && totalFiles == start + |input|
        invariant decodes == DecodeRequests(input, vs, i)
      {
        var decode, reset := TakeInFile(input, i, start + i);
        IntakeRunNext(settings.showErrors, s0, input, vs, i);
        FirstRejectedAt(vs, i);
        if reset {
          // the source's next iteration writes past the end of the emptied
          // selection and throws, so no later file is taken in
          assert i == k && Taken(vs) == i + 1;
          return;
        }
        DecodeRequestsNext(input, vs, i);
        if decode {
          // the reader decodes this one; `ImageLoaded` continues it
          decodes := decodes + [input[i]];
        }
        i := i + 1;
      }
      assert i == k && Taken(vs) == i;
    }

    /** One iteration of the intake loop, for the `i`-th file of `input`: clear the shown
        errors, record the file at `fileIndex`, start a fresh error list and run the size
        and extension checks. A file that is not decoded is finished at once, which resets
        the selection when it has errors. Returns whether the file goes to the image
        decoder and whether the selection was reset. */
    method TakeInFile(input: seq<InputFile>, i: nat, fileIndex: nat) returns (decode: bool, reset: bool)
      requires i < |input| && fileIndex == |files|
      modifies this`files, this`totalFiles, this`errors, this`inputFiles, this`shownErrors
      ensures decode == Verdicts(settings, input)[i].decode
      ensures reset == Verdicts(settings, input)[i].Rejected()
      ensures Snapshot() == TakeStep(settings.showErrors, old(Snapshot()), input[i], Verdicts(settings, input)[i])
    {
      ClearErrors();
      SetFileInformations(input[i], fileIndex);
      decode := CheckAtIntake(input, i);
      if !decode {
        OnFileReady();
      }
      reset := !decode && errors != [];
    }

    /** The synchronous checks of the `i`-th file of `input`: a fresh error list filled
        by the size and extension checks, and whether the file goes to the image decoder. */
    method CheckAtIntake(input: seq<InputFile>, i: nat) returns (decode: bool)
      requires i < |input|
      modifies this`errors
      ensures errors == Verdicts(settings, input)[i].errs
      ensures decode == Verdicts(settings, input)[i].decode
    {
      var file := input[i];
      RunFileChecks(file.name, file.size);
      decode := IsImage(settings, file.name) && file.size < SizeToByte(settings.maxFileSizePreview);
      VerdictsAt(settings, input, i);
    }

    /** A fresh error list filled by the size and extension checks of one file. */
    method RunFileChecks(name: string, size: nat)
      modifies this`errors
      ensures errors == IntakeErrors(settings, name, size)
    {
      errors := [];
      CheckFileSize(size);
      assert errors == SizeErrors(settings, size);
      var _ := IsFileExtensionAllowed(name);
    }

    /** Records a file's name, size and type at `fileIndex`, appending when the slot does not exist yet. */
    method SetFileInformations(file: InputFile, fileIndex: nat)
      requires fileIndex <= |files|
      modifies this`files
      ensures files == if fileIndex < |old(files)| then old(files)[fileIndex := NewRecord(file)]
                       else old(files) + [NewRecord(file)]
    {
      if fileIndex == |files| {
        files := files + [NewRecord(file)];
      } else {
        files := files[fileIndex := NewRecord(file)];
      }
    }

    /** Records the decoded dimensions at `fileIndex`; -1 (no such file) changes nothing. */
    method SetFileDimensions(width: nat, height: nat, fileIndex: int)
      requires fileIndex < |files|
      modifies this`files
      ensures fileIndex >= 0 ==> files == old(files)[fileIndex := old(files)[fileIndex].(width := Some(width), height := Some(height))]
      ensures fileIndex < 0 ==> files == old(files)
    {
      if fileIndex >= 0 {
        files := files[fileIndex := files[fileIndex].(width := Some(width), height := Some(height))];
      }
    }

    /** The linear search for the first file with the given name. */
    method FindFileIndexBasedOnName(name: string) returns (r: int)
      ensures r == IndexOfName(files, name)
    {
      var i := 0;
      while i < |files|
        invariant 0 <= i <= |files|
        invariant forall j :: 0 <= j < i ==> files[j].name != name
      {
        if files[i].name == name {
          return i;
        }
        i := i + 1;
      }
      return -1;
    }

    method PushError(key: ErrorKey)
      modifies this`errors
      ensures errors == old(errors) + [key]
    {
      errors := errors + [key];
    }

    method CheckFileSize(fileSize: nat)
      modifies this`errors
      ensures errors == old(errors) + SizeErrors(settings, fileSize)
    {
      if SizeToByte(settings.maxFileSize) != 0 && fileSize > SizeToByte(settings.maxFileSize) {
        PushError(FileSize);
      }
    }

    method IsFileExtensionAllowed(fileName: string) returns (allowed: bool)
      modifies this`errors
      ensures allowed == ExtensionAllowed(settings, fileName)
      ensures errors == old(errors) + ExtensionErrors(settings, fileName)
    {
      if IndexOf(settings.allowedFileExtensions, "*") != -1 || IndexOf(settings.allowedFileExtensions, GetFileType(fileName)) != -1 {
        return true;
      }
      PushError(FileExtension);
      return false;
    }

    /** Runs the five dimension and format checks on the decoded record at `fileIndex`. */
    method ValidateImage(fileIndex: nat)
      requires fileIndex < |files|
      requires files[fileIndex].width.Some? && files[fileIndex].height.Some?
      modifies this`errors
      ensures errors == old(errors) + ImageErrors(settings, files[fileIndex].width.value, files[fileIndex].height.value)
    {
      var width := files[fileIndex].width.value;
      var height := files[fileIndex].height.value;
      var st := settings;
      // `pushed` holds the keys pushed so far
      ghost var e0 := errors;
      ghost var pushed: seq<ErrorKey> := [];
      assert errors == e0 + pushed;
      if st.minWidth != 0 && st.minWidth >= width {
        PushError(MinWidth);
        AppendAssociative(e0, pushed, [MinWidth]);
      }
      pushed := PushIf(pushed, st.minWidth != 0 && st.minWidth >= width, MinWidth);
      assert errors == e0 + pushed;
      if st.maxWidth != 0 && st.maxWidth <= width {
        PushError(MaxWidth);
        AppendAssociative(e0, pushed, [MaxWidth]);
      }
      pushed := PushIf(pushed, st.maxWidth != 0 && st.maxWidth <= width, MaxWidth);
      assert errors == e0 + pushed;
      if st.minHeight != 0 && st.minHeight >= height {
        PushError(MinHeight);
        AppendAssociative(e0, pushed, [MinHeight]);
      }
      pushed := PushIf(pushed, st.minHeight != 0 && st.minHeight >= height, MinHeight);
      assert errors == e0 + pushed;
      if st.maxHeight != 0 && st.maxHeight <= height {
        PushError(MaxHeight);
        AppendAssociative(e0, pushed, [MaxHeight]);
      }
      pushed := PushIf(pushed, st.maxHeight != 0 && st.maxHeight <= height, MaxHeight);
      assert errors == e0 + pushed;
      var imgFormat := FormatName(GetImageFormat(width, height));
      if imgFormat !in st.allowedFormats {
        PushError(ImageFormat);
        AppendAssociative(e0, pushed, [ImageFormat]);
      }
      pushed := PushIf(pushed, imgFormat !in st.allowedFormats, ImageFormat);
      assert errors == e0 + pushed;
      assert pushed == ImageErrors(st, width, height);
    }

    /** Empties the shown error list, when there is one. */
    method ClearErrors()
      modifies this`shownErrors
      ensures shownErrors == if settings.showErrors then [] else old(shownErrors)
    {
      if settings.showErrors {
        shownErrors := [];
      }
    }

    /** Adds the message for `key` to the shown error list, when there is one. */
    method ShowError(key: ErrorKey)
      modifies this`shownErrors
      ensures shownErrors == old(shownErrors) + (if settings.showErrors then [key] else [])
    {
      if settings.showErrors {
        shownErrors := shownErrors + [key];
      }
    }

    /** A file's checks are done. Without errors only the preview is drawn; with errors
        they are shown, most recent first, and the whole selection is reset. */
    method OnFileReady()
      modifies this`files, this`totalFiles, this`inputFiles, this`shownErrors
      ensures errors == [] ==>
        files == old(files) && totalFiles == old(totalFiles) && inputFiles == old(inputFiles) && shownErrors == old(shownErrors)
      ensures errors != [] ==> files == [] && totalFiles == 0 && inputFiles == []
      ensures errors != [] ==> shownErrors == old(shownErrors) + (if settings.showErrors then Reverse(errors) else [])
    {
      if errors != [] {
        var i := |errors| - 1;
        while i >= 0
          invariant -1 <= i < |errors|
          invariant shownErrors == old(shownErrors) + (if settings.showErrors then Reverse(errors[i + 1..]) else [])
        {
          assert errors[i..][1..] == errors[i + 1..];
          assert Reverse(errors[i..]) == Reverse(errors[i + 1..]) + [errors[i]];
          ghost var shown := Reverse(errors[i + 1..]);
          assert (shown + [errors[i]])[..|shown|] == shown;
          ShowError(errors[i]);
          i := i - 1;
        }
        assert errors[0..] == errors;
        ClearElement(false);
      }
    }

    /** The clear button: with errors pending the selection is always reset; otherwise
        only when no `beforeClear` handler cancelled (returned false). */
    method ClearElement(cancelled: bool)
      modifies this`files, this`totalFiles, this`inputFiles
      ensures if errors != [] || !cancelled then files == [] && totalFiles == 0 && inputFiles == []
              else files == old(files) && totalFiles == old(totalFiles) && inputFiles == old(inputFiles)
    {
      if errors == [] {
        if !cancelled {
          ResetFile();
          inputFiles := [];
        }
      } else {
        ResetFile();
        inputFiles := [];
      }
    }

    /** Empties the selection by a countdown of `files[i] = null; files.pop()` and zeroes the count. */
    method ResetFile()
      modifies this`files, this`totalFiles
      ensures files == [] && totalFiles == 0
    {
      ghost var n := |files|;
      var i: int := |files|;
      while i >= 0
        invariant -1 <= i <= n
        invariant files == old(files)[..if i == n then n else i + 1]
      {
        // at i == |files| the null goes into a new last slot, which the pop removes again
        if i < |files| {
          files := files[..i];
        }
        i := i - 1;
      }
      totalFiles := 0;
    }

    /** The decoder has produced `width` by `height` for the image named `name`: record
        the dimensions, check the file's size and extension again, run the image checks
        and finish the file. The error list is thus that of the first file of that name, so
        when the selection's file names are distinct a file that failed a check at intake
        empties the selection here, whatever files came after it (the source appends to
        the shared list instead: `WrittenImageLoaded`). When the
        selection holds no file of that name the source fails in `validateImage` and
        nothing changes. */
    method ImageLoaded(name: string, width: nat, height: nat)
      requires Valid()
      modifies this`files, this`totalFiles, this`errors, this`inputFiles, this`shownErrors
      ensures Valid()
      ensures var idx := IndexOfName(old(files), name);
        idx < 0 ==> files == old(files) && errors == old(errors) && inputFiles == old(inputFiles) && shownErrors == old(shownErrors)
      ensures var idx := IndexOfName(old(files), name);
        idx >= 0 ==> errors == IntakeErrors(settings, old(files)[idx].name, old(files)[idx].size) + ImageErrors(settings, width, height)
      ensures var idx := IndexOfName(old(files), name);
        idx >= 0 && IntakeErrors(settings, old(files)[idx].name, old(files)[idx].size) != [] ==>
          files == [] && totalFiles == 0 && inputFiles == []
      ensures var idx := IndexOfName(old(files), name);
        idx >= 0 && errors == [] ==>
          && files == old(files)[idx := old(files)[idx].(width := Some(width), height := Some(height))]
          && inputFiles == old(inputFiles) && shownErrors == old(shownErrors)
      ensures var idx := IndexOfName(old(files), name);
        idx >= 0 && errors != [] ==>
          && files == [] && totalFiles == 0 && inputFiles == []
          && shownErrors == old(shownErrors) + (if settings.showErrors then Reverse(errors) else [])
    {
      var fileIndex := FindFileIndexBasedOnName(name);
      SetFileDimensions(width, height, fileIndex);
      if fileIndex >= 0 {
        var file := files[fileIndex];
        RunFileChecks(file.name, file.size);
        ValidateImage(fileIndex);
        OnFileReady();
      }
    }
  }
}
