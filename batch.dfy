/**
 * `EMLBatchProcessor`: extraction of one message into its own folder, and
 * the batch loop that picks a fresh folder per message and keeps the
 * success/failure counters.
 *
 * The output base directory is a map from entry name to `Folder`. What the
 * file system does (a directory that cannot be created, a write that fails)
 * is not computed here: each input file carries a `Faults` record saying
 * which of its operations fail.
 */
module Batch {
  import opened Wrappers
  import opened Strings
  import opened Naming
  import opened Mime

  const HeadersFile: string := "headers.txt"
  const PlainFile: string := "body_plain.txt"
  const HtmlFile: string := "body_html.html"

  /** One directory under the output base: its text files and, once created,
      its `attachments/` directory. */
  datatype Folder = Folder(files: map<string, string>, attachments: Option<map<string, Bytes>>)

  const EmptyFolder: Folder := Folder(map[], None)

  /** Which file-system operations fail while one message is extracted.
      `failingAttachments` holds positions in the list of collected attachments. */
  datatype Faults = Faults(
    folderFails: bool,
    headersFails: bool,
    plainFails: bool,
    htmlFails: bool,
    attachmentsDirFails: bool,
    failingAttachments: set<nat>)

  /** One `.eml` file of the input folder: its name, its parsed content
      (`None` when it cannot be read or parsed) and the faults met while
      extracting it. */
  datatype EmlFile = EmlFile(name: string, message: Option<Message>, faults: Faults)

  /** The exceptions that make `extract_single_email` fail for one message. */
  datatype Failure =
    | Unreadable
    | FolderNotCreated
    | HeadersNotWritten
    | PlainNotWritten
    | HtmlNotWritten
    | AttachmentsDirNotCreated

  /** The dictionary `extract_single_email` returns. */
  datatype Summary = Summary(headers: seq<(string, string)>, hasPlain: bool, hasHtml: bool, attachmentCount: nat)

  /** `if plain_body:` / `if html_body:` — a body is written only when present and non-empty. */
  predicate Written(body: Option<string>)
  {
    body.Some? && body.value != ""
  }

  /** The dictionary `extract_single_email` returns for a message extracted
      without an exception: a body counts as present even when it is empty,
      and every collected attachment counts, whether or not its file could be
      written. */
  function Summarize(m: Message): Summary
  {
    var b := Classify(m);
    Summary(HeaderFields(m.headers), b.plain.Some?, b.html.Some?, |b.attachments|)
  }

  // ------------------------------------------------------ attachments

  /** Number of the first n attachments whose write succeeds. */
  function SavedCount(n: nat, failing: set<nat>): (c: nat)
    ensures c <= n
  {
    if n == 0 then 0 else SavedCount(n - 1, failing) + (if n - 1 in failing then 0 else 1)
  }

  /** The sanitized name of each attachment. */
  function SafeNames(atts: seq<Attachment>): (names: seq<string>)
    ensures |names| == |atts|
  {
    seq(|atts|, i requires 0 <= i < |atts| => AttachmentName(atts[i].filename))
  }

  lemma SafeNamesAreSafe(atts: seq<Attachment>)
    ensures forall i :: 0 <= i < |atts| ==> SafeName(SafeNames(atts)[i])
  {
    forall i | 0 <= i < |atts| ensures SafeName(SafeNames(atts)[i]) {
      AttachmentNameSafe(atts[i].filename);
    }
  }

  /** One attachment written under the name the attachment-collision loop
      picks for `name`, unless its write fails. */
  ghost function StoreOne(dir: map<string, Bytes>, name: string, att: Attachment, fails: bool): map<string, Bytes>
  {
    if fails then dir else dir[AttachmentPath(name, dir.Keys) := att.content]
  }

  /** The directory after the attachments are written one after another: the
      i-th is skipped when its write fails, and otherwise goes under the name
      the attachment-collision loop picks for `names[i]`. */
  ghost function StoredUnder(dir: map<string, Bytes>, names: seq<string>, atts: seq<Attachment>, failing: set<nat>)
    : map<string, Bytes>
    requires |names| == |atts|
    decreases |atts|
  {
    if atts == [] then dir
    else
      var i := |atts| - 1;
      StoreOne(StoredUnder(dir, names[..i], atts[..i], failing), names[i], atts[i], i in failing)
  }

  /** The `attachments/` directory after the attachment loop ran over `atts`
      starting from `dir`: each attachment in turn is written under the name
      the collision loop picks for its sanitized name, unless its write fails. */
  ghost function SavedDir(dir: map<string, Bytes>, atts: seq<Attachment>, failing: set<nat>): map<string, Bytes>
  {
    StoredUnder(dir, SafeNames(atts), atts, failing)
  }

  /** The file the i-th attachment is written to (when its write succeeds). */
  ghost function PlacedName(dir: map<string, Bytes>, atts: seq<Attachment>, failing: set<nat>, i: nat): string
    requires i < |atts|
  {
    AttachmentPath(SafeNames(atts)[i], StoredUnder(dir, SafeNames(atts)[..i], atts[..i], failing).Keys)
  }

  /** The attachment loop of `extract_single_email`: each collected
      attachment gets a sanitized name, made unique within `attachments/` by
      the counter loop, and is written there; a failed write is reported and
      skipped, and the loop goes on. */
  method SaveAttachments(dir0: map<string, Bytes>, atts: seq<Attachment>, failing: set<nat>)
    returns (dir: map<string, Bytes>)
    ensures dir == SavedDir(dir0, atts, failing)
  {
    dir := dir0;
    var i := 0;
    while i < |atts|
      invariant i <= |atts|
      invariant dir == StoredUnder(dir0, SafeNames(atts)[..i], atts[..i], failing)
    {
      SavedDirStep(dir0, atts, failing, i);
      dir := SaveAttachment(dir, atts[i], i in failing);
      i := i + 1;
    }
    assert atts[..i] == atts && SafeNames(atts)[..i] == SafeNames(atts);
  }

  /** One pass of the attachment loop: sanitize the name, let the counter
      loop pick a free file name, and write the content there unless the
      write fails (the failure is caught and the directory is unchanged). */
  method SaveAttachment(dir: map<string, Bytes>, att: Attachment, fails: bool)
    returns (dir': map<string, Bytes>)
    ensures dir' == StoreOne(dir, AttachmentName(att.filename), att, fails)
  {
    var safeFilename := SanitizeAttachmentFilename(att.filename);
    var path, counter := ResolveAttachmentName(safeFilename, dir.Keys);
    dir' := dir;
    if !fails {
      dir' := dir[path := att.content];
    }
  }

  /** One more pass of the attachment loop: the i-th attachment is skipped or
      written under the name the collision loop picks for its sanitized name. */
  lemma SavedDirStep(dir: map<string, Bytes>, atts: seq<Attachment>, failing: set<nat>, i: nat)
    requires i < |atts|
    ensures StoredUnder(dir, SafeNames(atts)[..i + 1], atts[..i + 1], failing)
      == StoreOne(StoredUnder(dir, SafeNames(atts)[..i], atts[..i], failing), AttachmentName(atts[i].filename), atts[i], i in failing)
  {
    var names := SafeNames(atts);
    assert atts[..i + 1][..i] == atts[..i] && names[..i + 1][..i] == names[..i];
    assert names[..i + 1][i] == AttachmentName(atts[i].filename);
  }

  /** The loop only adds files: those already in `attachments/` are kept, one
      new file appears per successful write, and every new name is safe. */
  lemma {:induction false} StoredUnderGrows(dir: map<string, Bytes>, names: seq<string>, atts: seq<Attachment>,
                                            failing: set<nat>)
    requires |names| == |atts|
    requires forall i :: 0 <= i < |names| ==> SafeName(names[i])
    ensures dir.Keys <= StoredUnder(dir, names, atts, failing).Keys
    ensures forall n :: n in dir ==> StoredUnder(dir, names, atts, failing)[n] == dir[n]
    ensures |StoredUnder(dir, names, atts, failing).Keys| == |dir.Keys| + SavedCount(|atts|, failing)
    ensures forall n :: n in StoredUnder(dir, names, atts, failing) && n !in dir ==> SafeName(n)
    decreases |atts|
  {
    if atts != [] {
      var i := |atts| - 1;
      StoredUnderGrows(dir, names[..i], atts[..i], failing);
      StoreOneGrows(StoredUnder(dir, names[..i], atts[..i], failing), names[i], atts[i], i in failing);
    }
  }

  /** Writing one attachment keeps every file and adds one when the write
      succeeds, under a safe name. */
  lemma StoreOneGrows(dir: map<string, Bytes>, name: string, att: Attachment, fails: bool)
    requires SafeName(name)
    ensures dir.Keys <= StoreOne(dir, name, att, fails).Keys
    ensures forall n :: n in dir ==> StoreOne(dir, name, att, fails)[n] == dir[n]
    ensures |StoreOne(dir, name, att, fails).Keys| == |dir.Keys| + (if fails then 0 else 1)
    ensures forall n :: n in StoreOne(dir, name, att, fails) && n !in dir ==> SafeName(n)
  {
    if !fails {
      AttachmentPathSafe(name, dir.Keys);
      assert StoreOne(dir, name, att, fails).Keys == dir.Keys + {AttachmentPath(name, dir.Keys)};
    }
  }

  /** What the loop has written after the first m attachments stays as it is. */
  lemma {:induction false} StoredUnderKeeps(dir: map<string, Bytes>, names: seq<string>, atts: seq<Attachment>,
                                            failing: set<nat>, m: nat)
    requires |names| == |atts| && m <= |atts|
    ensures forall n :: n in StoredUnder(dir, names[..m], atts[..m], failing) ==>
      && n in StoredUnder(dir, names, atts, failing)
      && StoredUnder(dir, names, atts, failing)[n] == StoredUnder(dir, names[..m], atts[..m], failing)[n]
    decreases |atts|
  {
    if m == |atts| {
      assert atts[..m] == atts && names[..m] == names;
    } else {
      var i := |atts| - 1;
      assert atts[..i][..m] == atts[..m] && names[..i][..m] == names[..m];
      StoredUnderKeeps(dir, names[..i], atts[..i], failing, m);
      var prev := StoredUnder(dir, names[..i], atts[..i], failing);
      forall n | n in prev ensures n in StoredUnder(dir, names, atts, failing) && StoredUnder(dir, names, atts, failing)[n] == prev[n] {
      }
    }
  }

  lemma StoredUnderHolds(dir: map<string, Bytes>, names: seq<string>, atts: seq<Attachment>, failing: set<nat>, i: nat)
    requires |names| == |atts| && i < |atts| && i !in failing
    requires forall j :: 0 <= j < |names| ==> SafeName(names[j])
    ensures var name := AttachmentPath(names[i], StoredUnder(dir, names[..i], atts[..i], failing).Keys);
      && name !in dir && SafeName(name)
      && name in StoredUnder(dir, names, atts, failing)
      && StoredUnder(dir, names, atts, failing)[name] == atts[i].content
  {
    assert atts[..i + 1][..i] == atts[..i] && names[..i + 1][..i] == names[..i];
    StoredUnderGrows(dir, names[..i], atts[..i], failing);
    AttachmentPathSafe(names[i], StoredUnder(dir, names[..i], atts[..i], failing).Keys);
    StoredUnderKeeps(dir, names, atts, failing, i + 1);
  }

  /** The attachment loop keeps every file already in `attachments/`, adds
      one file per successful write, and gives every new file a safe name. */
  lemma SavedDirGrows(dir: map<string, Bytes>, atts: seq<Attachment>, failing: set<nat>)
    ensures dir.Keys <= SavedDir(dir, atts, failing).Keys
    ensures forall n :: n in dir ==> SavedDir(dir, atts, failing)[n] == dir[n]
    ensures |SavedDir(dir, atts, failing).Keys| == |dir.Keys| + SavedCount(|atts|, failing)
    ensures forall n :: n in SavedDir(dir, atts, failing) && n !in dir ==> SafeName(n)
  {
    SafeNamesAreSafe(atts);
    StoredUnderGrows(dir, SafeNames(atts), atts, failing);
  }

  /** Every attachment whose write succeeds ends up, with its own bytes, in a
      new file with a safe name. */
  lemma AttachmentStored(dir: map<string, Bytes>, atts: seq<Attachment>, failing: set<nat>, i: nat)
    requires i < |atts| && i !in failing
    ensures PlacedName(dir, atts, failing, i) !in dir
    ensures SafeName(PlacedName(dir, atts, failing, i))
    ensures PlacedName(dir, atts, failing, i) in SavedDir(dir, atts, failing)
    ensures SavedDir(dir, atts, failing)[PlacedName(dir, atts, failing, i)] == atts[i].content
  {
    SafeNamesAreSafe(atts);
    StoredUnderHolds(dir, SafeNames(atts), atts, failing, i);
  }

  /** Two attachments never share a file, whatever their declared names. */
  lemma PlacedNamesDistinct(dir: map<string, Bytes>, atts: seq<Attachment>, failing: set<nat>, i: nat, j: nat)
    requires i < j < |atts| && i !in failing
    ensures PlacedName(dir, atts, failing, i) != PlacedName(dir, atts, failing, j)
  {
    var names := SafeNames(atts);
    var pn, pa := names[..j], atts[..j];
    assert pn[..i] == names[..i] && pa[..i] == atts[..i] && pn[i] == names[i] && pa[i] == atts[i];
    SafeNamesAreSafe(atts);
    StoredUnderHolds(dir, pn, pa, failing, i);
  }

  /** The name an attachment is written under is its sanitized declared name
      when that is still free, and otherwise that name with the least free
      counter inserted before its extension. */
  lemma PlacedNameShape(dir: map<string, Bytes>, atts: seq<Attachment>, failing: set<nat>, i: nat)
    requires i < |atts|
    ensures var safe := AttachmentName(atts[i].filename);
      var present := StoredUnder(dir, SafeNames(atts)[..i], atts[..i], failing).Keys;
      && (safe !in present ==> PlacedName(dir, atts, failing, i) == safe)
      && (safe in present ==> exists k :: LeastFree(SplitExt(safe).0, SplitExt(safe).1, present, k)
                                && PlacedName(dir, atts, failing, i) == Suffixed(SplitExt(safe).0, k, SplitExt(safe).1))
  {
    var safe := AttachmentName(atts[i].filename);
    var present := StoredUnder(dir, SafeNames(atts)[..i], atts[..i], failing).Keys;
    if safe in present {
      var k := LeastFreeCounter(SplitExt(safe).0, SplitExt(safe).1, present);
      assert PlacedName(dir, atts, failing, i) == Suffixed(SplitExt(safe).0, k, SplitExt(safe).1);
    }
  }

  // ------------------------------------------------------ one message

  /** The step that fails among those after `headers.txt`: writing the
      plain body, writing the HTML body, creating `attachments/`. A body is
      written only when it is non-empty, and the directory is created only
      when there is an attachment; a failed attachment write is not among
      them. */
  function ContentFailure(b: Bodies, f: Faults): Option<Failure>
  {
    if Written(b.plain) && f.plainFails then Some(PlainNotWritten)
    else if Written(b.html) && f.htmlFails then Some(HtmlNotWritten)
    else if b.attachments != [] && f.attachmentsDirFails then Some(AttachmentsDirNotCreated)
    else None
  }

  /** The folder after the steps that follow `headers.txt`, up to the first
      failing one. */
  ghost function ContentSaved(folder: Folder, b: Bodies, f: Faults): Folder
  {
    if Written(b.plain) && f.plainFails then folder
    else
      var withPlain := if Written(b.plain) then folder.files[PlainFile := b.plain.value] else folder.files;
      if Written(b.html) && f.htmlFails then folder.(files := withPlain)
      else
        var withHtml := if Written(b.html) then withPlain[HtmlFile := b.html.value] else withPlain;
        if b.attachments == [] || f.attachmentsDirFails then folder.(files := withHtml)
        else
          var dir0 := if folder.attachments.Some? then folder.attachments.value else map[];
          Folder(withHtml, Some(SavedDir(dir0, b.attachments, f.failingAttachments)))
  }

  /** What `extract_single_email` returns or raises for one input file: the
      first failing step, in the order the steps run, or the summary. */
  function Outcome(file: EmlFile): Result<Summary, Failure>
  {
    match file.message
    case None => Err(Unreadable)
    case Some(m) =>
      var f := file.faults;
      if f.folderFails then Err(FolderNotCreated)
      else if f.headersFails then Err(HeadersNotWritten)
      else
        var failure := ContentFailure(Classify(m), f);
        if failure.Some? then Err(failure.value) else Ok(Summarize(m))
  }

  /** A message folder after `extract_single_email` created it: `before` is
      what the folder held already (empty when it did not exist). */
  ghost function Extracted(before: Folder, file: EmlFile): Folder
    requires file.message.Some?
  {
    var m := file.message.value;
    if file.faults.headersFails then before
    else ContentSaved(before.(files := before.files[HeadersFile := HeadersText(HeaderFields(m.headers))]),
                      Classify(m), file.faults)
  }

  /** The body extraction of `extract_single_email`: a multipart message is
      classified by its walk, a single-part one by its content type alone. */
  method ExtractBodies(message: Message) returns (b: Bodies)
    ensures b == Classify(message)
  {
    if message.root.Multipart? {
      var plain, html, attachments := ClassifyParts(Walk(message.root));
      b := Bodies(plain, html, attachments);
    } else {
      b := Bodies(None, None, []);
      if message.root.contentType == PlainType {
        b := b.(plain := Some(message.root.text));
      } else if message.root.contentType == HtmlType {
        b := b.(html := Some(message.root.text));
      }
    }
  }

  /** The writes of `extract_single_email` after `headers.txt`: the
      non-empty bodies, then, when there are attachments, `attachments/` and
      the attachment loop. The first write that raises ends the extraction. */
  method SaveContent(folder: Folder, b: Bodies, f: Faults) returns (after: Folder, failure: Option<Failure>)
    ensures failure == ContentFailure(b, f)
    ensures after == ContentSaved(folder, b, f)
  {
    after := folder;
    if b.plain.Some? && b.plain.value != "" {
      if f.plainFails {
        return after, Some(PlainNotWritten);
      }
      after := after.(files := after.files[PlainFile := b.plain.value]);
    }
    if b.html.Some? && b.html.value != "" {
      if f.htmlFails {
        return after, Some(HtmlNotWritten);
      }
      after := after.(files := after.files[HtmlFile := b.html.value]);
    }
    if b.attachments != [] {
      if f.attachmentsDirFails {
        return after, Some(AttachmentsDirNotCreated);
      }
      var dir0 := if after.attachments.Some? then after.attachments.value else map[];
      var dir := SaveAttachments(dir0, b.attachments, f.failingAttachments);
      after := after.(attachments := Some(dir));
    }
    return after, None;
  }

  // ------------------------------------------------------ the batch

  /** One folder placed in the output base: nothing happens for `None`, and
      otherwise the folder goes under the name the folder-collision loop picks
      for `name`. */
  ghost function PlaceOne(base: map<string, Folder>, name: string, folder: Option<Folder>): map<string, Folder>
  {
    if folder.None? then base else base[FolderPath(name, base.Keys) := folder.value]
  }

  /** The output base after the folders are placed one after another. */
  ghost function Placed(base: map<string, Folder>, names: seq<string>, folders: seq<Option<Folder>>): map<string, Folder>
    requires |names| == |folders|
    decreases |names|
  {
    if names == [] then base
    else
      var i := |names| - 1;
      PlaceOne(Placed(base, names[..i], folders[..i]), names[i], folders[i])
  }

  /** Whether a file gets as far as creating its message folder. */
  predicate CreatesFolder(file: EmlFile)
  {
    file.message.Some? && !file.faults.folderFails
  }

  /** The sanitized folder name of each file. */
  function FolderNames(files: seq<EmlFile>): (names: seq<string>)
    ensures |names| == |files|
  {
    seq(|files|, i requires 0 <= i < |files| => FolderName(files[i].name))
  }

  lemma FolderNamesAreClean(files: seq<EmlFile>)
    ensures forall i :: 0 <= i < |files| ==> NoForbidden(FolderNames(files)[i])
  {
    forall i | 0 <= i < |files| ensures NoForbidden(FolderNames(files)[i]) {
      FolderNameClean(files[i].name);
    }
  }

  /** What a file's new folder holds once extracted, or `None` when the file
      never gets a folder. */
  ghost function FolderContent(file: EmlFile): Option<Folder>
  {
    if CreatesFolder(file) then Some(Extracted(EmptyFolder, file)) else None
  }

  ghost function FolderContents(files: seq<EmlFile>): (folders: seq<Option<Folder>>)
    ensures |folders| == |files|
  {
    seq(|files|, i requires 0 <= i < |files| => FolderContent(files[i]))
  }

  /** The names and contents of a prefix of the files are the prefixes of the lists. */
  lemma FolderListsPrefix(files: seq<EmlFile>, i: nat)
    requires i <= |files|
    ensures FolderNames(files)[..i] == FolderNames(files[..i])
    ensures FolderContents(files)[..i] == FolderContents(files[..i])
  {
    assert forall k :: 0 <= k < i ==> files[..i][k] == files[k];
  }

  /** One pass of the batch loop over the output base: a file that gets as
      far as creating its folder gets a fresh one, named by the
      folder-collision loop from its sanitized name. */
  ghost function PlaceFile(base: map<string, Folder>, file: EmlFile): map<string, Folder>
  {
    PlaceOne(base, FolderName(file.name), FolderContent(file))
  }

  /** The output base after the batch loop ran over `files`. */
  ghost function Run(base: map<string, Folder>, files: seq<EmlFile>): map<string, Folder>
    decreases |files|
  {
    if files == [] then base else PlaceFile(Run(base, files[..|files| - 1]), files[|files| - 1])
  }

  /** One more pass of the loop: the run over the first i + 1 files is the
      run over the first i, followed by the i-th file; so is the count of
      successes. */
  lemma RunStep(base: map<string, Folder>, files: seq<EmlFile>, i: nat)
    requires i < |files|
    ensures Run(base, files[..i + 1]) == PlaceFile(Run(base, files[..i]), files[i])
    ensures Succeeded(files[..i + 1]) == Succeeded(files[..i]) + (if Outcome(files[i]).Ok? then 1 else 0)
  {
    assert files[..i + 1][..i] == files[..i];
  }

  /** The folder the i-th file is extracted to. */
  ghost function FolderOf(base: map<string, Folder>, files: seq<EmlFile>, i: nat): string
    requires i < |files|
  {
    FolderPath(FolderName(files[i].name), Run(base, files[..i]).Keys)
  }

  /** Number of files whose extraction succeeds. */
  function Succeeded(files: seq<EmlFile>): (c: nat)
    ensures c <= |files|
  {
    if files == [] then 0 else Succeeded(files[..|files| - 1]) + (if Outcome(files[|files| - 1]).Ok? then 1 else 0)
  }

  /** Number of files whose extraction gets as far as creating the message folder. */
  function FoldersCreated(files: seq<EmlFile>): (c: nat)
    ensures c <= |files|
  {
    if files == [] then 0
    else FoldersCreated(files[..|files| - 1]) + (if CreatesFolder(files[|files| - 1]) then 1 else 0)
  }

  class BatchProcessor {
    /** The `.eml` files found in the input folder, in the order the scan
        returns them; `None` when the folder does not exist. */
    const inputFolder: Option<seq<EmlFile>>

    /** `self.stats`. */
    var total: nat
    var successful: nat
    var failed: nat

    /** The entries of the output base directory. */
    var outputBase: map<string, Folder>

    constructor (inputFolder: Option<seq<EmlFile>>, outputBase: map<string, Folder>)
      ensures this.inputFolder == inputFolder && this.outputBase == outputBase
      ensures total == 0 && successful == 0 && failed == 0
    {
      this.inputFolder := inputFolder;
      this.outputBase := outputBase;
      total, successful, failed := 0, 0, 0;
    }

    /** `extract_single_email(eml_path, output_base / folderName)`: the
        outcome is the first failing step, and the folder is left as the
        steps up to it made it. */
    method ExtractSingleEmail(file: EmlFile, folderName: string) returns (r: Result<Summary, Failure>)
      modifies this`outputBase
      ensures r == Outcome(file)
      ensures outputBase ==
        if !CreatesFolder(file) then old(outputBase)
        else old(outputBase)[folderName :=
          Extracted(if folderName in old(outputBase) then old(outputBase)[folderName] else EmptyFolder, file)]
    {
      var base := outputBase;
      var before := if folderName in base then base[folderName] else EmptyFolder;
      if file.message.None? {
        return Err(Unreadable);
      }
      var message := file.message.value;
      var faults := file.faults;
      if faults.folderFails {
        return Err(FolderNotCreated);
      }
      outputBase := base[folderName := before];

      var headers := HeaderFields(message.headers);
      if faults.headersFails {
        return Err(HeadersNotWritten);
      }
      var folder := before.(files := before.files[HeadersFile := HeadersText(headers)]);
      outputBase := base[folderName := folder];

      var bodies := ExtractBodies(message);
      var failure;
      folder, failure := SaveContent(folder, bodies, faults);
      outputBase := base[folderName := folder];
      if failure.Some? {
        return Err(failure.value);
      }
      return Ok(Summary(headers, bodies.plain.Some?, bodies.html.Some?, |bodies.attachments|));
    }

    /** One pass of the loop of `process_all`: sanitize the file name,
        pick a folder name not yet present under the output base, and extract
        into it; a success adds one to `successful`, and an exception is
        caught and adds one to `failed`. */
    method ProcessFile(emlFile: EmlFile)
      modifies this`outputBase, this`successful, this`failed
      ensures successful == old(successful) + (if Outcome(emlFile).Ok? then 1 else 0)
      ensures failed == old(failed) + (if Outcome(emlFile).Ok? then 0 else 1)
      ensures outputBase == PlaceFile(old(outputBase), emlFile)
    {
      var folderName := SanitizeFolderName(emlFile.name);
      var outputFolder, counter := ResolveFolderName(folderName, outputBase.Keys);
      var info := ExtractSingleEmail(emlFile, outputFolder);
      if info.Ok? {
        successful := successful + 1;
      } else {
        failed := failed + 1;
      }
    }

    /** `process_all`: nothing happens when the input folder is missing or
        holds no `.eml` file; otherwise `total` is set, each file adds one to
        exactly one of `successful` and `failed`, and the output base ends as
        `Run` describes. */
    method ProcessAll()
      modifies this
      ensures inputFolder.None? || inputFolder.value == [] ==>
        total == old(total) && successful == old(successful) && failed == old(failed) && outputBase == old(outputBase)
      ensures inputFolder.Some? && inputFolder.value != [] ==>
        && total == |inputFolder.value|
        && successful == old(successful) + Succeeded(inputFolder.value)
        && failed == old(failed) + (|inputFolder.value| - Succeeded(inputFolder.value))
        && outputBase == Run(old(outputBase), inputFolder.value)
    {
      if inputFolder.None? {
        return;
      }
      var emlFiles := inputFolder.value;
      if emlFiles == [] {
        return;
      }
      total := |emlFiles|;
      ghost var base0 := outputBase;
      ghost var successful0, failed0 := successful, failed;
      var idx := 0;
      while idx < |emlFiles|
        invariant idx <= |emlFiles|
        invariant total == |emlFiles|
        invariant successful == successful0 + Succeeded(emlFiles[..idx])
        invariant failed == failed0 + (idx - Succeeded(emlFiles[..idx]))
        invariant outputBase == Run(base0, emlFiles[..idx])
      {
        RunStep(base0, emlFiles, idx);
        ProcessFile(emlFiles[idx]);
        idx := idx + 1;
      }
      assert emlFiles[..idx] == emlFiles;
    }
  }

  /** `main`: a fresh processor over the input folder, then `process_all`.
      The counters then add up: every file found is counted once, as a
      success or as a failure. */
  method RunBatch(inputFolder: Option<seq<EmlFile>>, outputBase: map<string, Folder>)
    returns (total: nat, successful: nat, failed: nat)
    ensures total == if inputFolder.Some? then |inputFolder.value| else 0
    ensures successful + failed == total
    ensures successful == if inputFolder.Some? then Succeeded(inputFolder.value) else 0
  {
    var processor := new BatchProcessor(inputFolder, outputBase);
    processor.ProcessAll();
    total, successful, failed := processor.total, processor.successful, processor.failed;
  }

  // ------------------------------------------------------ properties of the batch

  /** Every successful extraction created its folder, so there are at least
      as many new folders as successes. */
  lemma {:induction false} SucceededCreatedFolders(files: seq<EmlFile>)
    ensures Succeeded(files) <= FoldersCreated(files)
  {
    if files != [] {
      SucceededCreatedFolders(files[..|files| - 1]);
    }
  }

  /** Number of folders actually placed. */
  function PlacedCount(folders: seq<Option<Folder>>): (c: nat)
    ensures c <= |folders|
  {
    if folders == [] then 0 else PlacedCount(folders[..|folders| - 1]) + (if folders[|folders| - 1].Some? then 1 else 0)
  }

  /** Placing folders never touches an existing entry, adds one entry per
      folder placed, and names each new entry after a name free of forbidden
      characters (with a counter when needed), never with the empty name. */
  lemma {:induction false} PlacedGrows(base: map<string, Folder>, names: seq<string>, folders: seq<Option<Folder>>)
    requires |names| == |folders|
    requires forall i :: 0 <= i < |names| ==> NoForbidden(names[i])
    ensures base.Keys <= Placed(base, names, folders).Keys
    ensures forall n :: n in base ==> Placed(base, names, folders)[n] == base[n]
    ensures |Placed(base, names, folders).Keys| == |base.Keys| + PlacedCount(folders)
    ensures forall n :: n in Placed(base, names, folders) && n !in base ==> n != "" && NoForbidden(n)
    decreases |names|
  {
    if names != [] {
      var i := |names| - 1;
      assert folders[..i] == folders[..|folders| - 1];
      PlacedGrows(base, names[..i], folders[..i]);
      PlaceOneGrows(Placed(base, names[..i], folders[..i]), names[i], folders[i]);
    }
  }

  /** Placing one folder keeps every entry and adds at most one, with a
      non-empty name free of forbidden characters. */
  lemma PlaceOneGrows(base: map<string, Folder>, name: string, folder: Option<Folder>)
    requires NoForbidden(name)
    ensures base.Keys <= PlaceOne(base, name, folder).Keys
    ensures forall n :: n in base ==> PlaceOne(base, name, folder)[n] == base[n]
    ensures |PlaceOne(base, name, folder).Keys| == |base.Keys| + (if folder.Some? then 1 else 0)
    ensures forall n :: n in PlaceOne(base, name, folder) && n !in base ==> n != "" && NoForbidden(n)
  {
    if folder.Some? {
      FolderPathClean(name, base.Keys);
      assert PlaceOne(base, name, folder).Keys == base.Keys + {FolderPath(name, base.Keys)};
    }
  }

  /** What was placed for the first m folders stays as it is. */
  lemma {:induction false} PlacedKeeps(base: map<string, Folder>, names: seq<string>, folders: seq<Option<Folder>>, m: nat)
    requires |names| == |folders| && m <= |names|
    ensures forall n :: n in Placed(base, names[..m], folders[..m]) ==>
      n in Placed(base, names, folders) && Placed(base, names, folders)[n] == Placed(base, names[..m], folders[..m])[n]
    decreases |names|
  {
    if m == |names| {
      assert names[..m] == names && folders[..m] == folders;
    } else {
      var i := |names| - 1;
      assert names[..i][..m] == names[..m] && folders[..i][..m] == folders[..m];
      PlacedKeeps(base, names[..i], folders[..i], m);
    }
  }

  lemma {:induction false} PlacedCountIsFoldersCreated(files: seq<EmlFile>)
    ensures PlacedCount(FolderContents(files)) == FoldersCreated(files)
    decreases |files|
  {
    if files != [] {
      var i := |files| - 1;
      FolderListsPrefix(files, i);
      PlacedCountIsFoldersCreated(files[..i]);
    }
  }

  /** The batch loop places the folders of the files in order, as `Placed` does. */
  lemma {:induction false} RunPlaced(base: map<string, Folder>, files: seq<EmlFile>)
    ensures Run(base, files) == Placed(base, FolderNames(files), FolderContents(files))
    decreases |files|
  {
    if files != [] {
      var i := |files| - 1;
      RunPlaced(base, files[..i]);
      FolderListsPrefix(files, i);
    }
  }

  /** The batch never touches an entry that was already in the output base,
      adds exactly one folder per file that got as far as creating it, and
      every folder it adds has a non-empty name free of forbidden characters. */
  lemma RunGrows(base: map<string, Folder>, files: seq<EmlFile>)
    ensures base.Keys <= Run(base, files).Keys
    ensures forall n :: n in base ==> Run(base, files)[n] == base[n]
    ensures |Run(base, files).Keys| == |base.Keys| + FoldersCreated(files)
    ensures forall n :: n in Run(base, files) && n !in base ==> n != "" && NoForbidden(n)
  {
    RunPlaced(base, files);
    FolderNamesAreClean(files);
    PlacedGrows(base, FolderNames(files), FolderContents(files));
    PlacedCountIsFoldersCreated(files);
  }

  lemma PlacedHolds(base: map<string, Folder>, names: seq<string>, folders: seq<Option<Folder>>, i: nat)
    requires |names| == |folders| && i < |names| && folders[i].Some?
    requires forall j :: 0 <= j < |names| ==> NoForbidden(names[j])
    ensures var name := FolderPath(names[i], Placed(base, names[..i], folders[..i]).Keys);
      && name !in base
      && name in Placed(base, names, folders)
      && Placed(base, names, folders)[name] == folders[i].value
  {
    assert names[..i + 1][..i] == names[..i] && folders[..i + 1][..i] == folders[..i];
    PlacedGrows(base, names[..i], folders[..i]);
    PlacedKeeps(base, names, folders, i + 1);
  }

  lemma PlacedDistinct(base: map<string, Folder>, names: seq<string>, folders: seq<Option<Folder>>, i: nat, j: nat)
    requires |names| == |folders| && i < j < |names| && folders[i].Some?
    requires forall k :: 0 <= k < |names| ==> NoForbidden(names[k])
    ensures FolderPath(names[i], Placed(base, names[..i], folders[..i]).Keys)
         != FolderPath(names[j], Placed(base, names[..j], folders[..j]).Keys)
  {
    var pn, pf := names[..j], folders[..j];
    assert pn[..i] == names[..i] && pf[..i] == folders[..i] && pn[i] == names[i] && pf[i] == folders[i];
    PlacedHolds(base, pn, pf, i);
  }

  /** Each file that gets as far as creating its folder has a new folder of
      its own, holding exactly what its extraction wrote. */
  lemma FolderOfEachMessage(base: map<string, Folder>, files: seq<EmlFile>, i: nat)
    requires i < |files| && CreatesFolder(files[i])
    ensures FolderOf(base, files, i) !in base
    ensures FolderOf(base, files, i) in Run(base, files)
    ensures Run(base, files)[FolderOf(base, files, i)] == Extracted(EmptyFolder, files[i])
  {
    RunPlaced(base, files);
    FolderOfPlaced(base, files, i);
    FolderNamesAreClean(files);
    PlacedHolds(base, FolderNames(files), FolderContents(files), i);
  }

  /** Two messages never share a folder, even when their file names sanitize
      to the same folder name. */
  lemma FoldersDistinct(base: map<string, Folder>, files: seq<EmlFile>, i: nat, j: nat)
    requires i < j < |files| && CreatesFolder(files[i])
    ensures FolderOf(base, files, i) != FolderOf(base, files, j)
  {
    FolderOfPlaced(base, files, i);
    FolderOfPlaced(base, files, j);
    FolderNamesAreClean(files);
    PlacedDistinct(base, FolderNames(files), FolderContents(files), i, j);
  }

  /** The folder of the i-th file is the one `Placed` picks for the i-th name. */
  lemma FolderOfPlaced(base: map<string, Folder>, files: seq<EmlFile>, i: nat)
    requires i < |files|
    ensures FolderOf(base, files, i)
         == FolderPath(FolderNames(files)[i], Placed(base, FolderNames(files)[..i], FolderContents(files)[..i]).Keys)
  {
    RunPlaced(base, files[..i]);
    FolderListsPrefix(files, i);
  }

  // ------------------------------------------------------ properties of one message

  /** A failed attachment write never makes the message fail, and does not
      change the summary: only which attachment writes fail differs. */
  lemma AttachmentWriteFailuresAreCaught(file: EmlFile, failing: set<nat>)
    ensures Outcome(file.(faults := file.faults.(failingAttachments := failing))) == Outcome(file)
  {
  }

  /** `has_plain` of a multipart message holds exactly when some walked part
      is a non-attachment `text/plain` part, even an empty one. */
  lemma HasPlainIffCandidate(file: EmlFile)
    requires Outcome(file).Ok? && file.message.value.root.Multipart?
    ensures Outcome(file).value.hasPlain <==>
      exists i :: 0 <= i < |Walk(file.message.value.root)| && IsBodyCandidate(Walk(file.message.value.root)[i], PlainType)
  {
    FirstBodyNoneIff(Walk(file.message.value.root), PlainType);
  }

  /** The text files of a folder whose headers file was written and whose
      bodies were then written without failure. */
  ghost function SavedTexts(h: string, b: Bodies): map<string, string>
  {
    var withPlain := if Written(b.plain) then map[HeadersFile := h][PlainFile := b.plain.value] else map[HeadersFile := h];
    if Written(b.html) then withPlain[HtmlFile := b.html.value] else withPlain
  }

  lemma SavedTextsShape(h: string, b: Bodies)
    ensures var files := SavedTexts(h, b);
      && files.Keys ==
           {HeadersFile} + (if Written(b.plain) then {PlainFile} else {}) + (if Written(b.html) then {HtmlFile} else {})
      && files[HeadersFile] == h
      && (Written(b.plain) ==> files[PlainFile] == b.plain.value)
      && (Written(b.html) ==> files[HtmlFile] == b.html.value)
  {
    assert HeadersFile != PlainFile && HeadersFile != HtmlFile && PlainFile[5] != HtmlFile[5];
  }

  /** When none of the steps after `headers.txt` fails, a fresh folder ends up
      with the files and the directory those steps create. */
  lemma ContentSavedOnSuccess(h: string, b: Bodies, f: Faults)
    requires ContentFailure(b, f).None?
    ensures var after := ContentSaved(Folder(map[HeadersFile := h], None), b, f);
      && after.files.Keys ==
           {HeadersFile} + (if Written(b.plain) then {PlainFile} else {}) + (if Written(b.html) then {HtmlFile} else {})
      && after.files[HeadersFile] == h
      && (Written(b.plain) ==> after.files[PlainFile] == b.plain.value)
      && (Written(b.html) ==> after.files[HtmlFile] == b.html.value)
      && (after.attachments.Some? <==> b.attachments != [])
      && (after.attachments.Some? ==> |after.attachments.value.Keys| == SavedCount(|b.attachments|, f.failingAttachments))
  {
    var dir := if b.attachments == [] then None else Some(SavedDir(map[], b.attachments, f.failingAttachments));
    assert ContentSaved(Folder(map[HeadersFile := h], None), b, f) == Folder(SavedTexts(h, b), dir);
    SavedTextsShape(h, b);
    if b.attachments != [] {
      SavedDirGrows(map[], b.attachments, f.failingAttachments);
    }
  }

  /** After a successful extraction into a new folder, `headers.txt` is always
      there; `body_plain.txt` and `body_html.html` are there exactly when the
      body was found and is non-empty, although `has_plain`/`has_html` only
      require it to be found; `attachments/` is there exactly when at least
      one named attachment was collected, and then holds one file per
      successful write. */
  lemma OutputOfSuccessfulExtraction(file: EmlFile)
    requires file.message.Some? && Outcome(file).Ok?
    ensures var after := Extracted(EmptyFolder, file);
      var b := Classify(file.message.value);
      && after.files.Keys ==
           {HeadersFile} + (if Written(b.plain) then {PlainFile} else {}) + (if Written(b.html) then {HtmlFile} else {})
      && after.files[HeadersFile] == HeadersText(HeaderFields(file.message.value.headers))
      && (Written(b.plain) ==> after.files[PlainFile] == b.plain.value)
      && (Written(b.html) ==> after.files[HtmlFile] == b.html.value)
      && (after.attachments.Some? <==> b.attachments != [])
      && (after.attachments.Some? ==>
            |after.attachments.value.Keys| == SavedCount(Outcome(file).value.attachmentCount, file.faults.failingAttachments))
  {
    var m := file.message.value;
    var h := HeadersText(HeaderFields(m.headers));
    assert EmptyFolder.(files := EmptyFolder.files[HeadersFile := h]) == Folder(map[HeadersFile := h], None);
    ContentSavedOnSuccess(h, Classify(m), file.faults);
  }
}
