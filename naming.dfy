/**
 * File-system-safe names: the two sanitizers of `EMLBatchProcessor`,
 * `os.path.splitext`, and the counter loops that pick a name not yet taken
 * for a message folder or for an attachment file.
 */
module Naming {
  import opened Strings

  /** `sanitize_folder_name` replaces these, in this order. */
  const FolderInvalidChars: seq<char> := ['<', '>', ':', '"', '/', '\\', '|', '?', '*']

  /** `sanitize_attachment_filename` first replaces the two path separators ... */
  const PathSeparators: seq<char> := ['\\', '/']

  /** ... and then these. */
  const AttachmentInvalidChars: seq<char> := [':', '*', '?', '"', '<', '>', '|']

  /** The name used when an attachment's declared name is empty or sanitizes to nothing. */
  const UnnamedAttachment: string := "unnamed_attachment"

  /** The nine characters neither sanitizer lets through. */
  predicate Forbidden(c: char)
  {
    c == '<' || c == '>' || c == ':' || c == '"' || c == '/' || c == '\\' || c == '|' || c == '?' || c == '*'
  }

  /** Both sanitizers' lists hold exactly the nine forbidden characters. */
  lemma ForbiddenLists(c: char)
    ensures c in FolderInvalidChars <==> Forbidden(c)
    ensures c in PathSeparators || c in AttachmentInvalidChars <==> Forbidden(c)
    ensures '_' !in FolderInvalidChars && '_' !in PathSeparators && '_' !in AttachmentInvalidChars
  {
  }

  lemma UnnamedAttachmentIsSafe()
    ensures SafeName(UnnamedAttachment)
  {
  }

  predicate NoForbidden(s: string)
  {
    forall i :: 0 <= i < |s| ==> !Forbidden(s[i])
  }

  /** Neither starts nor ends with a dot or a space (vacuously true of ""). */
  predicate Trimmed(s: string)
  {
    s == [] || (!IsStripChar(s[0]) && !IsStripChar(s[|s| - 1]))
  }

  /** A non-empty name that the attachment sanitizer leaves unchanged. */
  predicate SafeName(s: string)
  {
    s != [] && NoForbidden(s) && Trimmed(s)
  }

  /** The one-pass reference for the replacement loops: each forbidden
      character becomes `_`, every other character stays. */
  function Scrub(s: string): (r: string)
  {
    seq(|s|, i requires 0 <= i < |s| => if Forbidden(s[i]) then '_' else s[i])
  }

  /** A string without forbidden characters is left alone by `Scrub`. */
  lemma ScrubNoOp(s: string)
    requires NoForbidden(s)
    ensures Scrub(s) == s
  {
  }

  /** ASCII lower-casing; on the four characters of `.eml` it agrees with Python's `str.lower`. */
  function LowerAscii(c: char): char
  {
    if 'A' <= c <= 'Z' then (c as int + 32) as char else c
  }

  /** `filename.lower().endswith(".eml")`. */
  predicate HasEmlSuffix(s: string)
  {
    |s| >= 4 && s[|s| - 4] == '.' && LowerAscii(s[|s| - 3]) == 'e'
    && LowerAscii(s[|s| - 2]) == 'm' && LowerAscii(s[|s| - 1]) == 'l'
  }

  /** `filename[:-4] if filename.lower().endswith(".eml") else filename`. */
  function DropEmlSuffix(s: string): string
  {
    if HasEmlSuffix(s) then s[..|s| - 4] else s
  }

  /** Stripping keeps a string free of forbidden characters. */
  lemma StripKeepsNoForbidden(s: string)
    requires NoForbidden(s)
    ensures NoForbidden(Strip(s)) && Trimmed(Strip(s))
  {
    StripShape(s);
  }

  /** What `sanitize_folder_name` returns: drop a case-insensitive `.eml`,
      turn every forbidden character into `_`, strip dots and spaces at both
      ends. The result may be empty; no fallback name is used. */
  function FolderName(filename: string): string
  {
    Strip(Scrub(DropEmlSuffix(filename)))
  }

  /** A folder name is never longer than the file name and has neither a
      forbidden character nor a dot or space at either end. */
  lemma FolderNameClean(filename: string)
    ensures |FolderName(filename)| <= |filename|
    ensures NoForbidden(FolderName(filename)) && Trimmed(FolderName(filename))
  {
    StripShape(Scrub(DropEmlSuffix(filename)));
    StripKeepsNoForbidden(Scrub(DropEmlSuffix(filename)));
  }

  /** What `sanitize_attachment_filename` returns: the scrubbed and stripped
      declared name, or `unnamed_attachment` when the declared name is empty
      or nothing is left of it. */
  function AttachmentName(filename: string): string
  {
    if filename == [] then UnnamedAttachment
    else if Strip(Scrub(filename)) == [] then UnnamedAttachment
    else Strip(Scrub(filename))
  }

  /** An attachment name is never empty, never a path, never starts or ends
      with a dot or a space, and is the fallback or no longer than the
      declared name. */
  lemma AttachmentNameSafe(filename: string)
    ensures SafeName(AttachmentName(filename))
    ensures filename == [] ==> AttachmentName(filename) == UnnamedAttachment
    ensures AttachmentName(filename) == UnnamedAttachment || |AttachmentName(filename)| <= |filename|
  {
    UnnamedAttachmentIsSafe();
    StripShape(Scrub(filename));
    StripKeepsNoForbidden(Scrub(filename));
  }

  /** `s` after `for c in cs[..k]: s = s.replace(c, "_")`, position by position. */
  ghost predicate ReplacedUpTo(s: string, r: string, cs: seq<char>, k: nat)
    requires k <= |cs|
  {
    |r| == |s| && forall i :: 0 <= i < |s| ==> r[i] == if s[i] in cs[..k] then '_' else s[i]
  }

  /** One more `replace` call extends the replaced prefix of the list by one. */
  lemma ReplaceStep(s: string, r: string, cs: seq<char>, k: nat)
    requires k < |cs| && '_' !in cs
    requires ReplacedUpTo(s, r, cs, k)
    ensures ReplacedUpTo(s, ReplaceChar(r, cs[k]), cs, k + 1)
  {
    assert cs[..k + 1] == cs[..k] + [cs[k]];
  }

  /** `sanitize_folder_name`: the `.eml` suffix test, the replacement loop over
      the nine characters, and the final strip. The successive replacements
      amount to the one-pass `Scrub`. */
  method SanitizeFolderName(filename: string) returns (name: string)
    ensures name == FolderName(filename)
  {
    var stem := DropEmlSuffix(filename);
    name := stem;
    ForbiddenLists('_');
    var k := 0;
    while k < |FolderInvalidChars|
      invariant k <= |FolderInvalidChars|
      invariant ReplacedUpTo(stem, name, FolderInvalidChars, k)
    {
      ReplaceStep(stem, name, FolderInvalidChars, k);
      name := ReplaceChar(name, FolderInvalidChars[k]);
      k := k + 1;
    }
    assert FolderInvalidChars[..k] == FolderInvalidChars;
    forall i | 0 <= i < |stem| ensures name[i] == Scrub(stem)[i] {
      ForbiddenLists(stem[i]);
    }
    assert name == Scrub(stem);
    name := Strip(name);
  }

  /** `sanitize_attachment_filename`: the empty-name fallback, the two
      path-separator replacements, the replacement loop over the other seven
      characters, the strip, and the fallback for a name stripped to nothing. */
  method SanitizeAttachmentFilename(filename: string) returns (safeName: string)
    ensures safeName == AttachmentName(filename)
  {
    if filename == [] {
      return UnnamedAttachment;
    }
    ForbiddenLists('_');
    var cs := PathSeparators + AttachmentInvalidChars;
    assert ReplacedUpTo(filename, filename, cs, 0);
    ReplaceStep(filename, filename, cs, 0);
    safeName := ReplaceChar(filename, '\\');
    ReplaceStep(filename, safeName, cs, 1);
    safeName := ReplaceChar(safeName, '/');
    var k := 0;
    while k < |AttachmentInvalidChars|
      invariant k <= |AttachmentInvalidChars|
      invariant ReplacedUpTo(filename, safeName, cs, k + 2)
    {
      ReplaceStep(filename, safeName, cs, k + 2);
      safeName := ReplaceChar(safeName, AttachmentInvalidChars[k]);
      k := k + 1;
    }
    assert cs[..k + 2] == cs;
    forall i | 0 <= i < |filename| ensures safeName[i] == Scrub(filename)[i] {
      ForbiddenLists(filename[i]);
    }
    assert safeName == Scrub(filename);
    safeName := Strip(safeName);
    if safeName == [] {
      safeName := UnnamedAttachment;
    }
  }

  /** A message file named `<base>.eml` (any case) gets the folder `<base>` when
      `<base>` is already clean. */
  lemma FolderNameOfCleanBase(base: string, suffix: string)
    requires NoForbidden(base) && Trimmed(base)
    requires |suffix| == 4 && HasEmlSuffix(suffix)
    ensures FolderName(base + suffix) == base
  {
    var f := base + suffix;
    assert f[|f| - 4..] == suffix;
    assert f[..|f| - 4] == base;
    ScrubNoOp(base);
    StripNoOp(base);
  }

  /** A clean name without the `.eml` suffix is its own folder name. */
  lemma FolderNameOfCleanName(name: string)
    requires NoForbidden(name) && Trimmed(name) && !HasEmlSuffix(name)
    ensures FolderName(name) == name
  {
    ScrubNoOp(name);
    StripNoOp(name);
  }

  /** A safe name passes through the attachment sanitizer unchanged. */
  lemma SafeNameIsFixedPoint(s: string)
    requires SafeName(s)
    ensures AttachmentName(s) == s
  {
    ScrubNoOp(s);
    StripNoOp(s);
  }

  /** Sanitizing an attachment name twice is the same as sanitizing it once. */
  lemma AttachmentNameIdempotent(filename: string)
    ensures AttachmentName(AttachmentName(filename)) == AttachmentName(filename)
  {
    AttachmentNameSafe(filename);
    SafeNameIsFixedPoint(AttachmentName(filename));
  }

  /** Index of the last `.` in `s`, or -1 when there is none. */
  function LastDot(s: string): (d: int)
    ensures -1 <= d < |s|
    ensures d >= 0 ==> s[d] == '.'
    ensures forall i :: d < i < |s| ==> s[i] != '.'
  {
    if s == [] then -1
    else if s[|s| - 1] == '.' then |s| - 1
    else LastDot(s[..|s| - 1])
  }

  /** Nothing but dots (vacuously true of ""). */
  predicate OnlyDots(s: string)
  {
    s == [] || (s[0] == '.' && OnlyDots(s[1..]))
  }

  lemma {:induction false} OnlyDotsIff(s: string)
    ensures OnlyDots(s) <==> forall i :: 0 <= i < |s| ==> s[i] == '.'
  {
    if s != [] {
      OnlyDotsIff(s[1..]);
      assert forall i :: 1 <= i < |s| ==> s[i] == s[1..][i - 1];
    }
  }

  /** `os.path.splitext` on a name without path separators (sanitized names
      have none): the extension starts at the last dot, unless only dots
      precede that dot, in which case there is no extension. */
  function SplitExt(s: string): (string, string)
  {
    var d := LastDot(s);
    if d >= 0 && !OnlyDots(s[..d]) then (s[..d], s[d..]) else (s, [])
  }

  /** Stem and extension put back together give the name; the extension is
      empty or is a dot followed by no other dot; when it is not empty the
      stem holds a character other than a dot; when it is empty, only dots
      precede the last dot (if any). */
  lemma SplitExtShape(s: string)
    ensures SplitExt(s).0 + SplitExt(s).1 == s
    ensures var (stem, ext) := SplitExt(s);
      && (ext != [] ==> ext[0] == '.' && (forall i :: 1 <= i < |ext| ==> ext[i] != '.'))
      && (ext != [] ==> exists i :: 0 <= i < |stem| && stem[i] != '.')
      && (ext == [] ==> forall i :: 0 <= i < LastDot(s) ==> s[i] == '.')
  {
    var d := LastDot(s);
    if d >= 0 {
      OnlyDotsIff(s[..d]);
      assert s[..d] + s[d..] == s;
    }
  }

  /** The k-th candidate: the counter is always appended to the original
      stem, and goes before the extension. */
  function Suffixed(stem: string, k: nat, ext: string): string
  {
    stem + "_" + Decimal(k) + ext
  }

  lemma SuffixedInjective(stem: string, ext: string, i: nat, j: nat)
    requires Suffixed(stem, i, ext) == Suffixed(stem, j, ext)
    ensures i == j
  {
    var a, b := Suffixed(stem, i, ext), Suffixed(stem, j, ext);
    var n := |stem| + 1;
    assert |Decimal(i)| == |Decimal(j)|;
    assert a[n..n + |Decimal(i)|] == Decimal(i);
    assert b[n..n + |Decimal(j)|] == Decimal(j);
    DecimalInjective(i, j);
  }

  /** The candidates tried before the n-th one. */
  ghost function Candidates(stem: string, ext: string, n: nat): set<string>
  {
    set j | 1 <= j < n :: Suffixed(stem, j, ext)
  }

  /** The candidates are pairwise distinct, so n - 1 of them precede the n-th. */
  lemma {:induction false} CandidatesSize(stem: string, ext: string, n: nat)
    requires n >= 1
    ensures |Candidates(stem, ext, n)| == n - 1
  {
    if n > 1 {
      CandidatesSize(stem, ext, n - 1);
      var last := Suffixed(stem, n - 1, ext);
      if last in Candidates(stem, ext, n - 1) {
        var j :| 1 <= j < n - 1 && Suffixed(stem, j, ext) == last;
        SuffixedInjective(stem, ext, j, n - 1);
      }
      assert Candidates(stem, ext, n) == Candidates(stem, ext, n - 1) + {last};
    }
  }

  lemma SubsetSize<T>(a: set<T>, b: set<T>)
    requires a <= b
    ensures |a| <= |b|
  {
    assert b == a + (b - a);
  }

  /** `k` is the least counter whose candidate is free. */
  ghost predicate LeastFree(stem: string, ext: string, taken: set<string>, k: nat)
  {
    k >= 1 && Suffixed(stem, k, ext) !in taken
    && forall j :: 1 <= j < k ==> Suffixed(stem, j, ext) in taken
  }

  /** However many names are taken, some counter is free: the first n - 1
      candidates are distinct, so they cannot all be taken once n - 1 exceeds
      the number of taken names. */
  lemma LeastFreeExists(stem: string, ext: string, taken: set<string>)
    ensures exists k :: LeastFree(stem, ext, taken, k)
  {
    var k := 1;
    while Suffixed(stem, k, ext) in taken
      invariant k >= 1
      invariant forall j :: 1 <= j < k ==> Suffixed(stem, j, ext) in taken
      decreases |taken| + 1 - k
    {
      assert Candidates(stem, ext, k + 1) <= taken;
      CandidatesSize(stem, ext, k + 1);
      SubsetSize(Candidates(stem, ext, k + 1), taken);
      k := k + 1;
    }
    assert LeastFree(stem, ext, taken, k);
  }

  lemma LeastFreeUnique(stem: string, ext: string, taken: set<string>, k1: nat, k2: nat)
    requires LeastFree(stem, ext, taken, k1) && LeastFree(stem, ext, taken, k2)
    ensures k1 == k2
  {
  }

  ghost function LeastFreeCounter(stem: string, ext: string, taken: set<string>): (k: nat)
    ensures LeastFree(stem, ext, taken, k)
  {
    LeastFreeExists(stem, ext, taken);
    var k :| LeastFree(stem, ext, taken, k);
    k
  }

  /** Where a collision loop ends: `first` when it is not taken, otherwise
      the candidate with the least free counter. */
  ghost function FreeName(first: string, stem: string, ext: string, taken: set<string>): (name: string)
    ensures name !in taken
  {
    if first !in taken then first else Suffixed(stem, LeastFreeCounter(stem, ext, taken), ext)
  }

  /** The name the folder loop of `process_all` settles on, given the entries
      of the output base; the empty name stands for the base itself. */
  ghost function FolderPath(folderName: string, entries: set<string>): (name: string)
    ensures name !in entries && name != ""
  {
    FreeName(folderName, folderName, "", entries + {""})
  }

  /** The name the attachment loop settles on, given the files already in `attachments/`. */
  ghost function AttachmentPath(safeName: string, present: set<string>): (name: string)
    ensures name !in present
  {
    FreeName(safeName, SplitExt(safeName).0, SplitExt(safeName).1, present)
  }

  /** The counter loop shared by both collision resolvers: probe `first`;
      while the probed name is taken, probe `stem_k<ext>` for k = 1, 2, ...
      The result is free, and it is `first` when that is free and otherwise
      the candidate with the least free counter. */
  method FirstFreeName(first: string, stem: string, ext: string, taken: set<string>)
    returns (name: string, counter: nat)
    ensures name !in taken
    ensures counter == 0 <==> first !in taken
    ensures counter == 0 ==> name == first
    ensures counter > 0 ==> name == Suffixed(stem, counter, ext)
    ensures forall j :: 1 <= j < counter ==> Suffixed(stem, j, ext) in taken
    ensures name == FreeName(first, stem, ext, taken)
  {
    var next: nat := 1;
    name := first;
    while name in taken
      invariant next >= 1
      invariant next == 1 ==> name == first
      invariant next > 1 ==> first in taken && name == Suffixed(stem, next - 1, ext)
      invariant forall j :: 1 <= j < next - 1 ==> Suffixed(stem, j, ext) in taken
      decreases |taken| + 2 - next
    {
      assert Candidates(stem, ext, next) <= taken;
      CandidatesSize(stem, ext, next);
      SubsetSize(Candidates(stem, ext, next), taken);
      name := Suffixed(stem, next, ext);
      next := next + 1;
    }
    counter := next - 1;
    if counter > 0 {
      LeastFreeUnique(stem, ext, taken, counter, LeastFreeCounter(stem, ext, taken));
    }
  }

  /** The folder-collision loop of `process_all`. `entries` are the names
      already present in the output base. The empty name stands for the
      output base itself, which exists, so it is never chosen. */
  method ResolveFolderName(folderName: string, entries: set<string>)
    returns (name: string, counter: nat)
    ensures name !in entries && name != ""
    ensures folderName != "" && folderName !in entries ==> name == folderName && counter == 0
    ensures folderName == "" || folderName in entries ==>
      counter >= 1 && name == folderName + "_" + Decimal(counter)
      && forall j :: 1 <= j < counter ==> folderName + "_" + Decimal(j) in entries
    ensures name == FolderPath(folderName, entries)
  {
    name, counter := FirstFreeName(folderName, folderName, "", entries + {""});
    if counter > 0 {
      assert name == folderName + "_" + Decimal(counter);
      forall j | 1 <= j < counter ensures folderName + "_" + Decimal(j) in entries {
        assert Suffixed(folderName, j, "") == folderName + "_" + Decimal(j);
        assert Suffixed(folderName, j, "") != "";
      }
    }
  }

  /** A counter inserted before the extension keeps a safe name safe. */
  lemma SuffixedSafe(safe: string, k: nat)
    requires SafeName(safe)
    ensures SafeName(Suffixed(SplitExt(safe).0, k, SplitExt(safe).1))
  {
    var (stem, ext) := SplitExt(safe);
    var r := Suffixed(stem, k, ext);
    var d := Decimal(k);
    SplitExtShape(safe);
    assert stem != [] && stem[0] == safe[0] by {
      if ext == [] {
        assert stem == safe;
      } else {
        var i :| 0 <= i < |stem| && stem[i] != '.';
        assert safe[..|stem|] == stem;
      }
    }
    assert r[0] == stem[0];
    if ext == [] {
      assert r[|r| - 1] == d[|d| - 1];
    } else {
      assert r[|r| - 1] == ext[|ext| - 1] == safe[|safe| - 1];
    }
    forall i | 0 <= i < |r| ensures !Forbidden(r[i]) {
      if i < |stem| {
        assert r[i] == safe[i];
      } else if i == |stem| {
        assert r[i] == '_';
      } else if i < |stem| + 1 + |d| {
        assert r[i] == d[i - |stem| - 1];
      } else {
        assert r[i] == ext[i - |stem| - 1 - |d|] == safe[i - 1 - |d|];
      }
    }
  }

  /** The attachment-collision loop of `extract_single_email`: `present` are
      the names already in the message's `attachments/` directory. The chosen
      name is free; it is the sanitized name itself when that is free, and
      otherwise `<stem>_<k><ext>` for the least free k, so `file.pdf` becomes
      `file_1.pdf`. A safe name stays safe. */
  method ResolveAttachmentName(safeName: string, present: set<string>)
    returns (name: string, counter: nat)
    ensures name !in present
    ensures safeName !in present ==> name == safeName && counter == 0
    ensures safeName in present ==>
      counter >= 1 && name == SplitExt(safeName).0 + "_" + Decimal(counter) + SplitExt(safeName).1
      && forall j :: 1 <= j < counter ==> Suffixed(SplitExt(safeName).0, j, SplitExt(safeName).1) in present
    ensures SafeName(safeName) ==> SafeName(name)
    ensures name == AttachmentPath(safeName, present)
  {
    var (stem, ext) := SplitExt(safeName);
    name, counter := FirstFreeName(safeName, stem, ext, present);
    if SafeName(safeName) && counter > 0 {
      SuffixedSafe(safeName, counter);
    }
  }

  /** A counter inserted before the extension keeps a safe name safe, so the
      attachment loop always ends on a safe name when it starts from one. */
  lemma AttachmentPathSafe(safeName: string, present: set<string>)
    requires SafeName(safeName)
    ensures SafeName(AttachmentPath(safeName, present))
  {
    if safeName in present {
      SuffixedSafe(safeName, LeastFreeCounter(SplitExt(safeName).0, SplitExt(safeName).1, present));
    }
  }

  /** A counter appended to a folder name adds no forbidden character. */
  lemma FolderPathClean(folderName: string, entries: set<string>)
    requires NoForbidden(folderName)
    ensures NoForbidden(FolderPath(folderName, entries))
  {
    var name := FolderPath(folderName, entries);
    if name != folderName {
      var d := Decimal(LeastFreeCounter(folderName, "", entries + {""}));
      assert name == folderName + "_" + d + "";
      forall i | 0 <= i < |name| ensures !Forbidden(name[i]) {
        if i < |folderName| {
          assert name[i] == folderName[i];
        } else if i > |folderName| {
          assert name[i] == d[i - |folderName| - 1];
        }
      }
    }
  }
}
