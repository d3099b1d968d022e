/**
 * The parsed message as `extract_single_email` sees it: a tree of MIME parts,
 * its depth-first walk, the six recognised headers with their `N/A` default,
 * the text of `headers.txt`, and the one-pass classification of the walked
 * parts into a plain body, an HTML body and the named attachments.
 *
 * Decoding (transfer encodings, charsets, RFC 2231 file names) belongs to the
 * parsing library; here decoded text and bytes are opaque values in the tree.
 */
module Mime {
  import opened Wrappers
  import opened Strings

  type Bytes = seq<bv8>

  /** One node of the MIME tree. `contentType` is `get_content_type()`,
      `disposition` is `str(part.get("Content-Disposition", ""))` (empty when
      absent), `filename` is `get_filename()`, `text` is `get_content()` and
      `data` is `get_payload(decode=True)`. A `Multipart` node is one for which
      `is_multipart()` holds; its children are walked after it. */
  datatype Part =
    | Leaf(contentType: string, disposition: string, filename: Option<string>, text: string, data: Bytes)
    | Multipart(contentType: string, disposition: string, filename: Option<string>, text: string, data: Bytes,
                subparts: seq<Part>)

  /** A parsed message: the header lookup of its root and the root part itself. */
  datatype Message = Message(headers: map<string, string>, root: Part)

  /** `message.walk()`: the part itself, then the walks of its children in order. */
  function Walk(p: Part): (r: seq<Part>)
    ensures |r| >= 1 && r[0] == p
    decreases p, 1
  {
    match p
    case Leaf(_, _, _, _, _) => [p]
    case Multipart(_, _, _, _, _, children) => [p] + WalkAll(children)
  }

  function WalkAll(ps: seq<Part>): seq<Part>
    decreases ps, 0
  {
    if ps == [] then [] else Walk(ps[0]) + WalkAll(ps[1..])
  }

  /** Every child's walk appears, contiguously and in order, inside the walk of its siblings. */
  lemma {:induction false} WalkAllContainsChild(ps: seq<Part>, i: nat)
    requires i < |ps|
    ensures exists k: nat :: OccursAt(WalkAll(ps), Walk(ps[i]), k)
    decreases ps
  {
    var w := Walk(ps[0]);
    var rest := WalkAll(ps[1..]);
    assert WalkAll(ps) == w + rest;
    if i == 0 {
      assert (w + rest)[0..|w|] == w;
      assert OccursAt(WalkAll(ps), Walk(ps[i]), 0);
    } else {
      WalkAllContainsChild(ps[1..], i - 1);
      var c := ps[i];
      assert ps[1..][i - 1] == c;
      var k: nat :| OccursAt(rest, Walk(c), k);
      OccursAtShift(w, rest, Walk(c), k);
    }
  }

  /** Pre-order: a multipart part comes first in its walk, and the walk of
      each of its children follows it, whole and in order. */
  lemma WalkContainsChild(p: Part, i: nat)
    requires p.Multipart? && i < |p.subparts|
    ensures Walk(p)[0] == p
    ensures exists k: nat :: k >= 1 && OccursAt(Walk(p), Walk(p.subparts[i]), k)
  {
    var c := p.subparts[i];
    var rest := WalkAll(p.subparts);
    var w := Walk(c);
    assert Walk(p) == [p] + rest;
    WalkAllContainsChild(p.subparts, i);
    var k: nat :| OccursAt(rest, w, k);
    OccursAtShift([p], rest, w, k);
  }

  // ---------------------------------------------------------------- headers

  /** The recognised headers, in the order they are written. */
  const HeaderNames: seq<string> := ["From", "To", "Subject", "Date", "Cc", "Message-ID"]

  /** The value recorded for a header the message does not have. */
  const Missing: string := "N/A"

  /** `message.get(name, "N/A")`. */
  function HeaderValue(headers: map<string, string>, name: string): string
  {
    if name in headers then headers[name] else Missing
  }

  /** The `headers` dictionary of `extract_single_email`. */
  function HeaderFields(headers: map<string, string>): seq<(string, string)>
  {
    seq(|HeaderNames|, i requires 0 <= i < |HeaderNames| => (HeaderNames[i], HeaderValue(headers, HeaderNames[i])))
  }

  /** The headers dictionary holds exactly the six recognised names, in their
      fixed order, each with the message's value or `N/A`. */
  lemma HeaderFieldsShape(headers: map<string, string>)
    ensures |HeaderFields(headers)| == |HeaderNames|
    ensures forall i :: 0 <= i < |HeaderNames| ==> HeaderFields(headers)[i].0 == HeaderNames[i]
    ensures forall i :: 0 <= i < |HeaderNames| ==>
      (HeaderNames[i] in headers ==> HeaderFields(headers)[i].1 == headers[HeaderNames[i]])
    ensures forall i :: 0 <= i < |HeaderNames| ==> (HeaderNames[i] !in headers ==> HeaderFields(headers)[i].1 == Missing)
  {
  }

  /** One line of `headers.txt`: `f"{key}: {value}\n"`. */
  function HeaderLine(field: (string, string)): string
  {
    field.0 + ": " + field.1 + "\n"
  }

  /** The whole of `headers.txt`: the lines of the fields, in order. */
  function HeadersText(fields: seq<(string, string)>): string
  {
    Flatten(seq(|fields|, i requires 0 <= i < |fields| => HeaderLine(fields[i])))
  }

  /** For every recognised header, `headers.txt` holds the line `Name: value`,
      with `N/A` as the value when the message lacks that header. */
  lemma HeadersFileHasEveryHeader(headers: map<string, string>, i: nat)
    requires i < |HeaderNames|
    ensures exists k: nat :: OccursAt(HeadersText(HeaderFields(headers)),
                                      HeaderNames[i] + ": " + HeaderValue(headers, HeaderNames[i]) + "\n", k)
  {
    var fields := HeaderFields(headers);
    var lines := seq(|fields|, j requires 0 <= j < |fields| => HeaderLine(fields[j]));
    var text := HeadersText(fields);
    var line := lines[i];
    FlattenSplit(lines, i);
    var k := |Flatten(lines[..i])|;
    assert text[k..k + |line|] == line;
    assert OccursAt(text, line, k);
  }

  // --------------------------------------------------------- classification

  const PlainType: string := "text/plain"
  const HtmlType: string := "text/html"

  /** `"attachment" in content_disposition`: case-sensitive substring test. */
  predicate IsAttachmentPart(p: Part)
  {
    Contains(p.disposition, "attachment")
  }

  /** An attachment that `if filename:` keeps: the declared name is present and non-empty. */
  predicate IsNamedAttachment(p: Part)
  {
    IsAttachmentPart(p) && p.filename.Some? && p.filename.value != ""
  }

  /** A part that may become the body of type `contentType`: the attachment
      test comes first, so an attached `text/plain` part is never a body. */
  predicate IsBodyCandidate(p: Part, contentType: string)
  {
    !IsAttachmentPart(p) && p.contentType == contentType
  }

  /** A collected attachment: its declared name and its decoded bytes. */
  datatype Attachment = Attachment(filename: string, content: Bytes)

  function AttachmentOf(p: Part): Attachment
    requires IsNamedAttachment(p)
  {
    Attachment(p.filename.value, p.data)
  }

  /** The text of the first body candidate of `contentType` in walk order. */
  function FirstBody(parts: seq<Part>, contentType: string): Option<string>
  {
    if parts == [] then None
    else if IsBodyCandidate(parts[0], contentType) then Some(parts[0].text)
    else FirstBody(parts[1..], contentType)
  }

  /** The named attachments, in walk order. */
  function NamedAttachments(parts: seq<Part>): seq<Attachment>
  {
    if parts == [] then []
    else (if IsNamedAttachment(parts[0]) then [AttachmentOf(parts[0])] else []) + NamedAttachments(parts[1..])
  }

  /** No body of `contentType` is found exactly when no part is a candidate for it. */
  lemma {:induction false} FirstBodyNoneIff(parts: seq<Part>, contentType: string)
    ensures FirstBody(parts, contentType) == None <==> forall i :: 0 <= i < |parts| ==> !IsBodyCandidate(parts[i], contentType)
  {
    if parts != [] {
      FirstBodyNoneIff(parts[1..], contentType);
      if !IsBodyCandidate(parts[0], contentType) {
        forall i | 1 <= i < |parts| ensures parts[i] == parts[1..][i - 1] { }
      }
    }
  }

  /** First occurrence wins: when part i is a candidate and none before it is,
      the body is part i's text, whatever later candidates hold. */
  lemma {:induction false} FirstBodyIsFirstCandidate(parts: seq<Part>, contentType: string, i: nat)
    requires i < |parts| && IsBodyCandidate(parts[i], contentType)
    requires forall j :: 0 <= j < i ==> !IsBodyCandidate(parts[j], contentType)
    ensures FirstBody(parts, contentType) == Some(parts[i].text)
  {
    if i > 0 {
      FirstBodyIsFirstCandidate(parts[1..], contentType, i - 1);
    }
  }

  /** A part's attachment is collected exactly when the part is a named attachment. */
  lemma {:induction false} NamedAttachmentsMembers(parts: seq<Part>, a: Attachment)
    ensures a in NamedAttachments(parts) <==>
            exists i :: 0 <= i < |parts| && IsNamedAttachment(parts[i]) && a == AttachmentOf(parts[i])
  {
    if parts != [] {
      NamedAttachmentsMembers(parts[1..], a);
      if exists i :: 0 <= i < |parts[1..]| && IsNamedAttachment(parts[1..][i]) && a == AttachmentOf(parts[1..][i]) {
        var i :| 0 <= i < |parts[1..]| && IsNamedAttachment(parts[1..][i]) && a == AttachmentOf(parts[1..][i]);
        assert parts[i + 1] == parts[1..][i];
      }
      if exists i :: 0 <= i < |parts| && IsNamedAttachment(parts[i]) && a == AttachmentOf(parts[i]) {
        var i :| 0 <= i < |parts| && IsNamedAttachment(parts[i]) && a == AttachmentOf(parts[i]);
        if i > 0 {
          assert parts[1..][i - 1] == parts[i];
        }
      }
    }
  }

  lemma {:induction false} FirstBodySnoc(parts: seq<Part>, p: Part, contentType: string)
    ensures FirstBody(parts + [p], contentType) ==
            if FirstBody(parts, contentType).Some? then FirstBody(parts, contentType)
            else if IsBodyCandidate(p, contentType) then Some(p.text)
            else None
  {
    if parts == [] {
      assert [] + [p] == [p];
    } else {
      assert (parts + [p])[1..] == parts[1..] + [p];
      FirstBodySnoc(parts[1..], p, contentType);
    }
  }

  lemma {:induction false} NamedAttachmentsSnoc(parts: seq<Part>, p: Part)
    ensures NamedAttachments(parts + [p]) ==
            NamedAttachments(parts) + if IsNamedAttachment(p) then [AttachmentOf(p)] else []
  {
    var last := if IsNamedAttachment(p) then [AttachmentOf(p)] else [];
    if parts == [] {
      assert [] + [p] == [p];
      assert NamedAttachments([p]) == last + NamedAttachments([]);
    } else {
      var q := parts + [p];
      assert q[0] == parts[0] && q[1..] == parts[1..] + [p];
      var head := if IsNamedAttachment(parts[0]) then [AttachmentOf(parts[0])] else [];
      NamedAttachmentsSnoc(parts[1..], p);
      calc {
        NamedAttachments(q);
        head + NamedAttachments(parts[1..] + [p]);
        head + (NamedAttachments(parts[1..]) + last);
        (head + NamedAttachments(parts[1..])) + last;
        NamedAttachments(parts) + last;
      }
    }
  }

  /** The loop over `message.walk()` for a multipart message: each part is
      an attachment (kept when named), or fills the plain or HTML body if that
      is still unset; every other part is ignored. */
  method ClassifyParts(parts: seq<Part>) returns (plain: Option<string>, html: Option<string>, attachments: seq<Attachment>)
    ensures plain == FirstBody(parts, PlainType)
    ensures html == FirstBody(parts, HtmlType)
    ensures attachments == NamedAttachments(parts)
  {
    plain, html, attachments := None, None, [];
    var i := 0;
    while i < |parts|
      invariant i <= |parts|
      invariant plain == FirstBody(parts[..i], PlainType)
      invariant html == FirstBody(parts[..i], HtmlType)
      invariant attachments == NamedAttachments(parts[..i])
    {
      var part := parts[i];
      assert parts[..i + 1] == parts[..i] + [part];
      FirstBodySnoc(parts[..i], part, PlainType);
      FirstBodySnoc(parts[..i], part, HtmlType);
      NamedAttachmentsSnoc(parts[..i], part);
      if Contains(part.disposition, "attachment") {
        if part.filename.Some? && part.filename.value != "" {
          attachments := attachments + [Attachment(part.filename.value, part.data)];
        }
      } else if part.contentType == PlainType && plain.None? {
        plain := Some(part.text);
      } else if part.contentType == HtmlType && html.None? {
        html := Some(part.text);
      }
      i := i + 1;
    }
    assert parts[..i] == parts;
  }

  /** What the classification of a message yields. */
  datatype Bodies = Bodies(plain: Option<string>, html: Option<string>, attachments: seq<Attachment>)

  /** The classification `extract_single_email` performs: a multipart message
      by its walk; a single-part message by its content type alone. */
  function Classify(m: Message): Bodies
  {
    match m.root
    case Multipart(_, _, _, _, _, _) =>
      var parts := Walk(m.root);
      Bodies(FirstBody(parts, PlainType), FirstBody(parts, HtmlType), NamedAttachments(parts))
    case Leaf(contentType, _, _, text, _) =>
      if contentType == PlainType then Bodies(Some(text), None, [])
      else if contentType == HtmlType then Bodies(None, Some(text), [])
      else Bodies(None, None, [])
  }

  /** A single-part message never yields attachments, and its content type
      alone decides its body, even when its disposition says `attachment`. */
  lemma SinglePartClassification(m: Message)
    requires m.root.Leaf?
    ensures Classify(m).attachments == []
    ensures Classify(m).plain.Some? <==> m.root.contentType == PlainType
    ensures Classify(m).html.Some? <==> m.root.contentType == HtmlType
    ensures Classify(m).plain.Some? ==> Classify(m).plain.value == m.root.text
    ensures Classify(m).html.Some? ==> Classify(m).html.value == m.root.text
  {
  }

  /** In a multipart message, the plain body is the first plain candidate in
      walk order, is absent only when there is none, and the attachments are
      exactly the named attachment parts. */
  lemma MultipartClassification(m: Message, a: Attachment)
    requires m.root.Multipart?
    ensures Classify(m).plain == None <==> forall i :: 0 <= i < |Walk(m.root)| ==> !IsBodyCandidate(Walk(m.root)[i], PlainType)
    ensures Classify(m).html == None <==> forall i :: 0 <= i < |Walk(m.root)| ==> !IsBodyCandidate(Walk(m.root)[i], HtmlType)
    ensures a in Classify(m).attachments <==>
            exists i :: 0 <= i < |Walk(m.root)| && IsNamedAttachment(Walk(m.root)[i]) && a == AttachmentOf(Walk(m.root)[i])
  {
    assert Classify(m).plain == FirstBody(Walk(m.root), PlainType);
    assert Classify(m).html == FirstBody(Walk(m.root), HtmlType);
    assert Classify(m).attachments == NamedAttachments(Walk(m.root));
    FirstBodyNoneIff(Walk(m.root), PlainType);
    FirstBodyNoneIff(Walk(m.root), HtmlType);
    NamedAttachmentsMembers(Walk(m.root), a);
  }
}
