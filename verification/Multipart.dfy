/** The multipart machine, abstractly (library/parser_multipart.c): how a part is
    classified, what a printed message looks like, and what remains to be done in each
    state of the parser while the rest of such a message is still to come. */
module Multipart {
  import opened Bytes
  import opened Delimiters
  import opened HeaderGrammar
  import opened HeaderAttributes
  import Charsets

  const MAX_LEVEL: nat := 8

  // ------------------------------------------------------------ part headers

  const DISPOSITION := Lit("Content-Disposition")
  const CONTENT_TYPE := Lit("Content-Type")
  const CONTENT_ID := Lit("Content-ID")
  const MULTIPART := Lit("multipart/")
  const FORM_DATA := Lit("form-data")
  const FILE := Lit("file")
  const NAME := Lit("name")
  const FILENAME := Lit("filename")
  const BOUNDARY := Lit("boundary")

  /** What MFD_POST_HEADER makes of a part. */
  datatype Kind =
    | Field(name: bytes)
    | Upload(name: bytes, filename: bytes)
    | Nested(bdry: bytes, pname: bytes)
    | Bad

  /** strchr(content_type, ';') + 1 */
  function AfterSemi(ct: bytes, i: nat): Option<bytes>
    requires i <= |ct|
    decreases |ct| - i
  {
    if At(ct, i) == 0 then None
    else if ct[i] == SEMI then Some(ct[i + 1..])
    else AfterSemi(ct, i + 1)
  }

  /** The boundary create_multipart_context finds, if there is a nonempty one. */
  function BoundaryOf(ct: bytes): (b: Option<bytes>)
    ensures b.Some? ==> b.value != []
  {
    match AfterSemi(ct, 0)
    case None => None
    case Some(attr) =>
      var a := Attribute(attr, BOUNDARY);
      if a.st != Success || a.val == [] then None else Some(a.val)
  }

  /** The first semicolon is at k, and no NUL in front of it. */
  predicate FirstSemi(ct: bytes, k: nat) {
    k < |ct| && ct[k] == SEMI && forall j :: 0 <= j < k ==> ct[j] != SEMI && ct[j] != 0
  }

  lemma {:induction false} SemiFound(ct: bytes, i: nat, k: nat)
    requires i <= k && FirstSemi(ct, k)
    ensures AfterSemi(ct, i) == Some(ct[k + 1..])
    decreases k - i
  {
    if i < k { SemiFound(ct, i + 1, k); }
  }

  lemma {:induction false} SemiOnly(ct: bytes, i: nat) returns (k: nat)
    requires i <= |ct| && AfterSemi(ct, i).Some? && forall j :: 0 <= j < i ==> ct[j] != SEMI && ct[j] != 0
    ensures FirstSemi(ct, k)
    decreases |ct| - i
  {
    if ct[i] == SEMI { k := i; } else { k := SemiOnly(ct, i + 1); }
  }

  /** The boundary is the nonempty value of the attribute, behind the first semicolon. */
  lemma BoundaryIs(ct: bytes, b: bytes)
    ensures BoundaryOf(ct) == Some(b) <==>
              b != [] && exists k :: FirstSemi(ct, k) && Attribute(ct[k + 1..], BOUNDARY).st == Success
                                     && Attribute(ct[k + 1..], BOUNDARY).val == b
  {
    forall k: nat | FirstSemi(ct, k)
      ensures AfterSemi(ct, 0) == Some(ct[k + 1..])
    {
      SemiFound(ct, 0, k);
    }
    if AfterSemi(ct, 0).Some? {
      var k := SemiOnly(ct, 0);
    }
  }

  function ContentId(info: seq<Entry>): bytes {
    match Lookup(info, CONTENT_ID)
    case Some(cid) => cid
    case None => []
  }

  function ClassifyNested(info: seq<Entry>, ct: bytes, level: nat): Kind {
    if level >= MAX_LEVEL then Bad
    else
      match BoundaryOf(ct)
      case None => Bad
      case Some(b) =>
        match Lookup(info, DISPOSITION)
        case None => Nested(b, ContentId(info))
        case Some(cd) =>
          var a := Attribute(cd, NAME);
          if a.st == Success then Nested(b, a.val)
          else if a.st != NoAttr then Bad
          else Nested(b, ContentId(info))
  }

  function ClassifyField(cd: bytes): Kind {
    var a := Attribute(cd, NAME);
    if a.st != Success then Bad
    else
      var f := Attribute(cd, FILENAME);
      if f.st == Success then Upload(a.val, f.val)
      else if f.st != NoAttr then Bad
      else Field(a.val)
  }

  function Classify(info: seq<Entry>, pname: Option<bytes>, level: nat): Kind {
    var cd := Lookup(info, DISPOSITION);
    var ct := Lookup(info, CONTENT_TYPE);
    if ct.Some? && MULTIPART <= ct.value then ClassifyNested(info, ct.value, level)
    else if cd.Some? && FORM_DATA <= cd.value then ClassifyField(cd.value)
    else if cd.Some? && FILE <= cd.value then
      var f := Attribute(cd.value, FILENAME);
      if f.st != Success || pname.None? then Bad else Upload(pname.value, f.val)
    else Upload(ContentId(info), [])
  }

  // ------------------------------------------------------------ printed messages

  /** A body part as it is sent. pad follows the boundary on the delimiter line; bare
      parts have no body and leave out the CRLF in front of the next delimiter. */
  datatype Part = Part(pad: bytes, headers: seq<Raw>, blank: bytes, body: Body)

  datatype Body =
    | Leaf(content: bytes, bare: bool)
    | Multi(bdry: bytes, parts: seq<Part>, close: bytes)

  /** What follows the closing dashes: padding, then CRLF and anything, or the end. */
  datatype Tail = Tail(close: bytes, after: Option<bytes>)

  function Dashed(b: bytes): bytes { DASHES + b }

  function Delim(b: bytes): bytes { CRLF + Dashed(b) }

  function TailText(tail: Tail): bytes {
    tail.close + match tail.after case Some(a) => CRLF + a case None => []
  }

  /** The text behind a dashed boundary, up to the end of the message. */
  function Lines(parts: seq<Part>, b: bytes, tail: Tail): bytes
    decreases parts, 0
  {
    if parts == [] then DASHES + TailText(tail)
    else
      parts[0].pad + CRLF + (BlockText(parts[0].headers) + parts[0].blank
                             + BodyText(parts[0], b, Lines(parts[1..], b, tail)))
  }

  /** The text of a part behind its headers, more being what follows the next boundary. */
  function BodyText(p: Part, b: bytes, more: bytes): bytes
    decreases p, 1
  {
    match p.body
    case Leaf(content, bare) =>
      if bare then Dashed(b) + more else content + (Delim(b) + more)
    case Multi(ib, inner, close) =>
      Dashed(ib) + Lines(inner, ib, Tail(close, Some(Dashed(b) + more)))
  }

  /** The rest of the delimiter line. */
  function LineOf(parts: seq<Part>, close: bytes): bytes {
    if parts == [] then DASHES + close else parts[0].pad
  }

  predicate NoCR(s: bytes) { CR !in s }

  /** The delimiter does not occur in the content, nor does it start with the content. */
  ghost predicate Clean(content: bytes, b: bytes) {
    forall i :: !Occurs(Delim(b), CRLF + content, i)
  }

  function NextName(k: Kind, pname: Option<bytes>): Option<bytes> {
    if k.Upload? then pname else None
  }

  function KindOf(p: Part, pname: Option<bytes>, level: nat): Kind {
    Classify(Entries(p.headers), pname, level)
  }

  ghost predicate HeadersOk(p: Part) {
    && NoCR(p.pad) && !(DASHES <= p.pad)
    && p.headers != [] && FieldsOk(p.headers) && BlankLine(p.blank)
  }

  /** The part can be sent below boundary b and means what its headers say. */
  ghost predicate PartOk(p: Part, b: bytes, pname: Option<bytes>, level: nat)
    decreases p, 1
  {
    var k := KindOf(p, pname, level);
    && HeadersOk(p)
    && match p.body
       case Leaf(content, bare) => (k.Field? || k.Upload?) && (bare ==> content == []) && Clean(content, b)
       case Multi(ib, inner, close) =>
         && k.Nested? && k.bdry == ib && NoCR(ib) && ib != [] && NoCR(close)
         && !(b <= ib + LineOf(inner, close))
         && PartsOk(inner, ib, Some(k.pname), level + 1)
  }

  ghost predicate PartsOk(parts: seq<Part>, b: bytes, pname: Option<bytes>, level: nat)
    decreases parts, 0
  {
    parts == [] ||
    (PartOk(parts[0], b, pname, level)
     && PartsOk(parts[1..], b, NextName(KindOf(parts[0], pname, level), pname), level))
  }

  function LeafRow(k: Kind, content: bytes, info: seq<Entry>): Param {
    match k
    case Field(n) => Param(n, content, None, info, Charsets.Divine(content), true)
    case Upload(n, f) => Param(n, f, Some(content), info, Ascii, true)
    case _ => Param([], [], None, [], Ascii, true)
  }

  /** The rows a message stands for, in order. */
  function Rows(parts: seq<Part>, pname: Option<bytes>, level: nat): seq<Param>
    decreases parts, 0
  {
    if parts == [] then []
    else
      var k := KindOf(parts[0], pname, level);
      PartRows(parts[0], k, level) + Rows(parts[1..], NextName(k, pname), level)
  }

  function PartRows(p: Part, k: Kind, level: nat): seq<Param>
    decreases p, 1
  {
    match p.body
    case Leaf(content, _) => [LeafRow(k, content, Entries(p.headers))]
    case Multi(_, inner, _) => Rows(inner, if k.Nested? then Some(k.pname) else None, level + 1)
  }
}
