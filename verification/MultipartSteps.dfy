/** What each state of the multipart machine does (library/parser_multipart.c), between the
    states of a parser without bucket boundaries. */
module MultipartSteps {
  import opened Bytes
  import opened Delimiters
  import opened HeaderGrammar
  import opened HeaderParsers
  import opened Multipart
  import opened MultipartProgress

  /** A search for d: what it passes over is collected. */
  ghost predicate Searched(m: MState, m': MState, d: bytes, n: nat, st: Status) {
    && SplitOutcome(d, m.inb, m.eos, n, st)
    && m' == m.(inb := if st == Success then m.inb[n + |d|..] else m.inb[n..], acc := m.acc + m.inb[..n])
  }

  lemma SearchedIs(m: MState, d: bytes, n: nat, st: Status)
    requires SplitOutcome(d, m.inb, m.eos, n, st)
    ensures Searched(m, m.(inb := m.inb[if st == Success then n + |d| else n..], acc := m.acc + m.inb[..n]), d, n, st)
  {
  }

  /** MFD_INIT */
  ghost predicate InitDone(m: MState, m': MState, n: nat, back0: bytes, back: bytes, done: bool, st: Status) {
    && SplitOutcome(Dashed(m.bdry), m.inb, m.eos, n, st) && done == (st != Success)
    && (st == Success ==>
          && back == back0 + (m.acc + m.inb[..n])
          && m' == m.(status := MfdNextline, inb := m.inb[n + |Dashed(m.bdry)|..], acc := []))
    && (st != Success ==> back == back0 && m' == m.(inb := m.inb[n..], acc := m.acc + m.inb[..n]))
  }

  /** MFD_NEXTLINE, when the line is complete */
  ghost predicate LineDone(m: MState, m': MState, line: bytes, rest: bytes, back0: bytes, back: bytes, backEos: bool,
                           done: bool)
  {
    && (done <==> DASHES <= line)
    && (done ==> back == back0 + rest && backEos == m.eos && m' == m.(status := MfdComplete, inb := [], eos := false, acc := line))
    && (!done ==> back == back0 && !backEos && m' == m.(status := MfdHeader, inb := rest, acc := [], info := None))
  }

  /** MFD_NEXTLINE */
  ghost predicate NextlineDone(m: MState, m': MState, found: Status, n: nat, back0: bytes, back: bytes, backEos: bool,
                               done: bool, st: Status)
  {
    && SplitOutcome(CRLF, m.inb, m.eos, n, found)
    && (found == Success ==> st == Success && LineDone(m, m', m.acc + m.inb[..n], m.inb[n + 2..], back0, back, backEos, done))
    && (found != Success ==>
          && done && st == (if found == Eof then Success else found) && back == back0 && !backEos
          && m' == m.(status := if found == Eof then MfdComplete else MfdNextline, inb := m.inb[n..], acc := m.acc + m.inb[..n]))
  }

  /** MFD_HEADER */
  ghost predicate HeaderDone(m: MState, m': MState, done: bool, st: Status) {
    var h0 := if m.info.Some? then m.hdr else Init;
    var rows0 := if m.info.Some? then m.info.value else [];
    && m'.info.Some? && Parsed(h0, m.inb, m.eos, rows0, m'.hdr, m'.info.value, m'.inb, m'.eos, st)
    && done == (st != Success)
    && m' == m.(status := if st == Success then MfdPostHeader else if st == Incomplete then MfdHeader else MfdError,
                inb := m'.inb, eos := m'.eos, info := m'.info, hdr := m'.hdr)
  }

  function FieldAdded(m: MState): MState { m.(status := MfdNextline, acc := [], pname := None) }

  function FieldRow(m: MState): Param
    requires m.pname.Some? && m.info.Some?
  {
    LeafRow(Field(m.pname.value), m.acc, m.info.value)
  }

  lemma ParamIsDone(m: MState, m1: MState, n: nat, st: Status, rows: seq<Param>)
    requires m.status == MfdParam && m.pname.Some? && m.info.Some? && Searched(m, m1, Delim(m.bdry), n, st)
    ensures st == Success ==> ParamDone(m, FieldAdded(m1), n, rows, rows + [FieldRow(m1)], false, st)
    ensures st == Incomplete ==> ParamDone(m, m1, n, rows, rows, true, st)
    ensures st != Success && st != Incomplete ==> ParamDone(m, m1.(status := MfdError), n, rows, rows, true, st)
  {
  }

  /** MFD_PARAM */
  ghost predicate ParamDone(m: MState, m': MState, n: nat, rows0: seq<Param>, rows: seq<Param>, done: bool,
                            st: Status)
  {
    && m.pname.Some? && m.info.Some? && SplitOutcome(Delim(m.bdry), m.inb, m.eos, n, st) && done == (st != Success)
    && (st == Success ==>
          && rows == rows0 + [LeafRow(Field(m.pname.value), m.acc + m.inb[..n], m.info.value)]
          && m' == m.(status := MfdNextline, inb := m.inb[n + |Delim(m.bdry)|..], acc := [], pname := None))
    && (st != Success ==>
          && rows == rows0
          && m' == m.(status := if st == Incomplete then MfdParam else MfdError, inb := m.inb[n..], acc := m.acc + m.inb[..n]))
  }

  function Uploaded(m: MState, n: nat): Param
    requires n <= |m.inb| && m.upload.upload.Some?
  {
    m.upload.(upload := Some(m.upload.upload.value + (m.acc + m.inb[..n])))
  }

  function Collected(m: MState): MState
    requires m.upload.upload.Some?
  {
    m.(acc := [], upload := m.upload.(upload := Some(m.upload.upload.value + m.acc)))
  }

  lemma UploadIsDone(m: MState, m1: MState, n: nat, st: Status, rows: seq<Param>)
    requires m.upload.upload.Some? && Searched(m, m1, Delim(m.bdry), n, st)
    ensures st == Success ==>
              UploadDone(m, Collected(m1).(status := MfdNextline), n, rows, rows + [Collected(m1).upload], false, st)
    ensures st == Incomplete ==> UploadDone(m, Collected(m1), n, rows, rows, true, st)
    ensures st != Success && st != Incomplete ==> UploadDone(m, m1.(status := MfdError), n, rows, rows, true, st)
  {
  }

  /** MFD_UPLOAD */
  ghost predicate UploadDone(m: MState, m': MState, n: nat, rows0: seq<Param>, rows: seq<Param>, done: bool,
                             st: Status)
  {
    && m.upload.upload.Some? && SplitOutcome(Delim(m.bdry), m.inb, m.eos, n, st) && done == (st != Success)
    && (st == Success ==>
          && rows == rows0 + [Uploaded(m, n)]
          && m' == m.(status := MfdNextline, inb := m.inb[n + |Delim(m.bdry)|..], acc := [], upload := Uploaded(m, n)))
    && (st == Incomplete ==> rows == rows0 && m' == m.(inb := m.inb[n..], acc := [], upload := Uploaded(m, n)))
    && (st != Success && st != Incomplete ==>
          rows == rows0 && m' == m.(status := MfdError, inb := m.inb[n..], acc := m.acc + m.inb[..n]))
  }

  ghost predicate KindIs(k: Kind, m: MState) {
    m.info.Some? && k == Classify(m.info.value, m.pname, m.level)
  }

  /** What the kind of the part makes of the parser. */
  ghost function Entered(m: MState, k: Kind, S: bytes): MState
    requires m.info.Some?
  {
    match k
    case Field(_) => AsField(m, k, S)
    case Upload(_, _) => AsUpload(m, k, S)
    case Nested(_, _) => AsNested(m, k, S)
    case Bad => m.(status := MfdError, inb := S)
  }

  lemma NestedIsEntered(m: MState, k: Kind)
    requires m.info.Some? && k.Nested?
    ensures Entered(m, k, m.inb)
         == m.(status := MfdMixed, next := Some(Fresh(k.bdry, Some(k.pname), m.level + 1)))
  {
  }

  lemma EnteredIsDone(m: MState, k: Kind, S: bytes, m': MState, st: Status)
    requires KindIs(k, m) && S == Reopened(m.inb, st) && st != Incomplete
    requires m' == Entered(m.(inb := S), k, S)
    ensures PostHeaderDone(m, m', st)
  {
  }

  /** What MFD_POST_HEADER leaves behind. */
  ghost predicate PostHeaderDone(m: MState, m': MState, st: Status) {
    && m.info.Some?
    && m' == if st == Incomplete then m
             else Entered(m, Classify(m.info.value, m.pname, m.level), Reopened(m.inb, st))
  }

  lemma NestedHasRoom(info: seq<Entry>, pname: Option<bytes>, level: nat)
    ensures
      var k := Classify(info, pname, level);
      k.Nested? ==> level < MAX_LEVEL && k.bdry != []
  {
  }
}
