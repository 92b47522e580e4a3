/** What a multipart body comes to, read in one: the rows it adds and the status it ends
    with, as long as it begins with its boundary and no part is a message of its own. */
module MultipartOutcome {
  import opened Bytes
  import opened Delimiters
  import opened HeaderGrammar
  import opened HeaderParsers
  import opened Multipart
  import opened MultipartProgress
  import opened MultipartSteps

  // ------------------------------------------------------------ termination

  /** The bytes a parser holds, and two more where it may still put a CRLF back. */
  function Weight(m: MState): nat
    decreases m
  {
    |m.inb| + |m.acc|
    + (match m.status
       case MfdHeader => 2 + if m.info.Some? then |Text(m.hdr.cur)| + |m.hdr.left| else 0
       case MfdPostHeader => 2
       case MfdMixed => if m.next.Some? then Weight(m.next.value) else 0
       case _ => 0)
  }

  /** Where the machine stands between two reads of the input. */
  function Rank(s: MStatus): nat {
    match s
    case MfdNextline => 5
    case MfdHeader => 4
    case MfdPostHeader => 3
    case MfdMixed => 2
    case MfdParam => 2
    case MfdUpload => 2
    case MfdInit => 1
    case _ => 0
  }

  lemma {:induction false} RunWeighs(h: HState, s: bytes)
    ensures |Text(Run(h, s).cur)| + |Run(h, s).left| <= |Text(h.cur)| + |h.left| + |s|
    decreases |s|
  {
    if s != [] {
      RunWeighs(Step(h, s[0]), s[1..]);
    }
  }

  // ------------------------------------------------------------ the whole body

  /** The rows a body adds and its status. It is not known when a preamble or a nested
      message comes in between. */
  datatype Final = Final(known: bool, rows: seq<Param>, st: Status)

  const Unknown := Final(false, [], General)

  function AddRow(p: Param, f: Final): Final { f.(rows := [p] + f.rows) }

  /** The header parser of the current part. */
  function HdrOf(m: MState): HState { if m.info.Some? then m.hdr else Init }

  ghost function HeadersRead(m: MState, A: bytes): HState { AtEof(Run(HdrOf(m), A)) }

  lemma HeadersWeigh(m: MState, A: bytes)
    ensures |HeadersRead(m, A).left| <= |A| + if m.info.Some? then |Text(m.hdr.cur)| + |m.hdr.left| else 0
  {
    RunWeighs(HdrOf(m), A);
  }

  function BehindHeaders(m: MState, info: seq<Entry>): MState {
    m.(status := MfdPostHeader, info := Some(info), hdr := Init)
  }

  ghost function Opened(m: MState, A: bytes): bytes { if Dashed(m.bdry) <= A then CRLF + A else A }

  function Filled(m: MState, more: bytes): Param
    requires m.upload.upload.Some?
  {
    m.upload.(upload := Some(m.upload.upload.value + more))
  }

  /** What the machine comes to from the state m when A is all that is to come. */
  ghost function Outcome(m: MState, A: bytes): Final
    decreases Weight(m.(inb := A)), Rank(m.status)
  {
    match m.status
    case MfdInit =>
      if Dashed(m.bdry) <= A then Outcome(m.(status := MfdNextline, acc := []), A[|Dashed(m.bdry)|..]) else Unknown
    case MfdNextline =>
      var f := OneShot(CRLF, A);
      if !f.hit || DASHES <= m.acc + f.before then Final(true, [], Success)
      else Outcome(m.(status := MfdHeader, acc := [], info := None), f.after)
    case MfdHeader =>
      var h := HeadersRead(m, A);
      if h.phase == Failed then Final(true, [], h.err)
      else
        HeadersWeigh(m, A);
        Outcome(BehindHeaders(m, Entries(h.fields)), h.left)
    case MfdPostHeader =>
      if m.info.None? then Unknown
      else PartOutcome(m, A, Classify(m.info.value, m.pname, m.level))
    case MfdParam =>
      var f := OneShot(Delim(m.bdry), A);
      if m.pname.None? || m.info.None? then Unknown
      else if !f.hit then Final(true, [], Eof)
      else AddRow(LeafRow(Field(m.pname.value), m.acc + f.before, m.info.value),
                  Outcome(m.(status := MfdNextline, acc := [], pname := None), f.after))
    case MfdUpload =>
      var f := OneShot(Delim(m.bdry), A);
      if m.upload.upload.None? then Unknown
      else if !f.hit then Final(true, [], Eof)
      else
        var p := Filled(m, m.acc + f.before);
        AddRow(p, Outcome(m.(status := MfdNextline, acc := [], upload := p), f.after))
    case MfdMixed => Unknown
    case MfdComplete => Unknown
    case MfdError => Final(true, [], General)
  }

  /** The same behind the headers of a part of kind k. */
  ghost function PartOutcome(m: MState, A: bytes, k: Kind): Final
    requires m.status == MfdPostHeader && m.info.Some?
    decreases Weight(m.(inb := A)), Rank(m.status), 0
  {
    match k
    case Field(name) => Outcome(m.(status := MfdParam, pname := Some(name)), Opened(m, A))
    case Upload(name, filename) =>
      Outcome(m.(status := MfdUpload, upload := Param(name, filename, Some([]), m.info.value, Ascii, true)), Opened(m, A))
    case Nested(_, _) => Unknown
    case Bad => Final(true, [], General)
  }

  // ------------------------------------------------------------ the rest of a body

  /** The state without the bytes it holds and what it has left of past headers. */
  function Key(m: MState): MState {
    m.(inb := [], eos := false, hdr := if m.status == MfdHeader && m.info.Some? then m.hdr else Init)
  }

  /** What the machine comes to when coming follows the bytes it holds. */
  ghost function Ahead(m: MState, coming: bytes): Final { Outcome(Key(m), m.inb + coming) }

  /** Between two steps, outside of nested messages. */
  ghost predicate Regular(m: MState) {
    && m.bdry != [] && NoCR(m.bdry)
    && match m.status
       case MfdInit => m.acc == []
       case MfdNextline => true
       case MfdHeader =>
         && m.acc == [] && HdrOf(m).phase != Complete && HdrOf(m).phase != Failed
         && (m.info.Some? ==> m.info.value == Entries(m.hdr.fields))
       case MfdPostHeader => m.acc == [] && m.info.Some?
       case MfdParam => m.pname.Some? && m.info.Some?
       case MfdUpload => m.acc == [] && m.upload.upload.Some?
       case MfdMixed => false
       case MfdComplete => false
       case MfdError => true
  }

  /** A step, or several, with coming still to come: the outcome of what is ahead stays
      what it was, or is what the call answers. */
  ghost predicate Follows(m: MState, m': MState, rows0: seq<Param>, rows: seq<Param>, coming: bytes, done: bool,
                          st: Status)
  {
    Regular(m) && (m.eos ==> coming == []) && Ahead(m, coming).known ==>
      if done && st != Incomplete then
        rows0 + Ahead(m, coming).rows == rows && Ahead(m, coming).st == st
      else
        && Regular(m') && m'.eos == m.eos && (done ==> !m.eos)
        && Ahead(m', coming).known && Ahead(m', coming).st == Ahead(m, coming).st
        && rows0 + Ahead(m, coming).rows == rows + Ahead(m', coming).rows
  }

  /** The same, whatever is still to come. */
  ghost predicate FollowsAll(m: MState, m': MState, rows0: seq<Param>, rows: seq<Param>, done: bool, st: Status) {
    forall coming :: Follows(m, m', rows0, rows, coming, done, st)
  }

  lemma FollowsAllOn(m: MState, m1: MState, m2: MState, rows0: seq<Param>, rows1: seq<Param>, rows2: seq<Param>,
                     done: bool, st: Status)
    requires FollowsAll(m, m1, rows0, rows1, false, General) && FollowsAll(m1, m2, rows1, rows2, done, st)
    ensures FollowsAll(m, m2, rows0, rows2, done, st)
  {
    forall coming
      ensures Follows(m, m2, rows0, rows2, coming, done, st)
    {
      FollowsOn(m, m1, m2, rows0, rows1, rows2, coming, done, st);
    }
  }

  /** Whatever a step that goes on is said to answer. */
  lemma NoAnswerYet(m: MState, m': MState, rows0: seq<Param>, rows: seq<Param>, st: Status)
    requires FollowsAll(m, m', rows0, rows, false, st)
    ensures FollowsAll(m, m', rows0, rows, false, General)
  {
    forall coming
      ensures Follows(m, m', rows0, rows, coming, false, General)
    {
      assert Follows(m, m', rows0, rows, coming, false, st);
    }
  }

  lemma NothingYet(m: MState, rows: seq<Param>)
    ensures FollowsAll(m, m, rows, rows, false, General)
  {
  }

  /** A parser in error says so. */
  lemma ErrorFollows(m: MState, m': MState, rows: seq<Param>)
    requires m.status == MfdError || !Regular(m)
    ensures FollowsAll(m, m', rows, rows, true, General)
  {
    assert rows + [] == rows;
  }

  lemma FollowsOn(m: MState, m1: MState, m2: MState, rows0: seq<Param>, rows1: seq<Param>, rows2: seq<Param>,
                  coming: bytes, done: bool, st: Status)
    requires Follows(m, m1, rows0, rows1, coming, false, General) && Follows(m1, m2, rows1, rows2, coming, done, st)
    ensures Follows(m, m2, rows0, rows2, coming, done, st)
  {
  }

  /** The same outcome is ahead, and no row has been added. */
  lemma SameAhead(m: MState, m': MState, rows: seq<Param>, coming: bytes, done: bool, st: Status)
    requires Regular(m') && m'.eos == m.eos && (done ==> !m.eos) && (done ==> st == Incomplete)
    requires Ahead(m', coming) == Ahead(m, coming)
    ensures Follows(m, m', rows, rows, coming, done, st)
  {
  }

  /** This answer is the outcome, and no row has been added. */
  lemma Answers(m: MState, m': MState, rows: seq<Param>, coming: bytes, st: Status)
    requires Ahead(m, coming) == Final(true, [], st) && st != Incomplete
    ensures Follows(m, m', rows, rows, coming, true, st)
  {
    assert rows + [] == rows;
  }

  /** A row has been added, and it was the first to come. */
  lemma FirstRow(m: MState, m': MState, rows: seq<Param>, p: Param, coming: bytes)
    requires Regular(m') && m'.eos == m.eos && Ahead(m, coming) == AddRow(p, Ahead(m', coming))
    ensures Follows(m, m', rows, rows + [p], coming, false, Success)
  {
    assert (rows + [p]) + Ahead(m', coming).rows == rows + ([p] + Ahead(m', coming).rows);
  }

  // ------------------------------------------------------------ step by step

  /** Where a search of what is held leaves a search of all that is ahead. */
  lemma SearchAhead(d: bytes, S: bytes, eos: bool, coming: bytes, n: nat, st: Status)
    requires SplitOutcome(d, S, eos, n, st) && Simple(d) && (eos ==> coming == [])
    ensures st == Success ==> n + |d| <= |S| && OneShot(d, S + coming) == Found(true, S[..n], S[n + |d|..] + coming)
    ensures st == Incomplete ==>
              var g := OneShot(d, S[n..] + coming);
              !eos && OneShot(d, S + coming) == g.(before := S[..n] + g.before)
    ensures st != Success && st != Incomplete ==> st == Eof && !OneShot(d, S + coming).hit
  {
    SplitIsOneShot(d, S, eos, n, st);
    if st == Success {
      OneShotHit(d, S, coming);
    } else if st == Incomplete {
      OneShotMiss(d, S, coming);
    } else {
      assert S + coming == S;
    }
  }

  lemma InitFollows(m: MState, m': MState, n: nat, back0: bytes, back: bytes, rows: seq<Param>, coming: bytes,
                    done: bool, st: Status)
    requires m.status == MfdInit && InitDone(m, m', n, back0, back, done, st)
    ensures Follows(m, m', rows, rows, coming, done, st)
  {
    var d := Dashed(m.bdry);
    if Regular(m) && (m.eos ==> coming == []) && d <= m.inb + coming {
      var more := (m.inb + coming)[|d|..];
      assert m.inb + coming == d + more;
      PrefixMatches(d, m.inb, coming, more);
      if st == Success {
        SameAhead(m, m', rows, coming, done, st);
      } else {
        assert m.inb[0..] == m.inb && m.acc + m.inb[..0] == m.acc;
        SameAhead(m, m', rows, coming, done, st);
      }
    }
  }

  lemma CrlfIsSimple()
    ensures Simple(CRLF)
  {
  }

  lemma NextlineFollows(m: MState, m': MState, found: Status, n: nat, back0: bytes, back: bytes, backEos: bool,
                        rows: seq<Param>, coming: bytes, done: bool, st: Status)
    requires m.status == MfdNextline && NextlineDone(m, m', found, n, back0, back, backEos, done, st)
    ensures Follows(m, m', rows, rows, coming, done, st)
  {
    if Regular(m) && (m.eos ==> coming == []) {
      CrlfIsSimple();
      SearchAhead(CRLF, m.inb, m.eos, coming, n, found);
      if found == Success {
        if done { Answers(m, m', rows, coming, st); } else { SameAhead(m, m', rows, coming, done, st); }
      } else if found == Incomplete {
        Assoc(m.acc, m.inb[..n], OneShot(CRLF, m.inb[n..] + coming).before);
        SameAhead(m, m', rows, coming, done, st);
      } else {
        Answers(m, m', rows, coming, st);
      }
    }
  }

  /** The headers of the part, read as far as they have come. */
  lemma HeadersAhead(m: MState, r: HState, rows: seq<Entry>, coming: bytes)
    requires Regular(m) && m.status == MfdHeader && r == Run(HdrOf(m), m.inb)
    requires Added(if m.info.Some? then m.info.value else [], HdrOf(m), rows, r)
    ensures rows == Entries(r.fields) && Run(HdrOf(m), m.inb + coming) == Run(r, coming)
    ensures r.phase == Complete ==> Run(r, coming) == r.(left := r.left + coming)
    ensures r.phase == Failed ==> Run(r, coming) == r
  {
    RunConcat(HdrOf(m), m.inb, coming);
    assert Entries(Init.fields) == [];
    RunFieldsGrow(HdrOf(m), m.inb);
    EntriesJoined(HdrOf(m), r, if m.info.Some? then m.info.value else [], rows);
    if r.phase == Complete { RunDone(r, coming); }
    if r.phase == Failed { RunFailed(r, coming); }
  }

  lemma HeaderFollows(m: MState, m': MState, rows: seq<Param>, coming: bytes, done: bool, st: Status)
    requires m.status == MfdHeader && HeaderDone(m, m', done, st)
    ensures Follows(m, m', rows, rows, coming, done, st)
  {
    if Regular(m) && (m.eos ==> coming == []) {
      var r := Run(HdrOf(m), m.inb);
      HeadersAhead(m, r, m'.info.value, coming);
      if r.phase == Failed {
        Answers(m, m', rows, coming, st);
      } else if st == Success {
        if m.eos { assert Run(r, coming) == r && m'.inb + coming == m'.inb; }
        SameAhead(m, m', rows, coming, done, st);
      } else {
        assert [] + coming == coming;
        SameAhead(m, m', rows, coming, done, st);
      }
    }
  }

  lemma PostHeaderFollows(m: MState, m': MState, rows: seq<Param>, coming: bytes, st: Status)
    requires m.status == MfdPostHeader && StartOutcome(Dashed(m.bdry), m.inb, m.eos, st) && PostHeaderDone(m, m', st)
    ensures Follows(m, m', rows, rows, coming, st == Incomplete, st)
  {
    if Regular(m) && (m.eos ==> coming == []) {
      if st == Incomplete {
        SameAhead(m, m', rows, coming, true, st);
      } else {
        OpenedAhead(m, coming, st);
        PartAhead(m, m', coming, st);
        if Ahead(m, coming).known { SameAhead(m, m', rows, coming, false, st); }
      }
    }
  }

  lemma PartAhead(m: MState, m': MState, coming: bytes, st: Status)
    requires m.status == MfdPostHeader && Regular(m) && PostHeaderDone(m, m', st) && st != Incomplete
    requires Opened(m, m.inb + coming) == Reopened(m.inb, st) + coming
    ensures Ahead(m, coming).known ==> Regular(m') && m'.eos == m.eos && Ahead(m', coming) == Ahead(m, coming)
  {
    var k := Classify(m.info.value, m.pname, m.level);
    assert Ahead(m, coming) == PartOutcome(Key(m), m.inb + coming, k);
    match k
    case Field(_) =>
    case Upload(_, _) =>
    case Nested(_, _) =>
    case Bad =>
  }

  lemma OpenedAhead(m: MState, coming: bytes, st: Status)
    requires StartOutcome(Dashed(m.bdry), m.inb, m.eos, st) && st != Incomplete && (m.eos ==> coming == [])
    ensures Opened(m, m.inb + coming) == Reopened(m.inb, st) + coming
  {
    PrefixOfBoth(Dashed(m.bdry), m.inb, coming, m.inb + coming);
    if st == Success { Assoc(CRLF, m.inb, coming); }
  }

  lemma ParamHit(m: MState, m': MState, n: nat, coming: bytes)
    requires m.status == MfdParam && m.pname.Some? && m.info.Some? && n + |Delim(m.bdry)| <= |m.inb|
    requires m' == m.(status := MfdNextline, inb := m.inb[n + |Delim(m.bdry)|..], acc := [], pname := None)
    requires OneShot(Delim(m.bdry), m.inb + coming) == Found(true, m.inb[..n], m'.inb + coming)
    ensures Ahead(m, coming) == AddRow(LeafRow(Field(m.pname.value), m.acc + m.inb[..n], m.info.value), Ahead(m', coming))
  {
    assert Key(m') == Key(m).(status := MfdNextline, acc := [], pname := None);
  }

  lemma ParamMiss(m: MState, m': MState, n: nat, coming: bytes)
    requires m.status == MfdParam && n <= |m.inb| && m' == m.(inb := m.inb[n..], acc := m.acc + m.inb[..n])
    requires
      var g := OneShot(Delim(m.bdry), m'.inb + coming);
      OneShot(Delim(m.bdry), m.inb + coming) == g.(before := m.inb[..n] + g.before)
    ensures Ahead(m', coming) == Ahead(m, coming)
  {
    Assoc(m.acc, m.inb[..n], OneShot(Delim(m.bdry), m'.inb + coming).before);
    assert Key(m') == Key(m).(acc := m'.acc);
  }

  lemma ParamFollows(m: MState, m': MState, n: nat, rows0: seq<Param>, rows: seq<Param>, coming: bytes, done: bool,
                     st: Status)
    requires m.status == MfdParam && ParamDone(m, m', n, rows0, rows, done, st)
    ensures Follows(m, m', rows0, rows, coming, done, st)
  {
    if Regular(m) && (m.eos ==> coming == []) {
      DelimIsSimple(m.bdry);
      SearchAhead(Delim(m.bdry), m.inb, m.eos, coming, n, st);
      if st == Success {
        ParamHit(m, m', n, coming);
        FirstRow(m, m', rows0, LeafRow(Field(m.pname.value), m.acc + m.inb[..n], m.info.value), coming);
      } else if st == Incomplete {
        ParamMiss(m, m', n, coming);
        SameAhead(m, m', rows, coming, done, st);
      } else {
        Answers(m, m', rows, coming, st);
      }
    }
  }

  lemma UploadHit(m: MState, m': MState, n: nat, coming: bytes)
    requires m.status == MfdUpload && m.upload.upload.Some? && m.acc == [] && n + |Delim(m.bdry)| <= |m.inb|
    requires m' == m.(status := MfdNextline, inb := m.inb[n + |Delim(m.bdry)|..], upload := Uploaded(m, n))
    requires OneShot(Delim(m.bdry), m.inb + coming) == Found(true, m.inb[..n], m'.inb + coming)
    ensures Ahead(m, coming) == AddRow(Uploaded(m, n), Ahead(m', coming))
  {
    assert Key(m') == Key(m).(status := MfdNextline, acc := [], upload := Uploaded(m, n));
  }

  lemma UploadMiss(m: MState, m': MState, n: nat, coming: bytes)
    requires m.status == MfdUpload && m.upload.upload.Some? && m.acc == [] && n <= |m.inb|
    requires m' == m.(inb := m.inb[n..], upload := Uploaded(m, n))
    requires
      var g := OneShot(Delim(m.bdry), m'.inb + coming);
      OneShot(Delim(m.bdry), m.inb + coming) == g.(before := m.inb[..n] + g.before)
    ensures Ahead(m', coming) == Ahead(m, coming)
  {
    var before := OneShot(Delim(m.bdry), m'.inb + coming).before;
    UploadLonger(m, m.acc + m.inb[..n], before);
    Assoc(m.acc, m.inb[..n], before);
    assert Key(m') == Key(m).(upload := m'.upload);
  }

  lemma UploadFollows(m: MState, m': MState, n: nat, rows0: seq<Param>, rows: seq<Param>, coming: bytes, done: bool,
                      st: Status)
    requires m.status == MfdUpload && UploadDone(m, m', n, rows0, rows, done, st)
    ensures Follows(m, m', rows0, rows, coming, done, st)
  {
    if Regular(m) && (m.eos ==> coming == []) {
      DelimIsSimple(m.bdry);
      SearchAhead(Delim(m.bdry), m.inb, m.eos, coming, n, st);
      if st == Success {
        UploadHit(m, m', n, coming);
        FirstRow(m, m', rows0, Uploaded(m, n), coming);
      } else if st == Incomplete {
        UploadMiss(m, m', n, coming);
        SameAhead(m, m', rows, coming, done, st);
      } else {
        Answers(m, m', rows, coming, st);
      }
    }
  }

  lemma UploadLonger(m: MState, a: bytes, b: bytes)
    requires m.upload.upload.Some?
    ensures Filled(m.(acc := [], upload := Filled(m, a)), [] + b) == Filled(m, a + b)
  {
    Assoc(m.upload.upload.value, a, b);
    assert [] + b == b;
  }

  // ------------------------------------------------------------ every step, whatever is to come

  lemma InitFollowsAll(m: MState, m': MState, n: nat, back0: bytes, back: bytes, rows: seq<Param>, done: bool,
                       st: Status)
    requires m.status == MfdInit && InitDone(m, m', n, back0, back, done, st)
    ensures FollowsAll(m, m', rows, rows, done, st)
  {
    forall coming ensures Follows(m, m', rows, rows, coming, done, st) {
      InitFollows(m, m', n, back0, back, rows, coming, done, st);
    }
  }

  lemma NextlineFollowsAll(m: MState, m': MState, found: Status, n: nat, back0: bytes, back: bytes, backEos: bool,
                           rows: seq<Param>, done: bool, st: Status)
    requires m.status == MfdNextline && NextlineDone(m, m', found, n, back0, back, backEos, done, st)
    ensures FollowsAll(m, m', rows, rows, done, st)
  {
    forall coming ensures Follows(m, m', rows, rows, coming, done, st) {
      NextlineFollows(m, m', found, n, back0, back, backEos, rows, coming, done, st);
    }
  }

  lemma HeaderFollowsAll(m: MState, m': MState, rows: seq<Param>, done: bool, st: Status)
    requires m.status == MfdHeader && HeaderDone(m, m', done, st)
    ensures FollowsAll(m, m', rows, rows, done, st)
  {
    forall coming ensures Follows(m, m', rows, rows, coming, done, st) {
      HeaderFollows(m, m', rows, coming, done, st);
    }
  }

  lemma PostHeaderFollowsAll(m: MState, m': MState, rows: seq<Param>, st: Status)
    requires m.status == MfdPostHeader && StartOutcome(Dashed(m.bdry), m.inb, m.eos, st) && PostHeaderDone(m, m', st)
    ensures FollowsAll(m, m', rows, rows, st == Incomplete, st)
  {
    var done := st == Incomplete;
    forall coming ensures Follows(m, m', rows, rows, coming, done, st) {
      PostHeaderFollows(m, m', rows, coming, st);
    }
  }

  lemma ParamFollowsAll(m: MState, m': MState, n: nat, rows0: seq<Param>, rows: seq<Param>, done: bool, st: Status)
    requires m.status == MfdParam && ParamDone(m, m', n, rows0, rows, done, st)
    ensures FollowsAll(m, m', rows0, rows, done, st)
  {
    forall coming ensures Follows(m, m', rows0, rows, coming, done, st) {
      ParamFollows(m, m', n, rows0, rows, coming, done, st);
    }
  }

  lemma UploadFollowsAll(m: MState, m': MState, n: nat, rows0: seq<Param>, rows: seq<Param>, done: bool, st: Status)
    requires m.status == MfdUpload && UploadDone(m, m', n, rows0, rows, done, st)
    ensures FollowsAll(m, m', rows0, rows, done, st)
  {
    forall coming ensures Follows(m, m', rows0, rows, coming, done, st) {
      UploadFollows(m, m', n, rows0, rows, coming, done, st);
    }
  }
}
