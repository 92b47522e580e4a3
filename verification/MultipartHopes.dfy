/** What a sender hopes for while its message is being read, and how every state of the
    machine keeps that hope. */
module MultipartHopes {
  import opened Bytes
  import opened Delimiters
  import opened HeaderGrammar
  import opened Multipart
  import opened MultipartProgress
  import opened MultipartSteps
  import opened MultipartOutcome

  // ------------------------------------------------------------ a message under way

  /** Nothing the parser or a nested one holds is followed by EOS. */
  ghost predicate NoEos(m: MState)
    decreases m
  {
    !m.eos && (m.status == MfdMixed && m.next.Some? ==> NoEos(m.next.value))
  }

  /** A sender's view of one call. When on, the message td, tail is under way, coming is
      what later calls will bring, eos says whether this call brings the end, and goal is
      the table the message will have filled. The contracts below promise nothing when it
      is off, so they hold for every input. */
  datatype Hope = Hope(on: bool, td: Todo, tail: Tail, coming: bytes, eos: bool, goal: seq<Param>)

  /** In the middle of a call the message is still under way. */
  ghost predicate Live(h: Hope, m: MState, rows: seq<Param>) {
    h.on ==>
      && Expect(m, h.td, h.tail, h.coming) && m.status != MfdComplete
      && m.eos == h.eos && (h.eos ==> h.coming == [])
      && (m.status == MfdMixed && m.next.Some? ==> NoEos(m.next.value))
      && rows + RowsTodo(m, h.td) == h.goal
  }

  /** At the end of a call the message is complete and its rows are there, or it goes on. */
  ghost predicate Kept(h: Hope, m: MState, rows: seq<Param>, back: bytes, backEos: bool, st: Status) {
    h.on ==>
      if st == Success then
        && m.status == MfdComplete && rows == h.goal
        && (h.tail.after.Some? ==> back + h.coming == h.tail.after.value && backEos == h.eos)
      else
        && st == Incomplete && !h.eos && NoEos(m) && m.status != MfdComplete
        && Expect(m, h.td, h.tail, h.coming) && back == [] && !backEos
        && rows + RowsTodo(m, h.td) == h.goal
  }

  /** Only the list of parts to be finished changes during a call. */
  ghost predicate SameHope(h: Hope, h': Hope) {
    h' == h.(td := h'.td)
  }

  /** The measure of the main loop goes down. */
  ghost predicate Descends(m: MState, m': MState) {
    Weight(m') < Weight(m) || (Weight(m') == Weight(m) && Rank(m'.status) < Rank(m.status))
  }

  /** One pass through the switch keeps the hope alive, adds rows only at the end, gives
      out no more than was there, brings the end of the call nearer, and leaves what is
      ahead to come to the same. */
  ghost predicate Turned(h: Hope, h': Hope, m: MState, m': MState, rows0: seq<Param>, rows: seq<Param>,
                         back0: bytes, back: bytes, backEos: bool, done: bool, st: Status)
  {
    && SameHope(h, h') && rows0 <= rows && FollowsAll(m, m', rows0, rows, done, st)
    && Weight(m') + |back| <= Weight(m) + |back0|
    && if done then Kept(h', m', rows, back, backEos, st)
       else Live(h', m', rows) && Descends(m, m') && !backEos && (h.on ==> back == [])
  }

  /** Several passes, w being what there was to begin with. */
  ghost predicate Underway(h: Hope, h': Hope, m0: MState, m: MState, rows0: seq<Param>, rows: seq<Param>,
                           w: nat, back: bytes, backEos: bool, done: bool, st: Status)
  {
    && SameHope(h, h') && rows0 <= rows && Weight(m) + |back| <= w
    && FollowsAll(m0, m, rows0, rows, done, if done then st else General)
    && if done then Kept(h', m, rows, back, backEos, st)
       else Live(h', m, rows) && !backEos && (h.on ==> back == [])
  }

  lemma UnderwayOn(h: Hope, h1: Hope, h2: Hope, m0: MState, m1: MState, m2: MState,
                   rows0: seq<Param>, rows1: seq<Param>, rows2: seq<Param>,
                   w: nat, back1: bytes, back2: bytes, backEos: bool, done: bool, st: Status)
    requires Underway(h, h1, m0, m1, rows0, rows1, w, back1, false, false, General)
    requires Turned(h1, h2, m1, m2, rows1, rows2, back1, back2, backEos, done, st)
    ensures Underway(h, h2, m0, m2, rows0, rows2, w, back2, backEos, done, st)
  {
    FollowsAllOn(m0, m1, m2, rows0, rows1, rows2, done, st);
    if !done { NoAnswerYet(m0, m2, rows0, rows2, st); }
  }

  // ------------------------------------------------------------ every state keeps the hope

  lemma InitTurn(h: Hope, m: MState, m': MState, n: nat, back0: bytes, back: bytes, rows: seq<Param>, done: bool,
                 st: Status)
    requires m.status == MfdInit && m.bdry != [] && Live(h, m, rows) && (h.on ==> back0 == [])
    requires InitDone(m, m', n, back0, back, done, st)
    ensures Turned(h, h, m, m', rows, rows, back0, back, false, done, st)
  {
    InitFollowsAll(m, m', n, back0, back, rows, done, st);
    if h.on { InitHope(h, m, m', n, back, rows, done, st); }
  }

  lemma InitHope(h: Hope, m: MState, m': MState, n: nat, back: bytes, rows: seq<Param>, done: bool, st: Status)
    requires m.status == MfdInit && h.on && Live(h, m, rows) && InitDone(m, m', n, [], back, done, st)
    ensures back == [] && if done then Kept(h, m', rows, back, false, st) else Live(h, m', rows)
  {
    InitStep(m, h.td, h.tail, h.coming, n, st);
    assert m.inb[0..] == m.inb && [] + m.inb[..0] == [];
  }

  lemma NextlineTurn(h: Hope, m: MState, m': MState, found: Status, n: nat, back0: bytes, back: bytes, backEos: bool,
                     rows: seq<Param>, done: bool, st: Status)
    requires m.status == MfdNextline && Live(h, m, rows) && (h.on ==> back0 == [])
    requires NextlineDone(m, m', found, n, back0, back, backEos, done, st)
    ensures Turned(h, h, m, m', rows, rows, back0, back, backEos, done, st)
  {
    NextlineFollowsAll(m, m', found, n, back0, back, backEos, rows, done, st);
    if h.on {
      NextlineHope(h, m, m', found, n, back, backEos, rows, done, st);
    }
  }

  lemma NextlineHope(h: Hope, m: MState, m': MState, found: Status, n: nat, back: bytes, backEos: bool,
                     rows: seq<Param>, done: bool, st: Status)
    requires m.status == MfdNextline && h.on && Live(h, m, rows)
    requires NextlineDone(m, m', found, n, [], back, backEos, done, st)
    ensures if done then Kept(h, m', rows, back, backEos, st) else Live(h, m', rows)
  {
    if h.td.parts == [] && h.tail.after.None? {
      LastLine(m, h.td, h.tail, h.coming, n, found);
      if found == Incomplete { NextlineWaits(h, m, n, rows); }
      assert rows + [] == rows;
    } else {
      NextlineSearch(m, h.td, h.tail, h.coming, n, found);
      if found == Success {
        NextlineFound(h, m, m', n, back, backEos, rows, done);
      } else {
        NextlineWaits(h, m, n, rows);
      }
    }
  }

  lemma NextlineFound(h: Hope, m: MState, m': MState, n: nat, back: bytes, backEos: bool, rows: seq<Param>, done: bool)
    requires m.status == MfdNextline && h.on && Live(h, m, rows) && n + 2 <= |m.inb|
    requires h.td.parts == [] ==> h.tail.after.Some?
    requires m.acc + m.inb[..n] == LineOf(h.td.parts, h.tail.close)
    requires m.inb[n + 2..] + h.coming == BehindLine(m, h.td, h.tail)
    requires LineDone(m, m', m.acc + m.inb[..n], m.inb[n + 2..], [], back, backEos, done)
    ensures if done then Kept(h, m', rows, back, backEos, Success) else Live(h, m', rows)
  {
    NextlineStep(m, h.td, h.tail, h.coming, m.inb[n + 2..], m.acc + m.inb[..n]);
    assert [] + m.inb[n + 2..] == m.inb[n + 2..];
    assert rows + [] == rows;
  }

  lemma NextlineWaits(h: Hope, m: MState, n: nat, rows: seq<Param>)
    requires m.status == MfdNextline && h.on && Live(h, m, rows) && n <= |m.inb| && !m.eos
    requires NextlineExpect(m.(inb := m.inb[n..], acc := m.acc + m.inb[..n]), h.td, h.tail, h.coming)
    ensures Kept(h, m.(inb := m.inb[n..], acc := m.acc + m.inb[..n]), rows, [], false, Incomplete)
  {
  }

  lemma HeaderTurn(h: Hope, m: MState, m': MState, rows: seq<Param>, back: bytes, done: bool, st: Status)
    requires m.status == MfdHeader && Live(h, m, rows) && HeaderDone(m, m', done, st) && (h.on ==> back == [])
    ensures Turned(h, h, m, m', rows, rows, back, back, false, done, st)
  {
    HeaderWeighs(m, m', done, st);
    HeaderFollowsAll(m, m', rows, done, st);
    if h.on {
      HeaderStep(m, h.td, h.tail, h.coming, m'.hdr, m'.info.value, m'.inb, m'.eos, st);
    }
  }

  lemma HeaderWeighs(m: MState, m': MState, done: bool, st: Status)
    requires m.status == MfdHeader && HeaderDone(m, m', done, st)
    ensures Weight(m') <= Weight(m)
    ensures !done ==> Descends(m, m')
  {
    RunWeighs(if m.info.Some? then m.hdr else Init, m.inb);
  }

  /** The parts to be finished once the current one has been classified. */
  ghost function Descended(h: Hope): Hope {
    if h.td.parts != [] && h.td.parts[0].body.Multi?
    then h.(td := h.td.(inner := Some(Todo(h.td.parts[0].body.parts, None))))
    else h
  }

  ghost function Advanced(h: Hope): Hope {
    if h.td.parts != [] then h.(td := Todo(h.td.parts[1..], None)) else h
  }

  lemma PostHeaderTurn(h: Hope, m: MState, m': MState, rows: seq<Param>, back: bytes, st: Status)
    requires m.status == MfdPostHeader && Live(h, m, rows) && m.next.None? && (h.on ==> back == [])
    requires StartOutcome(Dashed(m.bdry), m.inb, m.eos, st) && PostHeaderDone(m, m', st)
    ensures
      var h' := if st == Incomplete then h else Descended(h);
      Turned(h, h', m, m', rows, rows, back, back, false, st == Incomplete, st)
  {
    PostHeaderWeighs(m, m', st);
    PostHeaderFollowsAll(m, m', rows, st);
    if h.on && st != Incomplete {
      PostHeaderHope(h, m, m', rows, st);
    }
  }

  lemma PostHeaderWeighs(m: MState, m': MState, st: Status)
    requires m.status == MfdPostHeader && PostHeaderDone(m, m', st)
    ensures Weight(m') <= Weight(m)
    ensures st != Incomplete ==> Descends(m, m')
  {
    var k := Classify(m.info.value, m.pname, m.level);
    EnteredWeighs(m, k, Reopened(m.inb, st));
  }

  lemma EnteredWeighs(m: MState, k: Kind, S: bytes)
    requires m.status == MfdPostHeader && m.info.Some? && |S| <= |m.inb| + 2
    ensures Weight(Entered(m, k, S)) <= Weight(m)
    ensures Descends(m, Entered(m, k, S))
  {
  }

  lemma PostHeaderHope(h: Hope, m: MState, m': MState, rows: seq<Param>, st: Status)
    requires m.status == MfdPostHeader && Live(h, m, rows) && h.on && st != Incomplete
    requires StartOutcome(Dashed(m.bdry), m.inb, m.eos, st) && PostHeaderDone(m, m', st)
    ensures Live(Descended(h), m', rows)
  {
    var k := Classify(m.info.value, m.pname, m.level);
    var S := Reopened(m.inb, st);
    RowsUnfold(m, h.td);
    if h.td.parts[0].body.Leaf? {
      PostHeaderLeaf(m, h.td, h.tail, h.coming, st);
      if k.Field? {
        FieldRows(m, h.td, k, S);
      } else if k.Upload? {
        UploadRows(m, h.td, k, S);
      }
    } else {
      PostHeaderNested(m, h.td, h.tail, h.coming, st);
      if k.Nested? {
        NestedRows(m, h.td, k, S);
      }
    }
  }

  lemma LeafDescends(m: MState, m': MState, n: nat, st: Status)
    requires m.bdry != [] && (m.status == MfdParam || m.status == MfdUpload) && SplitOutcome(Delim(m.bdry), m.inb, m.eos, n, st)
    requires m'.status != MfdHeader && m'.status != MfdPostHeader && m'.status != MfdMixed
    requires st == Success ==> m'.inb == m.inb[n + |Delim(m.bdry)|..] && m'.acc == []
    requires st != Success ==> m'.inb == m.inb[n..] && |m'.acc| <= |m.acc| + n
    ensures Weight(m') <= Weight(m)
    ensures st == Success ==> Descends(m, m')
  {
  }

  lemma ParamTurn(h: Hope, m: MState, m': MState, n: nat, rows0: seq<Param>, rows: seq<Param>, back: bytes, done: bool,
                  st: Status)
    requires m.status == MfdParam && m.bdry != [] && Live(h, m, rows0) && ParamDone(m, m', n, rows0, rows, done, st)
    requires h.on ==> back == []
    ensures Turned(h, if done then h else Advanced(h), m, m', rows0, rows, back, back, false, done, st)
  {
    LeafDescends(m, m', n, st);
    ParamFollowsAll(m, m', n, rows0, rows, done, st);
    if h.on {
      ParamHope(h, m, m', n, rows0, rows, done, st);
    }
  }

  lemma ParamHope(h: Hope, m: MState, m': MState, n: nat, rows0: seq<Param>, rows: seq<Param>, done: bool, st: Status)
    requires m.status == MfdParam && h.on && Live(h, m, rows0) && ParamDone(m, m', n, rows0, rows, done, st)
    ensures if done then Kept(h, m', rows, [], false, st) else Live(Advanced(h), m', rows)
  {
    LeafSearch(m, m.acc, h.td, None, h.tail, h.coming, n, st);
    if st == Success {
      ParamFound(h, m, n, rows0);
    } else {
      ParamWaits(h, m, n, rows0);
    }
  }

  lemma ParamFound(h: Hope, m: MState, n: nat, rows0: seq<Param>)
    requires m.status == MfdParam && h.on && Live(h, m, rows0) && n + |Delim(m.bdry)| <= |m.inb|
    requires m.acc + m.inb[..n] == h.td.parts[0].body.content
    requires m.inb[n + |Delim(m.bdry)|..] + h.coming == After(m, h.td, h.tail)
    ensures
      var rest := m.inb[n + |Delim(m.bdry)|..];
      Live(Advanced(h), m.(status := MfdNextline, inb := rest, acc := [], pname := None),
           rows0 + [LeafRow(Field(m.pname.value), m.acc + m.inb[..n], m.info.value)])
  {
    PartDone(m, h.td, None, h.tail, h.coming, m.inb[n + |Delim(m.bdry)|..]);
    Assoc(rows0, [LeafRow(Field(m.pname.value), m.acc + m.inb[..n], m.info.value)], Rows(h.td.parts[1..], None, m.level));
  }

  lemma ParamWaits(h: Hope, m: MState, n: nat, rows0: seq<Param>)
    requires m.status == MfdParam && h.on && Live(h, m, rows0) && n <= |m.inb| && !m.eos
    requires LeafExpect(m.(inb := m.inb[n..]), m.acc + m.inb[..n], h.td, None, h.tail, h.coming)
    ensures Kept(h, m.(inb := m.inb[n..], acc := m.acc + m.inb[..n]), rows0, [], false, Incomplete)
  {
  }

  lemma UploadTurn(h: Hope, m: MState, m': MState, n: nat, rows0: seq<Param>, rows: seq<Param>, back: bytes,
                   done: bool, st: Status)
    requires m.status == MfdUpload && m.bdry != [] && Live(h, m, rows0) && UploadDone(m, m', n, rows0, rows, done, st)
    requires h.on ==> back == []
    ensures Turned(h, if done then h else Advanced(h), m, m', rows0, rows, back, back, false, done, st)
  {
    LeafDescends(m, m', n, st);
    UploadFollowsAll(m, m', n, rows0, rows, done, st);
    if h.on {
      UploadHope(h, m, m', n, rows0, rows, done, st);
    }
  }

  lemma UploadHope(h: Hope, m: MState, m': MState, n: nat, rows0: seq<Param>, rows: seq<Param>, done: bool, st: Status)
    requires m.status == MfdUpload && h.on && Live(h, m, rows0) && UploadDone(m, m', n, rows0, rows, done, st)
    ensures if done then Kept(h, m', rows, [], false, st) else Live(Advanced(h), m', rows)
  {
    LeafSearch(m, m.upload.upload.value, h.td, m.pname, h.tail, h.coming, n, st);
    assert m.acc + m.inb[..n] == m.inb[..n];
    if st == Success {
      UploadFound(h, m, n, rows0);
    } else {
      UploadWaits(h, m, n, rows0);
    }
  }

  lemma UploadFound(h: Hope, m: MState, n: nat, rows0: seq<Param>)
    requires m.status == MfdUpload && h.on && Live(h, m, rows0) && n + |Delim(m.bdry)| <= |m.inb|
    requires m.upload.upload.value + (m.acc + m.inb[..n]) == h.td.parts[0].body.content
    requires m.inb[n + |Delim(m.bdry)|..] + h.coming == After(m, h.td, h.tail)
    ensures
      var rest := m.inb[n + |Delim(m.bdry)|..];
      Live(Advanced(h), m.(status := MfdNextline, inb := rest, acc := [], upload := Uploaded(m, n)), rows0 + [Uploaded(m, n)])
  {
    PartDone(m, h.td, m.pname, h.tail, h.coming, m.inb[n + |Delim(m.bdry)|..]);
    Assoc(rows0, [Uploaded(m, n)], Rows(h.td.parts[1..], m.pname, m.level));
  }

  lemma UploadWaits(h: Hope, m: MState, n: nat, rows0: seq<Param>)
    requires m.status == MfdUpload && h.on && Live(h, m, rows0) && n <= |m.inb| && !m.eos
    requires LeafExpect(m.(inb := m.inb[n..]), m.upload.upload.value + (m.acc + m.inb[..n]), h.td, m.pname, h.tail, h.coming)
    ensures Kept(h, m.(inb := m.inb[n..], acc := [], upload := Uploaded(m, n)), rows0, [], false, Incomplete)
  {
  }

  /** What the sender of a nested message hopes for. */
  ghost function InnerHope(h: Hope, m: MState, rows: seq<Param>): Hope {
    if h.on && h.td.parts != [] && h.td.inner.Some? && m.next.Some?
    then Hope(true, h.td.inner.value, InnerTail(m, h.td, h.tail), h.coming, h.eos,
              rows + RowsTodo(m.next.value, h.td.inner.value))
    else h.(on := false)
  }

  ghost function Rejoined(h: Hope, ih: Hope): Hope { h.(td := h.td.(inner := Some(ih.td))) }

  /** A call starts in the middle of a message, and what it brings has not been taken in. */
  ghost predicate Started(h: Hope, m: MState, rows: seq<Param>, back: bytes, backEos: bool) {
    h.on ==>
      && NoEos(m) && m.status != MfdComplete && Expect(m, h.td, h.tail, back + h.coming)
      && backEos == h.eos && (h.eos ==> h.coming == [])
      && rows + RowsTodo(m, h.td) == h.goal
  }

  /** Bytes that move from a call's brigade into the parser are no longer to come. */
  lemma ExpectMoves(m: MState, td: Todo, tail: Tail, x: bytes, coming: bytes, e: bool)
    requires Expect(m, td, tail, x + coming)
    ensures Expect(m.(inb := m.inb + x, eos := e), td, tail, coming)
  {
    assert m.inb + (x + coming) == (m.inb + x) + coming;
  }

  /** What a call brings has joined what the parser holds. */
  function Fed(m: MState, x: bytes, e: bool): MState { if m.eos then m else m.(inb := m.inb + x, eos := e) }

  lemma StartedIsLive(h: Hope, m: MState, rows: seq<Param>, x: bytes, e: bool, m': MState)
    requires Started(h, m, rows, x, e) && m.status != MfdComplete
    requires m' == Fed(m, x, e)
    ensures Live(h, m', rows)
    ensures Weight(m') <= Weight(m) + |x|
  {
    if h.on {
      ExpectMoves(m, h.td, h.tail, x, h.coming, e);
    }
  }

  lemma MixedStarts(h: Hope, m: MState, rows: seq<Param>)
    requires m.status == MfdMixed && m.next.Some? && Live(h, m, rows)
    ensures Started(InnerHope(h, m, rows), m.next.value, rows, m.inb, m.eos)
  {
  }

  /** The nested parser has returned, m1 holding what it gave back. */
  ghost predicate NestedRan(ih: Hope, ih': Hope, m: MState, m1: MState, rows: seq<Param>, rows1: seq<Param>,
                            st: Status)
  {
    && m.next.Some? && m1.next.Some? && SameHope(ih, ih') && rows <= rows1
    && m1 == m.(inb := m1.inb, eos := m1.eos, next := m1.next)
    && m1.next.value.bdry == m.next.value.bdry && m1.next.value.level == m.next.value.level
    && Weight(m1.next.value) + |m1.inb| <= Weight(m.next.value) + |m.inb|
    && Kept(ih', m1.next.value, rows1, m1.inb, m1.eos, st)
  }

  lemma NestedRanIs(ih: Hope, ih': Hope, m: MState, q0: MState, q: MState, x: bytes, e: bool, rows: seq<Param>,
                    rows1: seq<Param>, st: Status)
    requires m.next == Some(q0) && SameHope(ih, ih') && rows <= rows1
    requires q.bdry == q0.bdry && q.level == q0.level && Weight(q) + |x| <= Weight(q0) + |m.inb|
    requires Kept(ih', q, rows1, x, e, st)
    ensures NestedRan(ih, ih', m, m.(inb := x, eos := e, next := Some(q)), rows, rows1, st)
  {
  }

  ghost predicate Settled(m1: MState, m': MState, back0: bytes, back: bytes, backEos: bool, st: Status) {
    if st == Success then
      m' == m1.(status := MfdInit, pname := None, next := None) && back == back0 && !backEos
    else if st == Incomplete then
      m' == m1.(inb := [], eos := false) && back == back0 + m1.inb && backEos == m1.eos
    else
      m' == m1.(status := MfdError, next := None) && back == back0 && !backEos
  }

  lemma MixedTurn(h: Hope, m: MState, m1: MState, ih: Hope, rows: seq<Param>, rows1: seq<Param>,
                  m': MState, back0: bytes, back: bytes, backEos: bool, st: Status)
    requires m.status == MfdMixed && m.next.Some? && Live(h, m, rows) && (h.on ==> back0 == [])
    requires NestedRan(InnerHope(h, m, rows), ih, m, m1, rows, rows1, st)
    requires Settled(m1, m', back0, back, backEos, st)
    ensures Turned(h, if st != Success then Rejoined(h, ih) else Advanced(h), m, m', rows, rows1, back0, back, backEos, st != Success, st)
  {
    if h.on {
      if st == Success {
        MixedEnds(h, m, m1, ih, rows, rows1);
      } else {
        MixedGoesOn(h, m, m1, ih, rows, rows1, st);
        assert [] + m1.inb == m1.inb;
      }
    }
  }

  lemma MixedEnds(h: Hope, m: MState, m1: MState, ih: Hope, rows: seq<Param>, rows1: seq<Param>)
    requires m.status == MfdMixed && m.next.Some? && Live(h, m, rows) && h.on
    requires NestedRan(InnerHope(h, m, rows), ih, m, m1, rows, rows1, Success)
    ensures Live(Advanced(h), m1.(status := MfdInit, pname := None, next := None), rows1)
  {
    var more := Rows(h.td.parts[1..], None, m.level);
    Assoc(rows, RowsTodo(m.next.value, h.td.inner.value), more);
    MixedDone(m, h.td, h.tail, h.coming, m1.inb, m1.eos);
  }

  lemma MixedGoesOn(h: Hope, m: MState, m1: MState, ih: Hope, rows: seq<Param>, rows1: seq<Param>, st: Status)
    requires m.status == MfdMixed && m.next.Some? && Live(h, m, rows) && h.on
    requires NestedRan(InnerHope(h, m, rows), ih, m, m1, rows, rows1, st) && st != Success
    ensures Kept(Rejoined(h, ih), m1.(inb := [], eos := false), rows1, m1.inb, m1.eos, st)
  {
    var more := Rows(h.td.parts[1..], None, m.level);
    Assoc(rows, RowsTodo(m.next.value, h.td.inner.value), more);
    Assoc(rows1, RowsTodo(m1.next.value, ih.td), more);
    assert [] + h.coming == h.coming;
  }
}
