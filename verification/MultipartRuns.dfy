/** Whole runs of the multipart parser: a printed message, cut into any calls and
    buckets, comes back as the rows it was printed from. */
module MultipartRuns {
  import opened Bytes
  import opened Brigades
  import opened Multipart
  import opened MultipartProgress
  import opened MultipartOutcome
  import opened MultipartHopes
  import opened MultipartParsers

  /** How many parsers are nested in each other. */
  function Depth(m: MState): nat
    decreases m
  {
    if m.status == MfdMixed && m.next.Some? then 1 + Depth(m.next.value) else 1
  }

  /** A parser on level k has at most 8 - k others below it. */
  lemma {:induction false} NestsAtMostEightDeep(p: MultipartParser)
    requires p.Valid()
    ensures p.level + Depth(p.Abs()) <= MAX_LEVEL + 1
    decreases p.Repr, MAX_LEVEL - p.level
  {
    if p.status == MfdMixed {
      NestsAtMostEightDeep(p.next);
    }
  }

  /** The message as its sender sees it before anything has been sent. */
  ghost function WholeMessage(parts: seq<Part>, b: bytes, tail: Tail): bytes {
    Dashed(b) + Lines(parts, b, tail)
  }

  ghost function HopeFor(td: Todo, tail: Tail, calls: seq<seq<bytes>>, i: nat, goal: seq<Param>): Hope
    requires i < |calls|
  {
    Hope(true, td, tail, Joined(calls[i + 1..]), i + 1 == |calls|, goal)
  }

  /** Before the call i the message is under way. */
  ghost predicate Between(m: MState, td: Todo, tail: Tail, calls: seq<seq<bytes>>, i: nat, rows: seq<Param>,
                          goal: seq<Param>)
  {
    && i < |calls| && NoEos(m) && m.status != MfdComplete && Expect(m, td, tail, Joined(calls[i..]))
    && rows + RowsTodo(m, td) == goal
  }

  lemma JoinedFront(calls: seq<seq<bytes>>, i: nat)
    requires i < |calls|
    ensures Joined(calls[i..]) == Flatten(calls[i]) + Joined(calls[i + 1..])
    ensures i + 1 == |calls| ==> Joined(calls[i + 1..]) == []
  {
    assert calls[i..][1..] == calls[i + 1..];
  }

  lemma CallStarts(m: MState, td: Todo, tail: Tail, calls: seq<seq<bytes>>, i: nat, rows: seq<Param>, goal: seq<Param>)
    requires Between(m, td, tail, calls, i, rows, goal)
    ensures Started(HopeFor(td, tail, calls, i, goal), m, rows, Flatten(calls[i]), i + 1 == |calls|)
  {
    JoinedFront(calls, i);
  }

  lemma RunStarts(parts: seq<Part>, b: bytes, tail: Tail, calls: seq<seq<bytes>>)
    requires calls != [] && b != [] && NoCR(b) && NoCR(tail.close)
    requires PartsOk(parts, b, None, 1) && Joined(calls) == WholeMessage(parts, b, tail)
    ensures Between(Fresh(b, None, 1), Todo(parts, None), tail, calls, 0, [], Rows(parts, None, 1))
  {
    assert calls[0..] == calls;
    assert [] + Joined(calls) == Joined(calls);
  }

  /** How the call i may end: the message is complete, or the next call finds it under way. */
  ghost predicate CallEnded(m: MState, td: Todo, tail: Tail, calls: seq<seq<bytes>>, i: nat, rows: seq<Param>,
                            goal: seq<Param>, back: bytes, st: Status)
  {
    && i < |calls|
    && if st == Success then
         rows == goal && (tail.after.Some? ==> back + Joined(calls[i + 1..]) == tail.after.value)
       else
         Between(m, td, tail, calls, i + 1, rows, goal)
  }

  lemma CallEnds(h: Hope, tail: Tail, calls: seq<seq<bytes>>, i: nat, m: MState, rows: seq<Param>, goal: seq<Param>,
                 back: bytes, backEos: bool, st: Status)
    requires i < |calls| && h == HopeFor(h.td, tail, calls, i, goal)
    requires Kept(h, m, rows, back, backEos, st)
    ensures CallEnded(m, h.td, tail, calls, i, rows, goal, back, st)
  {
  }

  /** One call of the parser with the buckets calls[i]. */
  method Feed(parser: MultipartParser, t: Table<Param>, inb: Brigade, calls: seq<seq<bytes>>, i: nat,
              ghost td: Todo, ghost tail: Tail, ghost goal: seq<Param>)
    returns (st: Status, ghost td': Todo)
    requires parser.Valid() && inb !in parser.Repr && t !in parser.Repr
    requires Between(parser.Abs(), td, tail, calls, i, t.rows, goal)
    modifies parser.Repr, t, inb
    ensures parser.Valid() && fresh(parser.Repr - old(parser.Repr)) && old(parser.Repr) <= parser.Repr
    ensures CallEnded(parser.Abs(), td', tail, calls, i, t.rows, goal, inb.Stream(), st)
  {
    inb.list, inb.eos := calls[i], i + 1 == |calls|;
    ghost var h;
    CallStarts(parser.Abs(), td, tail, calls, i, t.rows, goal);
    st, h := parser.Parse(t, inb, HopeFor(td, tail, calls, i, goal));
    td' := h.td;
    CallEnds(h, tail, calls, i, parser.Abs(), t.rows, goal, inb.Stream(), inb.eos, st);
  }

  /** create_multipart_context from the content type of the request; without a boundary
      there is no parser, and every call answers APREQ_ERROR_GENERAL. */
  method Open(ct: bytes) returns (parser: MultipartParser?)
    ensures parser == null <==> BoundaryOf(ct) == None
    ensures parser != null ==>
              parser.Valid() && fresh(parser.Repr) && parser.Abs() == Fresh(BoundaryOf(ct).value, None, 1)
  {
    match BoundaryOf(ct)
    case None => parser := null;
    case Some(b) => parser := new MultipartParser(b, 1, None);
  }

  /** Any printed message in any calls and buckets, the last call ending in EOS: the
      parser succeeds with exactly the rows of the message. If anything follows the
      closing line, the call that completes gives it back. */
  method ParseMessage(ct: bytes, calls: seq<seq<bytes>>, ghost parts: seq<Part>, ghost tail: Tail)
    returns (st: Status, rows: seq<Param>, back: bytes, ghost used: nat)
    requires calls != [] && BoundaryOf(ct).Some? && NoCR(BoundaryOf(ct).value) && NoCR(tail.close)
    requires PartsOk(parts, BoundaryOf(ct).value, None, 1)
    requires Joined(calls) == WholeMessage(parts, BoundaryOf(ct).value, tail)
    ensures st == Success && rows == Rows(parts, None, 1) && 0 < used <= |calls|
    ensures tail.after.Some? ==> back + Joined(calls[used..]) == tail.after.value
  {
    ghost var b := BoundaryOf(ct).value;
    var parser := Open(ct);
    var t := new Table<Param>();
    var inb := new Brigade();
    RunStarts(parts, b, tail, calls);
    st, rows, back, used := RunCalls(parser, t, inb, calls, Todo(parts, None), tail, Rows(parts, None, 1));
  }

  /** The calls, one after the other, until the message is complete. */
  method RunCalls(parser: MultipartParser, t: Table<Param>, inb: Brigade, calls: seq<seq<bytes>>,
                  ghost td0: Todo, ghost tail: Tail, ghost goal: seq<Param>)
    returns (st: Status, rows: seq<Param>, back: bytes, ghost used: nat)
    requires parser.Valid() && inb !in parser.Repr && t !in parser.Repr
    requires Between(parser.Abs(), td0, tail, calls, 0, t.rows, goal)
    modifies parser.Repr, t, inb
    ensures st == Success && rows == goal && 0 < used <= |calls|
    ensures tail.after.Some? ==> back + Joined(calls[used..]) == tail.after.value
  {
    ghost var td := td0;
    st := Incomplete;
    var i := 0;
    while true
      invariant 0 <= i < |calls| && parser.Valid() && fresh(parser.Repr - old(parser.Repr))
      invariant old(parser.Repr) <= parser.Repr
      invariant inb !in parser.Repr && t !in parser.Repr
      invariant Between(parser.Abs(), td, tail, calls, i, t.rows, goal)
      decreases |calls| - i
    {
      st, td := Feed(parser, t, inb, calls, i, td, tail, goal);
      i := i + 1;
      if st == Success {
        return st, t.rows, inb.Stream(), i;
      }
    }
  }

  // ------------------------------------------------------------ any body

  /** Between two calls: what is still to come makes the outcome of the whole. */
  ghost predicate Onward(m: MState, calls: seq<seq<bytes>>, i: nat, rows: seq<Param>, f: Final) {
    i < |calls| && Regular(m) && !m.eos &&
    var g := Ahead(m, Joined(calls[i..]));
    g.known && g.st == f.st && rows + g.rows == f.rows
  }

  /** How the call i leaves it: with the outcome, or under way. */
  ghost predicate OnwardAfter(m: MState, calls: seq<seq<bytes>>, i: nat, rows: seq<Param>, f: Final, st: Status) {
    if st != Incomplete then rows == f.rows && st == f.st else Onward(m, calls, i + 1, rows, f)
  }

  lemma CallFollows(m: MState, m': MState, calls: seq<seq<bytes>>, i: nat, rows: seq<Param>, rows': seq<Param>,
                    f: Final, st: Status)
    requires Onward(m, calls, i, rows, f)
    requires FollowsAll(MultipartHopes.Fed(m, Flatten(calls[i]), i + 1 == |calls|), m', rows, rows', true, st)
    ensures OnwardAfter(m', calls, i, rows', f, st)
  {
    var x, coming := Flatten(calls[i]), Joined(calls[i + 1..]);
    var m0 := MultipartHopes.Fed(m, x, i + 1 == |calls|);
    JoinedFront(calls, i);
    assert (m.inb + x) + coming == m.inb + (x + coming);
    assert Ahead(m0, coming) == Ahead(m, Joined(calls[i..]));
    assert Follows(m0, m', rows, rows', coming, true, st);
  }

  lemma RunIsOnward(b: bytes, calls: seq<seq<bytes>>)
    requires calls != [] && b != [] && NoCR(b) && Outcome(Fresh(b, None, 1), Joined(calls)).known
    ensures Onward(Fresh(b, None, 1), calls, 0, [], Outcome(Fresh(b, None, 1), Joined(calls)))
  {
    var s := Joined(calls);
    assert calls[0..] == calls;
    FreshAhead(b, s);
    var rows := Outcome(Fresh(b, None, 1), s).rows;
    assert [] + rows == rows;
  }

  lemma FreshAhead(b: bytes, s: bytes)
    ensures Ahead(Fresh(b, None, 1), s) == Outcome(Fresh(b, None, 1), s)
  {
    var m := Fresh(b, None, 1);
    assert Key(m) == m && m.inb + s == s;
  }

  const NoHope := Hope(false, Todo([], None), Tail([], None), [], false, [])

  /** One call of the parser with the buckets calls[i], which hopes for nothing */
  method FeedAny(parser: MultipartParser, t: Table<Param>, inb: Brigade, calls: seq<seq<bytes>>, i: nat, ghost f: Final)
    returns (st: Status)
    requires parser.Valid() && inb !in parser.Repr && t !in parser.Repr
    requires Onward(parser.Abs(), calls, i, t.rows, f)
    modifies parser.Repr, t, inb
    ensures parser.Valid() && fresh(parser.Repr - old(parser.Repr)) && old(parser.Repr) <= parser.Repr
    ensures OnwardAfter(parser.Abs(), calls, i, t.rows, f, st)
  {
    inb.list, inb.eos := calls[i], i + 1 == |calls|;
    ghost var m, rows, h := parser.Abs(), t.rows, NoHope;
    st, h := parser.Parse(t, inb, NoHope);
    CallFollows(m, parser.Abs(), calls, i, rows, t.rows, f, st);
  }

  /** The calls from call i on, until one of them ends the parse */
  method FeedFrom(parser: MultipartParser, t: Table<Param>, inb: Brigade, calls: seq<seq<bytes>>, i: nat,
                  ghost f: Final)
    returns (st: Status)
    requires parser.Valid() && inb !in parser.Repr && t !in parser.Repr
    requires Onward(parser.Abs(), calls, i, t.rows, f)
    modifies parser.Repr, t, inb
    ensures st == f.st && t.rows == f.rows
    decreases |calls| - i
  {
    st := FeedAny(parser, t, inb, calls, i, f);
    if st == Incomplete {
      st := FeedFrom(parser, t, inb, calls, i + 1, f);
    }
  }

  /** Any body that begins with its boundary and in which no part is a message of its own, in
      any calls and buckets, the last call ending in EOS: the rows, and the status of the
      call that ends the parse, depend on the bytes alone. */
  method ParseAnyBody(ct: bytes, calls: seq<seq<bytes>>) returns (st: Status, rows: seq<Param>)
    requires calls != [] && BoundaryOf(ct).Some? && NoCR(BoundaryOf(ct).value)
    requires Outcome(Fresh(BoundaryOf(ct).value, None, 1), Joined(calls)).known
    ensures
      var f := Outcome(Fresh(BoundaryOf(ct).value, None, 1), Joined(calls));
      st == f.st && rows == f.rows
  {
    ghost var f := Outcome(Fresh(BoundaryOf(ct).value, None, 1), Joined(calls));
    RunIsOnward(BoundaryOf(ct).value, calls);
    var parser := Open(ct);
    var t := new Table<Param>();
    var inb := new Brigade();
    st := FeedFrom(parser, t, inb, calls, 0, f);
    rows := t.rows;
  }
}
