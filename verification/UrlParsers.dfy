/** The urlencoded body parser (library/parser_urlencoded.c): name and value counters over
    a brigade whose buckets are cut where a word's parts end. */
module UrlParsers {
  import opened Bytes
  import opened Brigades
  import opened UrlCodec
  import opened UrlDecoders
  import opened QueryStrings
  import M = UrlMachine
  import W = UrlWords
  import A = UrlAgreement

  // ------------------------------------------------------------ pieces of a word

  /** The pieces lie one behind the other from 0 to p. */
  ghost predicate LaidUpTo(m: bytes, vs: seq<Iovec>, ps: seq<bytes>, i: nat, p: nat) {
    && |vs| == |ps| && i <= |ps| && p == |Flatten(ps[..i])| && p <= |m|
    && forall j :: 0 <= j < i ==> PieceAt(m, vs[j], ps[j]) && vs[j].base + vs[j].len <= p
  }

  lemma LaidNext(m: bytes, next: bytes, vs: seq<Iovec>, ps: seq<bytes>, i: nat, p: nat)
    requires i < |ps| && LaidUpTo(m, vs, ps, i, p)
    requires Holds(next, p, ps[i]) && OnlyAt(m, next, p, |ps[i]|)
    ensures LaidUpTo(next, vs[i := Iovec(p, |ps[i]|)], ps, i + 1, p + |ps[i]|)
  {
    FlattenUpTo(ps, i);
    forall j | 0 <= j < i
      ensures PieceAt(next, vs[j], ps[j])
    {
      HoldsStill(m, next, vs[j].base, ps[j], p, |ps[i]|);
    }
  }

  lemma PrefixFits(ps: seq<bytes>, i: nat)
    requires i < |ps|
    ensures |Flatten(ps[..i])| + |ps[i]| <= |Flatten(ps)|
  {
    FlattenCut(ps, i);
    FlattenFrom(ps, i);
  }

  /** Bucket data in memory, and the vector that describes it. */
  method LayOut(mem: array<byte>, ps: seq<bytes>, total: nat) returns (iov: array<Iovec>)
    requires total == |Flatten(ps)| && 2 * total < mem.Length
    modifies mem
    ensures fresh(iov) && Laid(mem[..], iov[..], ps, total, total + 1)
  {
    iov := new Iovec[|ps|](_ => Iovec(0, 0));
    ghost var now := mem[..];
    var i: nat, p: nat := 0, 0;
    while i < |ps|
      invariant i <= |ps| && now == mem[..] && LaidUpTo(now, iov[..], ps, i, p) && p <= total
    {
      PrefixFits(ps, i);
      ghost var was, vs := now, iov[..];
      now := Store(mem, p, ps[i], now);
      iov[i] := Iovec(p, |ps[i]|);
      LaidNext(was, now, vs, ps, i, p);
      p := p + |ps[i]|;
      i := i + 1;
    }
    assert ps[..i] == ps;
  }

  function TotalLength(ps: seq<bytes>): (n: nat)
    ensures n == |Flatten(ps)|
  {
    if ps == [] then 0 else |ps[0]| + TotalLength(ps[1..])
  }

  /** apreq_decodev on the pieces of a name or a value. */
  method DecodePieces(ps: seq<bytes>) returns (st: Status, out: bytes)
    ensures st == Decode(Flatten(ps)).st && out == Decode(Flatten(ps)).out
  {
    var total := TotalLength(ps);
    var mem := new byte[2 * total + 1];
    var iov := LayOut(mem, ps, total);
    var dlen;
    ghost var o, used;
    st, dlen, o, used := Decodev(mem, total, iov, ps);
    out := mem[total..total + dlen];
    assert out == mem[..][total..total + dlen];
  }

  // ------------------------------------------------------------ taking pieces

  /** The bytes from bucket i to bucket j. */
  ghost function Between(list: seq<bytes>, i: nat, j: nat): bytes
    requires i <= j <= |list|
  {
    Flatten(list[i..j])
  }

  /** text and one more byte lie in the buckets from start to stop, the byte at their end. */
  ghost predicate Closed(list: seq<bytes>, start: nat, stop: nat, text: bytes) {
    && start < stop <= |list| && list[stop - 1] != []
    && |Between(list, start, stop)| == |text| + 1 && Between(list, start, stop)[..|text|] == text
  }

  /** text is all there is from start on. */
  ghost predicate Open(list: seq<bytes>, start: nat, stop: nat, text: bytes) {
    start <= stop == |list| && Between(list, start, stop) == text
  }

  lemma BetweenNext(list: seq<bytes>, i: nat, j: nat)
    requires i <= j < |list|
    ensures Between(list, i, j + 1) == Between(list, i, j) + list[j]
  {
    FlattenSliceNext(list, i, j);
  }

  lemma BetweenCut(list: seq<bytes>, i: nat, j: nat, k: nat)
    requires i <= j <= k <= |list|
    ensures Between(list, i, k) == Between(list, i, j) + Between(list, j, k)
  {
    FlattenSlice(list, i, j, k);
  }

  /** Before the last bucket of a closed stretch there is more to come. */
  lemma MoreToCome(list: seq<bytes>, start: nat, e: nat, stop: nat, text: bytes)
    requires start <= e <= stop
    requires Closed(list, start, stop, text) || Open(list, start, stop, text)
    ensures |Between(list, start, e)| <= |Between(list, start, stop)|
    ensures Closed(list, start, stop, text) && e < stop ==> |Between(list, start, e)| < |text| + 1
  {
    BetweenCut(list, start, e, stop);
    if Closed(list, start, stop, text) && e < stop {
      BetweenNext(list, e, stop - 1);
    }
  }

  lemma Trimmed(list: seq<bytes>, start: nat, stop: nat, text: bytes)
    requires Closed(list, start, stop, text)
    ensures
      var last := list[stop - 1];
      Flatten(list[start..stop - 1] + [last[..|last| - 1]]) == text
  {
    var last := list[stop - 1];
    BetweenNext(list, start, stop - 1);
    FlattenConcat(list[start..stop - 1], [last[..|last| - 1]]);
    FlattenOne(last[..|last| - 1]);
    var all := Between(list, start, stop);
    assert all[..|all| - 1] == Between(list, start, stop - 1) + last[..|last| - 1];
  }

  /** The pieces of a name or a value: up to and without the byte that ends it, or up to
      the end of the buckets. */
  method TakePieces(list: seq<bytes>, start: nat, len: nat, ghost stop: nat, ghost text: bytes)
    returns (pieces: seq<bytes>, e: nat)
    requires |text| == len && (Closed(list, start, stop, text) || Open(list, start, stop, text))
    ensures e == stop && Flatten(pieces) == text
  {
    pieces, e := [], start;
    var left := len + 1;
    while e < |list|
      invariant start <= e <= stop && pieces == list[start..e] && left == len + 1 - |Between(list, start, e)|
      invariant Closed(list, start, stop, text) ==> e < stop
    {
      MoreToCome(list, start, e + 1, stop, text);
      BetweenNext(list, start, e);
      pieces, left, e := pieces + [list[e]], left - |list[e]|, e + 1;
      if left == 0 {
        Trimmed(list, start, stop, text);
        var last := pieces[|pieces| - 1];
        pieces := pieces[..|pieces| - 1] + [last[..|last| - 1]];
        assert pieces == list[start..stop - 1] + [last[..|last| - 1]];
        return;
      }
    }
  }

  // ------------------------------------------------------------ the buckets of the current word

  /** What the cursor (e, off) has passed: the name, or the name, '=' and the value, with
      a bucket boundary behind the '='. */
  ghost predicate Held(list: seq<bytes>, e: nat, off: nat, status: M.UStatus, name: bytes, val: bytes, ni: nat) {
    && e <= |list| && (off > 0 ==> e < |list| && off <= |list[e]|)
    && var part := if off > 0 then list[e][..off] else [];
       match status
       case UrlName => val == [] && Flatten(list[..e]) + part == name
       case UrlValue => ni <= e && Closed(list, 0, ni, name) && Between(list, ni, e) + part == val
       case _ => true
  }

  /** split_urlword: the parameter and the number of buckets it takes. */
  method SplitUrlword(list: seq<bytes>, nlen: nat, vlen: nat,
                      ghost ni: nat, ghost stop: nat, ghost name: bytes, ghost val: bytes)
    returns (r: Outcome, k: nat)
    requires nlen == |name| && vlen == |val| && Closed(list, 0, ni, name)
    requires Closed(list, ni, stop, val) || Open(list, ni, stop, val)
    ensures r == DecodeWord(name, val) && (r.Row? ==> k == stop)
  {
    if nlen == 0 {
      return Refused(BadArg), 0;
    }
    var names, values, e, st, v, n;
    names, e := TakePieces(list, 0, nlen, ni, name);
    values, e := TakePieces(list, e, vlen, stop, val);
    st, v := DecodePieces(values);
    if st != Success {
      return Refused(st), 0;
    }
    var charset := Charsets.CharsetDivine(v);
    st, n := DecodePieces(names);
    if st != Success {
      return Refused(st), 0;
    }
    var c := Charsets.CharsetDivine(n);
    return Row(Param(n, v, None, [], MergeCharsets(charset, c), true)), e;
  }

  class UrlParser {
    const bb: Brigade
    var nlen: nat
    var vlen: nat
    var status: M.UStatus
    ghost var name: bytes
    ghost var val: bytes
    ghost var err: Status
    ghost var ni: nat

    constructor ()
      ensures fresh(bb) && bb.list == [] && !bb.eos && Reads(0, 0)
      ensures status == M.UrlName && name == [] && val == [] && err == Success
    {
      bb := new Brigade();
      nlen, vlen, status := 0, 0, M.UrlName;
      name, val, err, ni := [], [], Success, 0;
    }

    /** The machine's state, with the table the rows go to. */
    ghost function State(t: Table<Param>): M.UState
      reads this, t
    {
      M.UState(status, name, val, t.rows, err)
    }

    /** The counters are the lengths of the parts, and the buckets hold them. */
    ghost predicate Reads(e: nat, off: nat)
      reads this, bb
    {
      && (status == M.UrlName || status == M.UrlValue ==> nlen == |name| && vlen == |val|)
      && Held(bb.list, e, off, status, name, val, ni)
    }

    /** Between two calls all buckets have been read. */
    ghost predicate Valid()
      reads this, bb
    {
      Reads(|bb.list|, 0) && !bb.eos
    }

    /** URL_NAME */
    method NameByte(t: Table<Param>, e: nat, off: nat) returns (e2: nat, off2: nat)
      requires status == M.UrlName && Reads(e, off) && e < |bb.list| && off < |bb.list[e]|
      modifies this, bb`list
      ensures State(t) == M.Step(old(State(t)), old(bb.list)[e][off]) && Reads(e2, off2)
      ensures Rest(old(bb.list), e, off) == [old(bb.list)[e][off]] + Rest(bb.list, e2, off2)
    {
      var ch := bb.list[e][off];
      if ch == EQUALS {
        NameEnds(bb.list, e, off, name);
        bb.Split(e, off + 1);
        status, ni := M.UrlValue, e + 1;
        e2, off2 := e + 1, 0;
      } else {
        NameGrows(bb.list, e, off, name);
        nlen := nlen + 1;
        name := name + [ch];
        e2, off2 := e, off + 1;
      }
    }

    /** The word that ends in front of bucket stop: a row for the table, or the end of the
        parse. */
    method FinishWord(t: Table<Param>, ghost stop: nat, done: M.UStatus) returns (st: Status)
      requires status == M.UrlValue && nlen == |name| && vlen == |val| && Closed(bb.list, 0, ni, name)
      requires done != M.UrlError
      requires Closed(bb.list, ni, stop, val) || Open(bb.list, ni, stop, val)
      modifies this, bb`list, t
      ensures State(t) == M.FinishWord(old(State(t)), done)
      ensures st == Success <==> status != M.UrlError
      ensures st != Success ==> st == err && bb.list == old(bb.list)
      ensures st == Success ==> bb.list == old(bb.list)[stop..] && nlen == 0 && vlen == 0
    {
      var r, k := SplitUrlword(bb.list, nlen, vlen, ni, stop, name, val);
      match r
      case Refused(error) =>
        st, status, err := error, M.UrlError, error;
      case Row(p) =>
        st := Success;
        AddWord(t, k, p, done);
    }

    /** The word is a row: its first k buckets go, and the counters start over. */
    method AddWord(t: Table<Param>, k: nat, p: Param, done: M.UStatus)
      requires k <= |bb.list|
      modifies this, bb`list, t
      ensures State(t) == M.UState(done, [], [], old(t.rows) + [p], Success)
      ensures bb.list == old(bb.list)[k..] && nlen == 0 && vlen == 0
    {
      bb.DeleteFirst(k);
      t.rows := t.rows + [p];
      status, err := done, Success;
      nlen, vlen, name, val := 0, 0, [], [];
    }

    /** A separator ends the value, and its bucket. */
    method EndValue(t: Table<Param>, e: nat, off: nat) returns (e2: nat, off2: nat, st: Status)
      requires status == M.UrlValue && Reads(e, off) && e < |bb.list| && off < |bb.list[e]|
      modifies this, bb`list, t
      ensures State(t) == M.FinishWord(old(State(t)), M.UrlName) && Reads(e2, off2)
      ensures Rest(old(bb.list), e, off) == [old(bb.list)[e][off]] + Rest(bb.list, e2, off2)
      ensures if status == M.UrlError then st == err && st != Success else st == Success
    {
      ValueEnds(bb.list, e, off, name, val, ni);
      bb.Split(e, off + 1);
      st := FinishWord(t, e + 1, M.UrlName);
      e2, off2 := if st == Success then 0 else e + 1, 0;
    }

    /** URL_VALUE */
    method ValueByte(t: Table<Param>, e: nat, off: nat) returns (e2: nat, off2: nat, st: Status)
      requires status == M.UrlValue && Reads(e, off) && e < |bb.list| && off < |bb.list[e]|
      modifies this, bb`list, t
      ensures State(t) == M.Step(old(State(t)), old(bb.list)[e][off]) && Reads(e2, off2)
      ensures Rest(old(bb.list), e, off) == [old(bb.list)[e][off]] + Rest(bb.list, e2, off2)
      ensures if status == M.UrlError then st == err && st != Success else st == Success
    {
      var ch := bb.list[e][off];
      if ch == AMP || ch == SEMI {
        e2, off2, st := EndValue(t, e, off);
      } else {
        ValueGrows(bb.list, e, off, name, val, ni);
        vlen := vlen + 1;
        val := val + [ch];
        e2, off2, st := e, off + 1, Success;
      }
    }

    /** One turn of the loop over the buckets: a byte, or the next bucket. */
    method Turn(t: Table<Param>, e: nat, off: nat) returns (e2: nat, off2: nat, st: Status)
      requires (status == M.UrlName || status == M.UrlValue) && Reads(e, off) && e < |bb.list|
      modifies this, bb`list, t
      ensures Reads(e2, off2)
      ensures M.Run(old(State(t)), Rest(old(bb.list), e, off)) == M.Run(State(t), Rest(bb.list, e2, off2))
      ensures if status == M.UrlError then st == err && st != Success else st == Success && status != M.UrlComplete
      ensures |Rest(bb.list, e2, off2)| < |Rest(old(bb.list), e, off)|
           || (|Rest(bb.list, e2, off2)| == |Rest(old(bb.list), e, off)| && |bb.list| - e2 < |old(bb.list)| - e)
    {
      st := Success;
      if off == |bb.list[e]| {
        BucketDone(bb.list, e, off, status, name, val, ni);
        e2, off2 := e + 1, 0;
      } else {
        ghost var rest, ch := Rest(bb.list, e, off), bb.list[e][off];
        if status == M.UrlName {
          e2, off2 := NameByte(t, e, off);
        } else {
          e2, off2, st := ValueByte(t, e, off);
        }
        assert rest[0] == ch && rest[1..] == Rest(bb.list, e2, off2);
      }
    }

    /** The loop over the buckets a call adds. */
    method Scan(t: Table<Param>, start: nat, ghost h0: M.UState, ghost all: bytes)
      returns (st: Status, ghost e: nat, ghost off: nat)
      requires status == M.UrlName || status == M.UrlValue
      requires Reads(start, 0) && M.Run(h0, all) == M.Run(State(t), Rest(bb.list, start, 0))
      modifies this, bb`list, t
      ensures M.Run(h0, all) == State(t) && status != M.UrlComplete
      ensures if status == M.UrlError then st == err && st != Success else st == Success && Reads(|bb.list|, 0)
    {
      st := Success;
      var i: nat, o: nat := start, 0;
      while i < |bb.list|
        invariant (status == M.UrlName || status == M.UrlValue) && st == Success
        invariant Reads(i, o) && M.Run(h0, all) == M.Run(State(t), Rest(bb.list, i, o))
        decreases |Rest(bb.list, i, o)|, |bb.list| - i
      {
        i, o, st := Turn(t, i, o);
        if st != Success {
          M.RunOver(State(t), Rest(bb.list, i, o));
          return st, i, o;
        }
      }
      e, off := i, o;
      assert Rest(bb.list, i, o) == [];
    }

    /** apreq_parse_urlencoded. A call after the one that brought EOS is not made. */
    method Parse(t: Table<Param>, inb: Brigade) returns (st: Status)
      requires Valid() && inb != bb
      modifies this, bb, inb, t
      ensures old(status) == M.UrlError ==> st == General && State(t) == old(State(t))
      ensures old(status) == M.UrlComplete ==> st == Success && State(t) == old(State(t))
      ensures old(status) != M.UrlError && old(status) != M.UrlComplete ==>
                CallParsed(old(State(t)), old(inb.Stream()), old(inb.eos), State(t), st)
      ensures !old(inb.eos) && (old(status) == M.UrlName || old(status) == M.UrlValue) && status != M.UrlError ==>
                Valid() && (status == M.UrlName || status == M.UrlValue)
    {
      if status == M.UrlError {
        return General;
      } else if status == M.UrlComplete {
        return Success;
      }
      var start := |bb.list|;
      ghost var h0, all := State(t), inb.Stream();
      BehindLast(bb.list, inb.list, status, name, val, ni);
      bb.Concat(inb);
      ghost var e, off;
      st, e, off := Scan(t, start, h0, all);
      if st != Success {
        return;
      }
      if !bb.eos {
        return Incomplete;
      }
      if status == M.UrlValue {
        LastValue(bb.list, name, val, ni);
        st := FinishWord(t, |bb.list|, M.UrlComplete);
      }
      inb.Concat(bb);
    }
  }

  /** What one call makes of the machine: its bytes, and the end of the input with EOS. */
  ghost predicate CallParsed(h0: M.UState, all: bytes, eos: bool, h: M.UState, st: Status) {
    var r := M.Run(h0, all);
    && h == (if eos then M.AtEos(r) else r)
    && st == if h.status == M.UrlError then h.err else if eos then Success else Incomplete
  }

  lemma BucketDone(list: seq<bytes>, e: nat, off: nat, status: M.UStatus, name: bytes, val: bytes, ni: nat)
    requires e < |list| && off == |list[e]| && Held(list, e, off, status, name, val, ni)
    ensures Held(list, e + 1, 0, status, name, val, ni)
    ensures Rest(list, e + 1, 0) == Rest(list, e, off)
  {
    FlattenUpTo(list, e);
    FlattenFrom(list, e);
    assert list[e][..off] == list[e] && list[e][off..] == [];
    if status == M.UrlValue { BetweenNext(list, ni, e); }
  }

  lemma BehindLast(list: seq<bytes>, more: seq<bytes>, status: M.UStatus, name: bytes, val: bytes, ni: nat)
    requires Held(list, |list|, 0, status, name, val, ni)
    ensures Held(list + more, |list|, 0, status, name, val, ni)
    ensures Rest(list + more, |list|, 0) == Flatten(more)
  {
    var all := list + more;
    assert all[..|list|] == list[..|list|] && all[|list|..] == more;
    if status == M.UrlValue {
      assert all[0..ni] == list[0..ni] && all[ni..|list|] == list[ni..|list|] && all[ni - 1] == list[ni - 1];
    }
  }

  lemma LastValue(list: seq<bytes>, name: bytes, val: bytes, ni: nat)
    requires Held(list, |list|, 0, M.UrlValue, name, val, ni)
    ensures Open(list, ni, |list|, val) && Closed(list, 0, ni, name)
  {
    assert Between(list, ni, |list|) + [] == Between(list, ni, |list|);
  }

  lemma ValueGrows(list: seq<bytes>, e: nat, off: nat, name: bytes, val: bytes, ni: nat)
    requires e < |list| && off < |list[e]| && Held(list, e, off, M.UrlValue, name, val, ni)
    ensures Held(list, e, off + 1, M.UrlValue, name, val + [list[e][off]], ni)
    ensures Rest(list, e, off) == [list[e][off]] + Rest(list, e, off + 1)
  {
    RestSteps(list, e, off, list, e, off + 1);
    assert list[e][..off + 1] == list[e][..off] + [list[e][off]];
    assert Between(list, ni, e) + (list[e][..off] + [list[e][off]]) == (Between(list, ni, e) + list[e][..off]) + [list[e][off]];
  }

  /** A separator ends the value: its bucket is cut behind it. */
  lemma ValueEnds(list: seq<bytes>, e: nat, off: nat, name: bytes, val: bytes, ni: nat)
    requires e < |list| && off < |list[e]| && Held(list, e, off, M.UrlValue, name, val, ni)
    ensures
      var cut := SplitAt(list, e, off + 1);
      && Closed(cut, 0, ni, name) && Closed(cut, ni, e + 1, val)
      && Rest(list, e, off) == [list[e][off]] + Rest(cut, e + 1, 0)
      && Rest(cut, e + 1, 0) == Rest(cut[e + 1..], 0, 0)
  {
    var cut := SplitAt(list, e, off + 1);
    SplitParts(list, e, off + 1);
    assert cut[0..ni] == list[0..ni] && cut[ni..e] == list[ni..e] by { assert cut[..e] == list[..e]; }
    assert ni > 0 ==> cut[ni - 1] == list[ni - 1];
    BetweenNext(cut, ni, e);
    assert list[e][..off + 1] == list[e][..off] + [list[e][off]];
    assert Between(list, ni, e) + (list[e][..off] + [list[e][off]]) == (Between(list, ni, e) + list[e][..off]) + [list[e][off]];
    RestStarts(list, e, off);
    FlattenFrom(cut, e + 1);
    assert cut[e + 1..][0..] == cut[e + 1..];
  }

  lemma NameGrows(list: seq<bytes>, e: nat, off: nat, name: bytes)
    requires e < |list| && off < |list[e]| && Held(list, e, off, M.UrlName, name, [], 0)
    ensures Held(list, e, off + 1, M.UrlName, name + [list[e][off]], [], 0)
    ensures Rest(list, e, off) == [list[e][off]] + Rest(list, e, off + 1)
  {
    RestSteps(list, e, off, list, e, off + 1);
    assert list[e][..off + 1] == list[e][..off] + [list[e][off]];
    assert Flatten(list[..e]) + (list[e][..off] + [list[e][off]]) == (Flatten(list[..e]) + list[e][..off]) + [list[e][off]];
  }

  /** The '=' ends the name: its bucket is cut behind it. */
  lemma NameEnds(list: seq<bytes>, e: nat, off: nat, name: bytes)
    requires e < |list| && off < |list[e]| && Held(list, e, off, M.UrlName, name, [], 0)
    ensures Held(SplitAt(list, e, off + 1), e + 1, 0, M.UrlValue, name, [], e + 1)
    ensures Rest(list, e, off) == [list[e][off]] + Rest(SplitAt(list, e, off + 1), e + 1, 0)
  {
    var cut := SplitAt(list, e, off + 1);
    SplitParts(list, e, off + 1);
    FlattenUpTo(cut, e);
    assert cut[0..e + 1] == cut[..e + 1];
    assert list[e][..off + 1] == list[e][..off] + [list[e][off]];
    RestStarts(list, e, off);
    FlattenFrom(cut, e + 1);
  }

  // ------------------------------------------------------------ whole bodies

  /** One call, with the buckets calls[i]. */
  method Feed(parser: UrlParser, t: Table<Param>, inb: Brigade, calls: seq<seq<bytes>>, i: nat, ghost h0: M.UState)
    returns (st: Status)
    requires parser.Valid() && inb != parser.bb && i < |calls|
    requires parser.status == M.UrlName || parser.status == M.UrlValue
    requires parser.State(t) == M.Run(h0, Joined(calls[..i]))
    modifies parser, parser.bb, inb, t
    ensures Fed(calls, i, h0, parser.State(t), st)
    ensures i + 1 < |calls| && parser.status != M.UrlError ==>
              parser.Valid() && (parser.status == M.UrlName || parser.status == M.UrlValue)
  {
    inb.list, inb.eos := calls[i], i + 1 == |calls|;
    CallRuns(calls, i, h0);
    st := parser.Parse(t, inb);
    CallEnds(calls, i, h0, parser.State(t), st);
  }

  /** Where the call i leaves the machine: in the middle, or where the whole body does. */
  ghost predicate Fed(calls: seq<seq<bytes>>, i: nat, h0: M.UState, h: M.UState, st: Status)
    requires i < |calls|
  {
    if i + 1 < |calls| && h.status != M.UrlError then
      h == M.Run(h0, Joined(calls[..i + 1]))
    else
      h == M.AtEos(M.Run(h0, Joined(calls))) && st == if h.status == M.UrlError then h.err else Success
  }

  lemma CallEnds(calls: seq<seq<bytes>>, i: nat, h0: M.UState, h: M.UState, st: Status)
    requires i < |calls|
    requires CallParsed(M.Run(h0, Joined(calls[..i])), Flatten(calls[i]), i + 1 == |calls|, h, st)
    ensures Fed(calls, i, h0, h, st)
  {
    CallRuns(calls, i, h0);
    ErrorStays(calls, i + 1, h0);
  }

  /** Where a whole body leads, however it is cut. */
  ghost function Whole(body: bytes): M.UState { M.AtEos(M.Run(M.Start([]), body)) }

  /** Any body, in any calls and buckets, the last call ending in EOS: the table and the
      status of the call that leaves the parser complete, in error, or at the end depend
      on the bytes alone; a status other than success is the one the body is refused for. */
  method ParseCalls(calls: seq<seq<bytes>>) returns (st: Status, rows: seq<Param>)
    requires calls != []
    ensures rows == Whole(Joined(calls)).rows
    ensures st == if Whole(Joined(calls)).status == M.UrlError then Whole(Joined(calls)).err else Success
    ensures forall err :: err != Success ==> (st == err <==> W.RefusedFor(Joined(calls), err))
  {
    WholeRefused(Joined(calls));
    var parser := new UrlParser();
    var t := new Table<Param>();
    var inb := new Brigade();
    ghost var h0 := M.Start([]);
    var i := 0;
    while true
      invariant 0 <= i < |calls| && parser.Valid() && fresh(parser) && fresh(parser.bb) && fresh(t) && fresh(inb)
      invariant inb != parser.bb && (parser.status == M.UrlName || parser.status == M.UrlValue)
      invariant parser.State(t) == M.Run(h0, Joined(calls[..i]))
      decreases |calls| - i
    {
      st := Feed(parser, t, inb, calls, i, h0);
      i := i + 1;
      if i == |calls| || parser.status == M.UrlError {
        return st, t.rows;
      }
    }
  }

  lemma WholeRefused(body: bytes)
    ensures forall err :: err != Success ==>
              ((if Whole(body).status == M.UrlError then Whole(body).err else Success) == err <==> W.RefusedFor(body, err))
  {
    forall err | err != Success
      ensures (if Whole(body).status == M.UrlError then Whole(body).err else Success) == err <==> W.RefusedFor(body, err)
    {
      W.RefusedExactly(body, [], err);
    }
  }

  /** On a body without NUL that is what the batch parser answers, exactly if the body is
      Alike; bodies of name=value words are. */
  method ParseBody(calls: seq<seq<bytes>>) returns (st: Status, rows: seq<Param>)
    requires calls != [] && A.NoNul(Joined(calls))
    ensures Answer(st, rows) == Query(Joined(calls)) <==> A.Alike(Joined(calls))
    ensures A.Fields(Joined(calls)) ==> Answer(st, rows) == Query(Joined(calls))
    ensures Query(Joined(calls)).st == Success && Answer(st, rows) == Query(Joined(calls)) ==> A.Fields(Joined(calls))
  {
    ghost var body := Joined(calls);
    A.AgreesExactly(body, []);
    WholeAgrees(body);
    if A.Fields(body) { A.FieldsAreAlike(body); }
    if Query(body).st == Success { A.OnlyFieldsAgree(body); }
    st, rows := ParseCalls(calls);
  }

  lemma WholeAgrees(body: bytes)
    ensures
      var h := Whole(body);
      A.Agrees(W.Stream(body, []), Query(body), []) <==> Answer(if h.status == M.UrlError then h.err else Success, h.rows) == Query(body)
  {
    assert [] + Query(body).rows == Query(body).rows;
  }

  lemma CallRuns(calls: seq<seq<bytes>>, i: nat, h0: M.UState)
    requires i < |calls|
    ensures M.Run(h0, Joined(calls[..i + 1])) == M.Run(M.Run(h0, Joined(calls[..i])), Flatten(calls[i]))
  {
    JoinedNext(calls, i);
    M.RunConcat(h0, Joined(calls[..i]), Flatten(calls[i]));
  }

  lemma ErrorStays(calls: seq<seq<bytes>>, i: nat, h0: M.UState)
    requires i <= |calls|
    ensures i == |calls| ==> calls[..i] == calls
    ensures M.Run(h0, Joined(calls[..i])).status == M.UrlError ==>
              M.Run(h0, Joined(calls)) == M.Run(h0, Joined(calls[..i]))
  {
    JoinedCut(calls, i);
    var r := M.Run(h0, Joined(calls[..i]));
    M.RunConcat(h0, Joined(calls[..i]), Joined(calls[i..]));
    if r.status == M.UrlError { M.RunOver(r, Joined(calls[i..])); }
  }
}
