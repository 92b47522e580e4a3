/** The incremental header parser (library/parser_header.c): three byte counters over
    a brigade whose buckets are cut at name, gap, value and line ends. */
module HeaderParsers {
  import opened Bytes
  import opened Brigades
  import opened HeaderGrammar

  // ------------------------------------------------------------ unfolding

  lemma {:induction false} UnfoldConcat(a: bytes, b: bytes)
    ensures Unfold(a + b) == Unfold(a) + Unfold(b)
  {
    if a == [] {
      assert a + b == b;
    } else {
      assert (a + b)[1..] == a[1..] + b;
      UnfoldConcat(a[1..], b);
    }
  }

  lemma UnfoldOne(a: bytes, ch: byte)
    ensures Unfold(a + [ch]) == Unfold(a) + if ch == CR || ch == LF then [] else [ch]
  {
    UnfoldConcat(a, [ch]);
    assert [ch][1..] == [];
  }

  /** Where a copy of the value stands: after u bytes of it, with ch next. */
  lemma UnfoldNext(val: bytes, u: nat)
    requires u < |val| && ValuePrefix(val) && val[|val| - 1] == LF
    ensures Unfold(val[..u + 1]) == Unfold(val[..u]) + if val[u] == CR || val[u] == LF then [] else [val[u]]
    ensures val[u] != CR && val[u] != LF ==> |Unfold(val[..u])| < |Unfold(val)|
    ensures val[u] == LF ==> (|Unfold(val[..u])| == |Unfold(val)| <==> u == |val| - 1)
  {
    var w := val[u + 1..];
    assert val[..u + 1] == val[..u] + [val[u]];
    UnfoldOne(val[..u], val[u]);
    assert val == val[..u + 1] + w;
    UnfoldConcat(val[..u + 1], w);
    if val[u] == LF && u < |val| - 1 {
      assert IsBlank(val[u + 1]) && w[0] == val[u + 1];
    }
  }

  // ------------------------------------------------------------ bucket walks

  /** The do-while loops of consume_header_line over the name and over the gap: take
      buckets until len bytes are gone. The assertions are the source's own. */
  method Take(list: seq<bytes>, j: nat, len: nat, ghost stop: nat) returns (i: nat, data: bytes)
    requires j <= stop <= |list| && 0 < len == |Flatten(list[j..stop])|
    ensures j < i <= stop && data == Flatten(list[j..i]) == Flatten(list[j..stop])
  {
    i, data := j, [];
    var left := len;
    while left > 0
      invariant j <= i <= stop && data == Flatten(list[j..i]) && left == len - |data|
      invariant left < len ==> j < i
      decreases stop - i
    {
      FlattenSlice(list, j, i, stop);
      assert i < |list|;
      FlattenSliceNext(list, j, i);
      FlattenSlice(list, j, i + 1, stop);
      assert left >= |list[i]|;
      data := data + list[i];
      left := left - |list[i]|;
      i := i + 1;
    }
    FlattenSlice(list, j, i, stop);
  }

  /** u bytes of the value have been copied; eol once all are. */
  ghost predicate Copied(val: bytes, u: nat, out: bytes, vlen: int, eol: bool) {
    && u <= |val| && out == Unfold(val[..u]) && vlen == |Unfold(val)| - |out| && vlen >= 0
    && (eol <==> u == |val|)
  }

  /** One byte of the value loop: CR and LF are left out, and the final LF noted. */
  method CopyByte(ch: byte, dest: bytes, room: nat, ghost val: bytes, ghost u: nat)
    returns (out: bytes, vlen: nat, eol: bool)
    requires ValuePrefix(val) && val[|val| - 1] == LF && u < |val| && ch == val[u]
    requires Copied(val, u, dest, room, false)
    ensures Copied(val, u + 1, out, vlen, eol)
  {
    out, vlen, eol := dest, room, false;
    UnfoldNext(val, u);
    if ch == CR || ch == LF {
      assert Unfold(val[..u]) + [] == Unfold(val[..u]);
      if vlen == 0 && ch == LF {
        eol := true;
      }
    } else {
      out := out + [ch];
      vlen := vlen - 1;
    }
  }

  /** One bucket of the value loop. */
  method CopyBucket(buf: bytes, dest: bytes, room: nat, ghost val: bytes, ghost u: nat)
    returns (out: bytes, vlen: nat, eol: bool)
    requires ValuePrefix(val) && val[|val| - 1] == LF
    requires u + |buf| <= |val| && val[u..u + |buf|] == buf
    requires u < |val| && Copied(val, u, dest, room, false)
    ensures Copied(val, u + |buf|, out, vlen, eol)
  {
    out, vlen, eol := dest, room, false;
    var off := 0;
    while off < |buf|
      invariant 0 <= off <= |buf| && Copied(val, u + off, out, vlen, eol)
    {
      assert buf[off] == val[u..u + |buf|][off] == val[u + off];
      out, vlen, eol := CopyByte(buf[off], out, vlen, val, u + off);
      off := off + 1;
    }
  }

  /** The value loop stands in front of bucket i. */
  ghost predicate Copying(list: seq<bytes>, j: nat, i: nat, stop: nat, val: bytes, u: nat, out: bytes, vlen: int,
                          eol: bool)
  {
    Walked(list, j, i, stop, val, u) && Copied(val, u, out, vlen, eol)
  }

  method CopyNext(list: seq<bytes>, ghost j: nat, i: nat, dest: bytes, room: nat, ghost stop: nat, ghost val: bytes,
                  ghost u: nat)
    returns (i': nat, out: bytes, vlen: nat, eol: bool, ghost u': nat)
    requires ValuePrefix(val) && val[|val| - 1] == LF && Copying(list, j, i, stop, val, u, dest, room, false)
    ensures i < i' <= stop && Copying(list, j, i', stop, val, u', out, vlen, eol)
  {
    u' := WalkOn(list, j, i, stop, val, u);
    i' := i + 1;
    out, vlen, eol := CopyBucket(list[i], dest, room, val, u);
  }

  lemma CopyStarts(list: seq<bytes>, j: nat, stop: nat, val: bytes)
    requires j <= stop <= |list| && Flatten(list[j..stop]) == val && val != []
    ensures Copying(list, j, j, stop, val, 0, [], |Unfold(val)|, false)
  {
    assert list[j..j] == [] && val[..0] == [] && val[0..] == val;
  }

  /** The value loop of consume_header_line. */
  method CopyValue(list: seq<bytes>, j: nat, room: nat, ghost val: bytes, ghost stop: nat)
    returns (i: nat, out: bytes)
    requires j <= stop <= |list| && Flatten(list[j..stop]) == val
    requires ValuePrefix(val) && val[|val| - 1] == LF && room == |Unfold(val)|
    ensures j < i <= stop && Flatten(list[j..i]) == val && out == Unfold(val)
  {
    i, out := j, [];
    var vlen, eol := room, false;
    ghost var u: nat := 0;
    CopyStarts(list, j, stop, val);
    while !eol
      invariant Copying(list, j, i, stop, val, u, out, vlen, eol) && (eol ==> j < i)
      decreases stop - i
    {
      i, out, vlen, eol, u := CopyNext(list, j, i, out, vlen, stop, val, u);
    }
    assert u == |val| && val[..u] == val;
  }

  /** u bytes of the value lie in the buckets from j to i, the others up to stop. */
  ghost predicate Walked(list: seq<bytes>, j: nat, i: nat, stop: nat, val: bytes, u: nat) {
    && j <= i <= stop <= |list| && u <= |val|
    && Flatten(list[j..i]) == val[..u] && Flatten(list[i..stop]) == val[u..]
  }

  lemma WalkOn(list: seq<bytes>, j: nat, i: nat, stop: nat, val: bytes, u: nat) returns (u': nat)
    requires Walked(list, j, i, stop, val, u) && u < |val|
    ensures i < stop && u' == u + |list[i]| && u' <= |val| && val[u..u'] == list[i]
    ensures Walked(list, j, i + 1, stop, val, u')
  {
    assert Flatten(list[stop..stop]) == [];
    FlattenSliceNext(list, j, i);
    FlattenSlice(list, i, i + 1, stop);
    FlattenSliceNext(list, i, i);
    assert list[i..i] == [];
    var n := |list[i]|;
    assert val[u..] == list[i] + Flatten(list[i + 1..stop]);
    assert val[u..u + n] == val[u..][..n];
    assert val[u + n..] == val[u..][n..];
    assert val[..u + n] == val[..u] + val[u..u + n];
    u' := u + n;
  }

  // ------------------------------------------------------------ where the line lies

  /** The first e buckets and off bytes of the next are the current line, and its name
      and its gap end at bucket boundaries ni and gi. */
  ghost predicate Layout(list: seq<bytes>, e: nat, off: nat, cur: Raw, ni: nat, gi: nat) {
    && e <= |list| && (off > 0 ==> e < |list| && off <= |list[e]|)
    && Flatten(list[..e]) + (if off > 0 then list[e][..off] else []) == Text(cur)
    && (cur.gap != [] ==> ni <= e && Flatten(list[..ni]) == cur.name)
    && (cur.val != [] ==> gi <= e && Flatten(list[..gi]) == cur.name + cur.gap)
    && (cur.gap != [] && cur.val != [] ==> ni <= gi)
  }

  /** The byte at the cursor joins the part of the line that is being read. */
  lemma PlainLayout(list: seq<bytes>, e: nat, off: nat, cur: Raw, next: Raw, ni: nat, gi: nat)
    requires Layout(list, e, off, cur, ni, gi) && e < |list| && off < |list[e]|
    requires Text(next) == Text(cur) + [list[e][off]]
    requires next.gap != [] ==> cur.gap != [] && next.name == cur.name
    requires next.val != [] ==> cur.val != [] && next.name + next.gap == cur.name + cur.gap
    ensures Layout(list, e, off + 1, next, ni, gi)
  {
    assert list[e][..off + 1] == list[e][..off] + [list[e][off]];
    var f := Flatten(list[..e]);
    assert f + (list[e][..off] + [list[e][off]]) == (f + list[e][..off]) + [list[e][off]];
  }

  /** The byte at the front of bucket e opens a new part of the line. */
  lemma MarkLayout(list: seq<bytes>, e: nat, cur: Raw, next: Raw, ni: nat, gi: nat)
    requires e < |list| && list[e] != [] && Flatten(list[..e]) == Text(cur)
    requires Text(next) == Text(cur) + [list[e][0]]
    requires next.gap != [] ==> ni <= e && Flatten(list[..ni]) == next.name
    requires next.val != [] ==> gi <= e && Flatten(list[..gi]) == next.name + next.gap
    requires next.gap != [] && next.val != [] ==> ni <= gi
    ensures Layout(list, e, 1, next, ni, gi)
  {
    assert list[e][..1] == [list[e][0]];
  }

  lemma EntriesSnoc(a: seq<Raw>, r: Raw)
    ensures Entries((a + [r])[|a|..]) == [Entry(r.name, Unfold(r.val))]
    ensures Entries(a[|a|..]) == []
  {
    assert (a + [r])[|a|..] == [r];
  }

  /** Only the byte behind a complete line adds a row. */
  lemma NoNewRow(h: HState, ch: byte)
    requires h.phase != Newline || IsBlank(ch)
    ensures Entries(Step(h, ch).fields[|h.fields|..]) == []
  {
  }

  /** A byte in a value. */
  lemma ValueStep(h: HState, ch: byte)
    requires h.phase == ValuePhase || h.phase == Foldline
    ensures
      var next := Step(h, ch);
      if IsCntrl(ch) && ch != LF && ch != CR && !(h.phase == Foldline && IsBlank(ch)) then
        next == h.(phase := Failed, err := BadChar)
      else
        && next.cur == h.cur.(val := h.cur.val + [ch]) && Text(next.cur) == Text(h.cur) + [ch]
        && |Unfold(next.cur.val)| == |Unfold(h.cur.val)| + (if ch == CR || ch == LF then 0 else 1)
        && next.phase == if ch == LF then Newline else if ch == CR then Endline
                         else if h.phase == Foldline && IsBlank(ch) then Foldline else ValuePhase
  {
    UnfoldOne(h.cur.val, ch);
    Assoc(h.cur.name + h.cur.gap, h.cur.val, [ch]);
  }

  /** Cutting the line off in front of the cursor leaves the earlier boundaries. */
  lemma SplitLayout(was: seq<bytes>, list: seq<bytes>, e: nat, off: nat, e2: nat, cur: Raw, ni: nat, gi: nat)
    requires Layout(was, e, off, cur, ni, gi) && e <= e2 <= |list| && list[..e] == was[..e]
    requires Flatten(list[..e2]) == Text(cur)
    ensures Layout(list, e2, 0, cur, ni, gi)
  {
    if cur.gap != [] { assert list[..ni] == list[..e][..ni] == was[..e][..ni] == was[..ni]; }
    if cur.val != [] { assert list[..gi] == list[..e][..gi] == was[..e][..gi] == was[..gi]; }
  }

  lemma NextPart(list: seq<bytes>, i: nat, stop: nat, before: bytes, part: bytes)
    requires i <= stop <= |list|
    requires Flatten(list[..i]) == before && Flatten(list[..stop]) == before + part
    ensures Flatten(list[i..stop]) == part
  {
    assert list[0..i] == list[..i] && list[0..stop] == list[..stop];
    FlattenSlice(list, 0, i, stop);
    assert (before + part)[|before|..] == part;
    assert (before + Flatten(list[i..stop]))[|before|..] == Flatten(list[i..stop]);
  }

  // ------------------------------------------------------------ the parser

  class HeaderParser {
    const bb: Brigade
    var nlen: nat
    var glen: nat
    var vlen: nat
    var status: Phase

    ghost var h: HState   // what the byte machine has computed
    ghost var ni: nat     // number of buckets that hold the name
    ghost var gi: nat     // number of buckets that hold name and gap

    constructor ()
      ensures fresh(bb) && Valid() && h == Init && bb.list == [] && !bb.eos
    {
      bb := new Brigade();
      nlen, glen, vlen, status := 0, 0, 0, NamePhase;
      h, ni, gi := Init, 0, 0;
    }

    /** The counters are the sizes of the three parts of the line. */
    ghost predicate Counters()
      reads this
    {
      && status == h.phase && Inv(h)
      && (status != Complete && status != Failed ==>
            nlen == |h.cur.name| && glen == |h.cur.gap| && vlen == |Unfold(h.cur.val)|)
    }

    ghost predicate Valid()
      reads this, bb
    {
      && Counters()
      && (status != Complete && status != Failed ==> !bb.eos && Layout(bb.list, |bb.list|, 0, h.cur, ni, gi))
    }

    /** split_header_line, for the byte just before off: that byte now starts a bucket. */
    method SplitLine(e: nat, off: nat) returns (e2: nat)
      requires e < |bb.list| && 0 < off <= |bb.list[e]|
      modifies bb`list
      ensures e <= e2 < |bb.list| && bb.list[..e] == old(bb.list[..e])
      ensures Flatten(bb.list[..e2]) == old(Flatten(bb.list[..e]) + bb.list[e][..off - 1])
      ensures bb.list[e2] == old(bb.list[e][off - 1..]) && bb.list[e2 + 1..] == old(bb.list[e + 1..])
    {
      if off > 1 {
        SplitParts(bb.list, e, off - 1);
        bb.Split(e, off - 1);
        FlattenUpTo(bb.list, e);
        return e + 1;
      }
      return e;
    }

    /** consume_header_line: build the param from the counters and drop its buckets. */
    method ConsumeLine(ghost e: nat) returns (p: Entry, k: nat)
      requires Counters() && status == Newline && Layout(bb.list, e, 0, h.cur, ni, gi)
      modifies bb`list
      ensures p == Entry(h.cur.name, Unfold(h.cur.val))
      ensures k <= e && bb.list == old(bb.list)[k..] && Flatten(bb.list[..e - k]) == []
    {
      var list := bb.list;
      ghost var c := h.cur;
      assert list[0..ni] == list[..ni];
      var i, name := Take(list, 0, nlen, ni);
      assert list[0..i] == list[..i];
      NextPart(list, i, gi, c.name, c.gap);
      var j, _ := Take(list, i, glen, gi);
      FlattenSlice(list, 0, i, j);
      assert list[0..j] == list[..j];
      NextPart(list, j, e, c.name + c.gap, c.val);
      var n, value := CopyValue(list, j, vlen, c.val, e);
      FlattenSlice(list, j, n, e);
      bb.DeleteFirst(n);
      assert bb.list[..e - n] == list[n..e];
      return Entry(name, value), n;
    }

    /** What every case of the switch does with the byte at the cursor. */
    ghost predicate Going(e: nat, off: nat)
      reads this, bb
    {
      && Counters() && status != Complete && status != Failed
      && Layout(bb.list, e, off, h.cur, ni, gi)
      && e < |bb.list| && off < |bb.list[e]|
    }

    /** A byte that stays in the part of the line it was found in. */
    ghost method Advance(e: nat, off: nat, next: HState)
      requires e < |bb.list| && off < |bb.list[e]|
      requires Layout(bb.list, e, off, h.cur, ni, gi) && Inv(h)
      requires next == Step(h, bb.list[e][off]) && next.phase != Failed && next.phase != Complete
      requires Text(next.cur) == Text(h.cur) + [bb.list[e][off]]
      requires next.cur.gap != [] ==> h.cur.gap != [] && next.cur.name == h.cur.name
      requires next.cur.val != [] ==> h.cur.val != [] && next.cur.name + next.cur.gap == h.cur.name + h.cur.gap
      modifies this`h
      ensures h == next && Inv(h) && Layout(bb.list, e, off + 1, h.cur, ni, gi)
    {
      PlainLayout(bb.list, e, off, h.cur, next.cur, ni, gi);
      StepKeepsInv(h, bb.list[e][off]);
      h := next;
    }

    /** HDR_NAME */
    method NameChar(e: nat, off: nat) returns (e2: nat, off2: nat, st: Status)
      requires Going(e, off) && status == NamePhase
      modifies this, bb`list
      ensures Counters() && h == old(Step(h, bb.list[e][off]))
      ensures status == Failed ==> st == h.err
      ensures status != Failed ==> Stepped(e2, off2, old(bb.list), e, off)
    {
      var ch := bb.list[e][off];
      e2, off2, st := e, off + 1, Success;
      if ch == COLON {
        if nlen == 0 {
          status, st := Failed, BadHeader;
          h := Step(h, ch);
          return;
        }
        ghost var cur := h.cur;
        e2 := SplitLine(e, off2);
        off2 := 1;
        glen := glen + 1;
        status := GapPhase;
        ni := e2;
        StepKeepsInv(h, ch);
        h := Step(h, ch);
        MarkLayout(bb.list, e2, cur, h.cur, ni, gi);
      } else if !IsToken(ch) {
        status, st := Failed, BadChar;
        h := Step(h, ch);
      } else {
        nlen := nlen + 1;
        Advance(e, off, Step(h, ch));
      }
    }

    /** The cursor moved past one byte, and what follows it is as it was. */
    ghost predicate Stepped(e2: nat, off2: nat, was: seq<bytes>, e: nat, off: nat)
      reads this, bb
      requires e < |was| && off < |was[e]|
    {
      && (status != Complete ==> Layout(bb.list, e2, off2, h.cur, ni, gi))
      && e2 < |bb.list| && 0 < off2 <= |bb.list[e2]|
      && bb.list[e2][off2..] == was[e][off + 1..] && bb.list[e2 + 1..] == was[e + 1..]
    }

    /** The byte at the front of bucket e2 opens the value. */
    ghost method OpenValue(was: seq<bytes>, e: nat, off: nat, e2: nat, ch: byte)
      requires h.phase == GapPhase && Inv(h) && Step(h, ch).phase != Failed && !IsBlank(ch)
      requires Layout(was, e, off, h.cur, ni, gi) && e <= e2 < |bb.list| && bb.list[..e] == was[..e]
      requires Flatten(bb.list[..e2]) == Text(h.cur) && bb.list[e2] != [] && bb.list[e2][0] == ch
      modifies this`h, this`gi
      ensures h == old(Step(h, ch)) && Inv(h) && Layout(bb.list, e2, 1, h.cur, ni, gi)
      ensures h.phase == if ch == LF then Newline else if ch == CR then Endline else ValuePhase
      ensures |h.cur.name| == |old(h.cur.name)| && |h.cur.gap| == |old(h.cur.gap)|
      ensures |Unfold(h.cur.val)| == if ch == LF || ch == CR then 0 else 1
    {
      UnfoldOne([], ch);
      var cur := h.cur;
      SplitLayout(was, bb.list, e, off, e2, cur, ni, gi);
      StepKeepsInv(h, ch);
      h, gi := Step(h, ch), e2;
      assert [] + [ch] == [ch] && cur.name + cur.gap + [] == cur.name + cur.gap;
      MarkLayout(bb.list, e2, cur, h.cur, ni, gi);
    }

    /** HDR_GAP */
    method GapChar(e: nat, off: nat) returns (e2: nat, off2: nat, st: Status)
      requires Going(e, off) && status == GapPhase
      modifies this, bb`list
      ensures Counters() && h == old(Step(h, bb.list[e][off]))
      ensures status == Failed ==> st == h.err
      ensures status != Failed ==> Stepped(e2, off2, old(bb.list), e, off)
    {
      var ch := bb.list[e][off];
      e2, off2, st := e, off + 1, Success;
      if ch == SPACE || ch == TAB {
        glen := glen + 1;
        Advance(e, off, Step(h, ch));
        return;
      }
      if IsCntrl(ch) && ch != LF && ch != CR {
        status, st := Failed, BadChar;
        h := Step(h, ch);
        return;
      }
      e2, off2 := GapEnds(e, off, ch);
    }

    /** The first byte of the value, behind a bucket boundary of its own. */
    method GapEnds(e: nat, off: nat, ch: byte) returns (e2: nat, off2: nat)
      requires Going(e, off) && status == GapPhase && ch == bb.list[e][off]
      requires !IsBlank(ch) && (IsCntrl(ch) ==> ch == LF || ch == CR)
      modifies this, bb`list
      ensures Counters() && h == old(Step(h, ch)) && status != Failed && Stepped(e2, off2, old(bb.list), e, off)
    {
      e2 := SplitLine(e, off + 1);
      off2 := 1;
      OpenValue(old(bb.list), e, off, e2, ch);
      if ch == LF {
        status := Newline;
      } else if ch == CR {
        status := Endline;
      } else {
        vlen := vlen + 1;
        status := ValuePhase;
      }
    }

    /** HDR_VALUE and HDR_FOLDLINE */
    method ValueChar(e: nat, off: nat) returns (e2: nat, off2: nat, st: Status)
      requires Going(e, off) && (status == ValuePhase || status == Foldline)
      modifies this, bb`list
      ensures Counters() && h == old(Step(h, bb.list[e][off]))
      ensures status == Failed ==> st == h.err
      ensures status != Failed ==> Stepped(e2, off2, old(bb.list), e, off)
    {
      var ch := bb.list[e][off];
      e2, off2, st := e, off + 1, Success;
      ValueStep(h, ch);
      StepKeepsInv(h, ch);
      if status == Foldline && (ch == SPACE || ch == TAB) {
        vlen := vlen + 1;
      } else if ch == LF {
        status := Newline;
      } else if ch == CR {
        status := Endline;
      } else if IsCntrl(ch) {
        status, st := Failed, BadChar;
        h := Step(h, ch);
        return;
      } else {
        status := ValuePhase;
        vlen := vlen + 1;
      }
      Advance(e, off, Step(h, ch));
    }

    /** HDR_ENDLINE and HDR_LASTLINE */
    method EndChar(e: nat, off: nat) returns (e2: nat, off2: nat, st: Status)
      requires Going(e, off) && (status == Endline || status == Lastline)
      modifies this, bb`list
      ensures Counters() && h == old(Step(h, bb.list[e][off]))
      ensures status == Failed ==> st == h.err
      ensures status != Failed ==> Stepped(e2, off2, old(bb.list), e, off)
    {
      var ch := bb.list[e][off];
      e2, off2, st := e, off + 1, Success;
      UnfoldOne(h.cur.val, ch);
      StepKeepsInv(h, ch);
      if ch != LF {
        status, st := Failed, BadHeader;
        h := Step(h, ch);
      } else if status == Lastline {
        status := Complete;
        h := Step(h, ch);
      } else {
        status := Newline;
        Advance(e, off, Step(h, ch));
      }
    }

    /** The line that ends in front of the cursor becomes a table entry. */
    method FinishLine(t: Table<Entry>, e: nat, off: nat) returns (e2: nat)
      requires Going(e, off) && status == Newline
      modifies this`nlen, this`glen, this`vlen, bb`list, t
      ensures nlen == glen == vlen == 0
      ensures t.rows == old(t.rows) + [Entry(h.cur.name, Unfold(h.cur.val))]
      ensures e2 < |bb.list| && Flatten(bb.list[..e2]) == []
      ensures bb.list[e2] == old(bb.list[e][off..]) && bb.list[e2 + 1..] == old(bb.list[e + 1..])
    {
      var cut := SplitLine(e, off + 1);
      ghost var list := bb.list;
      SplitLayout(old(bb.list), bb.list, e, off, cut, h.cur, ni, gi);
      var p, k := ConsumeLine(cut);
      t.rows := t.rows + [p];
      nlen, vlen, glen := 0, 0, 0;
      e2 := cut - k;
      assert bb.list[e2 + 1..] == list[cut + 1..];
    }

    /** HDR_NEWLINE, a blank: the line is folded. */
    method FoldChar(e: nat, off: nat) returns (e2: nat, off2: nat, st: Status)
      requires Going(e, off) && status == Newline && IsBlank(bb.list[e][off])
      modifies this
      ensures Counters() && h == old(Step(h, bb.list[e][off])) && status == Foldline
      ensures Stepped(e2, off2, old(bb.list), e, off)
    {
      UnfoldOne(h.cur.val, bb.list[e][off]);
      vlen := vlen + 1;
      status := Foldline;
      Advance(e, off, Step(h, bb.list[e][off]));
      return e, off + 1, Success;
    }

    /** HDR_NEWLINE, anything else: the line ends and the next one starts. */
    method NewlineChar(t: Table<Entry>, e: nat, off: nat) returns (e2: nat, off2: nat, st: Status)
      requires Going(e, off) && status == Newline && !IsBlank(bb.list[e][off])
      modifies this, bb`list, t
      ensures Counters() && h == old(Step(h, bb.list[e][off]))
      ensures t.rows == old(t.rows) + Entries(h.fields[|old(h.fields)|..])
      ensures status == Failed ==> st == h.err
      ensures status != Failed ==> Stepped(e2, off2, old(bb.list), e, off)
    {
      var ch := bb.list[e][off];
      st := Success;
      EntriesSnoc(h.fields, h.cur);
      e2 := FinishLine(t, e, off);
      off2 := 1;
      StartLine(e2, ch);
      if ch == LF {
        status := Complete;
      } else if ch == CR {
        status := Lastline;
      } else if !IsToken(ch) {
        status, st := Failed, BadChar;
      } else {
        nlen := nlen + 1;
        status := NamePhase;
      }
    }

    /** The byte at the front of bucket e2 opens a line, behind nothing but empty buckets. */
    ghost method StartLine(e2: nat, ch: byte)
      requires h.phase == Newline && Inv(h) && !IsBlank(ch)
      requires e2 < |bb.list| && Flatten(bb.list[..e2]) == [] && bb.list[e2] != [] && bb.list[e2][0] == ch
      modifies this`h, this`ni, this`gi
      ensures h == old(Step(h, ch)) && Inv(h)
      ensures h.phase == if ch == LF then Complete else if ch == CR then Lastline else if IsToken(ch) then NamePhase else Failed
      ensures h.phase != Failed && h.phase != Complete ==> Layout(bb.list, e2, 1, h.cur, ni, gi)
      ensures |Unfold(h.cur.val)| == 0 && h.cur.gap == []
      ensures |h.cur.name| == if h.phase == NamePhase then 1 else 0
    {
      StepKeepsInv(h, ch);
      h, ni, gi := Step(h, ch), 0, e2;
      UnfoldOne([], CR);
      assert [] + [CR] == [CR];
      if h.phase != Failed && h.phase != Complete {
        MarkLayout(bb.list, e2, NoLine, h.cur, ni, gi);
      }
    }

    /** One turn of the switch in apreq_parse_headers. */
    method Char(t: Table<Entry>, e: nat, off: nat) returns (e2: nat, off2: nat, st: Status)
      requires Going(e, off)
      modifies this, bb`list, t
      ensures Counters() && h == old(Step(h, bb.list[e][off]))
      ensures t.rows == old(t.rows) + Entries(h.fields[|old(h.fields)|..])
      ensures status == Failed ==> st == h.err
      ensures status != Failed ==> Stepped(e2, off2, old(bb.list), e, off)
    {
      ghost var h0, ch := h, bb.list[e][off];
      if h.phase != Newline || IsBlank(ch) { NoNewRow(h, ch); }
      if status == NamePhase {
        e2, off2, st := NameChar(e, off);
      } else if status == GapPhase {
        e2, off2, st := GapChar(e, off);
      } else if status == Newline && (bb.list[e][off] == SPACE || bb.list[e][off] == TAB) {
        e2, off2, st := FoldChar(e, off);
      } else if status == Newline {
        e2, off2, st := NewlineChar(t, e, off);
      } else if status == Endline || status == Lastline {
        e2, off2, st := EndChar(e, off);
      } else {
        e2, off2, st := ValueChar(e, off);
      }
    }

    /** HDR_COMPLETE: drop what was read and give the rest back to the caller. */
    method HandBack(e: nat, off: nat, back: Brigade)
      requires e < |bb.list| && 0 < off <= |bb.list[e]|
      requires back != bb && back.list == [] && !back.eos
      modifies bb, back
      ensures back.Stream() == old(bb.list[e][off..] + Flatten(bb.list[e + 1..])) && back.eos == old(bb.eos)
      ensures bb.list == [] && !bb.eos
    {
      ghost var rest := bb.list[e][off..] + Flatten(bb.list[e + 1..]);
      if off < |bb.list[e]| {
        CutBehind(bb.list, e, off);
        bb.Split(e, off);
      } else {
        assert rest == Flatten(bb.list[e + 1..]);
      }
      assert Flatten(bb.list[e + 1..]) == rest;
      bb.DeleteFirst(e + 1);
      assert bb.Stream() == rest;
      back.Concat(bb);
      assert [] + rest == rest;
    }

    /** Between two bytes, with the rest still to be read. */
    ghost predicate Standing(e: nat, off: nat, rest: bytes)
      reads this, bb
    {
      Counters() && status != Failed && status != Complete && Layout(bb.list, e, off, h.cur, ni, gi) && rest == Rest(bb.list, e, off)
    }

    /** One turn of the switch, seen from the input: one byte goes from what is still to
        be read into the machine. */
    method Turn(t: Table<Entry>, e: nat, off: nat, ghost h0: HState, ghost rows: seq<Entry>, ghost u: bytes,
                ghost rest: bytes)
      returns (e2: nat, off2: nat, st: Status, ghost u': bytes, ghost rest': bytes)
      requires Going(e, off) && h == Run(h0, u) && Added(rows, h0, t.rows, h) && rest == Rest(bb.list, e, off)
      modifies this, bb`list, t
      ensures Counters() && h == Run(h0, u') && h.left == [] && Added(rows, h0, t.rows, h)
      ensures u' + rest' == u + rest && |rest'| < |rest|
      ensures status == Failed ==> st == h.err
      ensures status != Failed ==> e2 < |bb.list| && 0 < off2 <= |bb.list[e2]| && Rest(bb.list, e2, off2) == rest'
      ensures status != Failed && status != Complete ==> Layout(bb.list, e2, off2, h.cur, ni, gi)
    {
      ghost var ch := bb.list[e][off];
      u', rest' := u + [ch], rest[1..];
      RestStarts(bb.list, e, off);
      TakeOne(u, rest, ch);
      RunOne(h0, u, ch);
      AddedMore(rows, h0, t.rows, h, ch);
      LeftWaits(h, ch);
      e2, off2, st := Char(t, e, off);
      if status != Failed {
        RestSteps(old(bb.list), e, off, bb.list, e2, off2);
      }
    }

    /** The for loop of apreq_parse_headers: read on until the block ends, fails, or the
        brigade is used up. */
    method Scan(t: Table<Entry>, start: nat, ghost h0: HState, ghost rows: seq<Entry>, ghost all: bytes)
      returns (e: nat, off: nat, st: Status, ghost u: bytes, ghost rest: bytes)
      requires Counters() && status != Failed && status != Complete && h == h0 && t.rows == rows
      requires Layout(bb.list, start, 0, h.cur, ni, gi) && Rest(bb.list, start, 0) == all
      modifies this, bb`list, t
      ensures Counters() && all == u + rest && h == Run(h0, u) && h.left == [] && Added(rows, h0, t.rows, h)
      ensures status == Failed ==> st == h.err
      ensures status == Complete ==> e < |bb.list| && 0 < off <= |bb.list[e]| && Rest(bb.list, e, off) == rest
      ensures status != Failed && status != Complete ==> rest == [] && Layout(bb.list, |bb.list|, 0, h.cur, ni, gi)
    {
      e, off, st, u, rest := start, 0, Success, [], all;
      assert Entries(h.fields[|h.fields|..]) == [];
      while e < |bb.list|
        invariant Standing(e, off, rest) && all == u + rest && h == Run(h0, u) && Added(rows, h0, t.rows, h)
        decreases |rest|, |bb.list| - e
      {
        if off == |bb.list[e]| {
          NextBucket(bb.list, e, off, h.cur, ni, gi);
          e, off := e + 1, 0;
          assert Standing(e, off, rest);
        } else {
          e, off, st, u, rest := Turn(t, e, off, h0, rows, u, rest);
          if status == Failed || status == Complete {
            return;
          }
        }
      }
    }

    /** apreq_parse_headers on a live parser. */
    method Parse(t: Table<Entry>, inb: Brigade) returns (st: Status)
      requires Valid() && inb != bb
      modifies this, bb, inb, t
      ensures Valid()
      ensures old(status) == Failed ==> st == General && h == old(h) && t.rows == old(t.rows)
      ensures old(status) == Complete ==>
                && st == Success && h == old(h) && t.rows == old(t.rows)
                && inb.list == old(inb.list) && inb.eos == old(inb.eos)
      ensures old(status) != Failed && old(status) != Complete ==>
                Parsed(old(h), old(inb.Stream()), old(inb.eos), old(t.rows), h, t.rows, inb.Stream(), inb.eos, st)
    {
      if status == Failed { return General; }
      if status == Complete { return Success; }
      ghost var h0, all, eos := h, inb.Stream(), inb.eos;
      var start := |bb.list|;
      BehindEnd(bb.list, inb.list, h.cur, ni, gi);
      bb.Concat(inb);
      var e, off;
      ghost var u, rest;
      ghost var rows0 := t.rows;
      e, off, st, u, rest := Scan(t, start, h, rows0, all);
      st := Close(e, off, st, inb, h0, u, rest, rows0, t.rows);
    }

    /** What follows the scan: a block that is complete hands the rest back, and EOS
        completes any other. */
    method Close(e: nat, off: nat, st0: Status, inb: Brigade, ghost h0: HState, ghost u: bytes, ghost rest: bytes,
                 ghost rows0: seq<Entry>, ghost rows: seq<Entry>)
      returns (st: Status)
      requires Counters() && inb != bb && inb.list == [] && !inb.eos
      requires h == Run(h0, u) && h.left == [] && Added(rows0, h0, rows, h)
      requires status == Failed ==> st0 == h.err
      requires status == Complete ==> e < |bb.list| && 0 < off <= |bb.list[e]| && Rest(bb.list, e, off) == rest
      requires status != Failed && status != Complete ==> rest == [] && Layout(bb.list, |bb.list|, 0, h.cur, ni, gi)
      modifies this`h, this`status, bb, inb
      ensures Valid() && Parsed(h0, u + rest, old(bb.eos), rows0, h, rows, inb.Stream(), inb.eos, st)
    {
      ghost var h1 := h;
      if status == Failed {
        RunEnds(h0, u, rest);
        st := st0;
      } else if status == Complete {
        RunEnds(h0, u, rest);
        assert [] + rest == rest;
        HandBack(e, off, inb);
        h, st := h.(left := rest), Success;
        assert inb.Stream() == h.left && h == Run(h0, u + rest);
      } else {
        assert u + rest == u;
        st := EndOfInput(inb);
      }
    }

    /** The brigade is used up: EOS completes the block as it stands. */
    method EndOfInput(inb: Brigade) returns (st: Status)
      requires Counters() && status != Failed && status != Complete
      requires inb != bb && inb.list == [] && !inb.eos && Layout(bb.list, |bb.list|, 0, h.cur, ni, gi)
      modifies this`h, this`status, bb, inb
      ensures Valid() && h == (if old(bb.eos) then AtEof(old(h)) else old(h))
      ensures st == if old(bb.eos) then Success else Incomplete
      ensures inb.eos == old(bb.eos) && inb.Stream() == if inb.eos then h.left else []
    {
      if !bb.eos {
        return Incomplete;
      }
      EofLeaves(bb.list, h, ni, gi);
      inb.Concat(bb);
      h, status, st := AtEof(h), Complete, Success;
      assert Counters();
    }
  }

  lemma CutBehind(list: seq<bytes>, e: nat, off: nat)
    requires e < |list| && off <= |list[e]|
    ensures
      var cut := SplitAt(list, e, off);
      e + 1 < |cut| && Flatten(cut[e + 1..]) == list[e][off..] + Flatten(list[e + 1..])
  {
    SplitParts(list, e, off);
    FlattenFrom(SplitAt(list, e, off), e + 1);
  }

  lemma TakeOne(u: bytes, rest: bytes, ch: byte)
    requires rest != [] && rest[0] == ch
    ensures (u + [ch]) + rest[1..] == u + rest
  {
    assert rest == [ch] + rest[1..];
    Assoc(u, [ch], rest[1..]);
  }

  /** The cursor leaves a bucket that is read to its end. */
  lemma NextBucket(list: seq<bytes>, e: nat, off: nat, cur: Raw, ni: nat, gi: nat)
    requires Layout(list, e, off, cur, ni, gi) && e < |list| && off == |list[e]|
    ensures Layout(list, e + 1, 0, cur, ni, gi)
    ensures Rest(list, e + 1, 0) == Rest(list, e, off)
  {
    FlattenUpTo(list, e);
    FlattenFrom(list, e);
    assert list[e][..off] == list[e];
    assert list[e][off..] == [];
  }

  /** A call starts to read behind the buckets kept from the last one. */
  lemma BehindEnd(list: seq<bytes>, more: seq<bytes>, cur: Raw, ni: nat, gi: nat)
    requires Layout(list, |list|, 0, cur, ni, gi)
    ensures Layout(list + more, |list|, 0, cur, ni, gi)
    ensures Rest(list + more, |list|, 0) == Flatten(more)
  {
    assert list[..|list|] == (list + more)[..|list|];
    assert (list + more)[|list|..] == more;
    if cur.gap != [] { assert (list + more)[..ni] == list[..ni]; }
    if cur.val != [] { assert (list + more)[..gi] == list[..gi]; }
  }

  /** rows gained the entries of the lines finished since h0. */
  ghost predicate Added(rows0: seq<Entry>, h0: HState, rows: seq<Entry>, h: HState) {
    |h0.fields| <= |h.fields| && rows == rows0 + Entries(h.fields[|h0.fields|..])
  }

  lemma AddedMore(rows0: seq<Entry>, h0: HState, rows: seq<Entry>, h: HState, ch: byte)
    requires Added(rows0, h0, rows, h)
    ensures Added(rows0, h0, rows + Entries(Step(h, ch).fields[|h.fields|..]), Step(h, ch))
    ensures |h.fields| <= |Step(h, ch).fields|
  {
    FieldsGrow(h, ch);
    var fs := Step(h, ch).fields;
    EntriesSince(h0.fields, h.fields, fs);
    Assoc(rows0, Entries(h.fields[|h0.fields|..]), Entries(fs[|h.fields|..]));
  }

  lemma LeftWaits(h: HState, ch: byte)
    requires Inv(h) && h.phase != Complete
    ensures Step(h, ch).left == []
  {
  }

  /** A machine that completed or failed decides the run, whatever else was fed. */
  lemma RunEnds(h0: HState, u: bytes, rest: bytes)
    requires Run(h0, u).phase == Complete || Run(h0, u).phase == Failed
    ensures Run(h0, u).phase == Complete ==> Run(h0, u + rest) == Run(h0, u).(left := Run(h0, u).left + rest)
    ensures Run(h0, u).phase == Failed ==> Run(h0, u + rest) == Run(h0, u)
  {
    RunConcat(h0, u, rest);
    if Run(h0, u).phase == Complete {
      RunDone(Run(h0, u), rest);
    } else {
      RunFailed(Run(h0, u), rest);
    }
  }

  /** What one call computes from the state h0 and the bytes it is given. */
  ghost predicate Parsed(h0: HState, all: bytes, eos: bool, rows0: seq<Entry>,
                         h: HState, rows: seq<Entry>, back: bytes, backEos: bool, st: Status)
  {
    var r := Run(h0, all);
    && Added(rows0, h0, rows, r)
    && (r.phase == Failed ==> h == r && st == r.err && st != Success && st != Incomplete && back == [] && !backEos)
    && (r.phase != Failed && (r.phase == Complete || eos) ==>
          st == Success && h == AtEof(r) && back == h.left && backEos == eos)
    && (r.phase != Failed && r.phase != Complete && !eos ==>
          st == Incomplete && h == r && back == [] && !backEos)
  }

  /** What EOS makes of a block that is not complete: the unfinished line is handed back. */
  ghost function AtEof(h: HState): HState {
    if h.phase == Complete || h.phase == Failed then h
    else h.(phase := Complete, cur := NoLine, left := Text(h.cur))
  }

  lemma EofLeaves(list: seq<bytes>, h: HState, ni: nat, gi: nat)
    requires Layout(list, |list|, 0, h.cur, ni, gi) && Inv(h) && h.phase != Complete && h.phase != Failed
    ensures Inv(AtEof(h)) && AtEof(h).phase == Complete && AtEof(h).left == [] + Flatten(list)
  {
    assert list[..|list|] == list;
  }

  lemma FieldsGrow(h: HState, ch: byte)
    ensures |h.fields| <= |Step(h, ch).fields| && Step(h, ch).fields[..|h.fields|] == h.fields
  {
  }

  lemma {:induction false} RunFieldsGrow(h: HState, s: bytes)
    ensures |h.fields| <= |Run(h, s).fields| && Run(h, s).fields[..|h.fields|] == h.fields
    decreases |s|
  {
    if s != [] {
      FieldsGrow(h, s[0]);
      RunFieldsGrow(Step(h, s[0]), s[1..]);
    }
  }

  lemma EntriesSince(a: seq<Raw>, b: seq<Raw>, c: seq<Raw>)
    requires |a| <= |b| <= |c| && c[..|b|] == b
    ensures Entries(c[|a|..]) == Entries(b[|a|..]) + Entries(c[|b|..])
  {
    assert c[|a|..] == b[|a|..] + c[|b|..];
  }

  // ------------------------------------------------------------ several calls

  /** Before call i, with the calls before it read. */
  ghost predicate Midway(calls: seq<seq<bytes>>, i: nat, h: HState, rows: seq<Entry>) {
    && i < |calls| && h == Run(Init, Joined(calls[..i])) && h.phase != Failed && h.phase != Complete
    && rows == Entries(h.fields)
  }

  /** How call i ends: the block is complete, or the next call finds it midway. */
  ghost predicate BlockFed(calls: seq<seq<bytes>>, i: nat, h: HState, rows: seq<Entry>, back: bytes, backEos: bool,
                           st: Status, rs: seq<Raw>, blank: bytes)
  {
    && i < |calls|
    && if st == Success then rows == Entries(rs) && Joined(calls[..i + 1]) == BlockText(rs) + blank + back
       else Midway(calls, i + 1, h, rows) && !backEos
  }

  /** One call of the parser with the buckets calls[i] */
  method FeedBlock(parser: HeaderParser, t: Table<Entry>, inb: Brigade, calls: seq<seq<bytes>>, i: nat,
                   ghost rs: seq<Raw>, ghost blank: bytes, ghost tail: bytes)
    returns (st: Status)
    requires parser.Valid() && inb != parser.bb && !inb.eos && Midway(calls, i, parser.h, t.rows)
    requires rs != [] && FieldsOk(rs) && BlankLine(blank) && Joined(calls) == BlockText(rs) + blank + tail
    modifies parser, parser.bb, inb, t
    ensures parser.Valid() && BlockFed(calls, i, parser.h, t.rows, inb.Stream(), inb.eos, st, rs, blank)
  {
    inb.list := calls[i];
    ghost var h0, rows0 := parser.h, t.rows;
    st := parser.Parse(t, inb);
    CallEnds(calls, i, h0, rows0, parser.h, t.rows, inb.Stream(), inb.eos, st, rs, blank, tail);
  }

  /** The calls from call i on, until one completes the block */
  method ParseFrom(parser: HeaderParser, t: Table<Entry>, inb: Brigade, calls: seq<seq<bytes>>, i: nat,
                   ghost rs: seq<Raw>, ghost blank: bytes, ghost tail: bytes)
    returns (st: Status, back: bytes, ghost used: nat)
    requires parser.Valid() && inb != parser.bb && !inb.eos && Midway(calls, i, parser.h, t.rows)
    requires rs != [] && FieldsOk(rs) && BlankLine(blank) && Joined(calls) == BlockText(rs) + blank + tail
    modifies parser, parser.bb, inb, t
    ensures st == Success && t.rows == Entries(rs)
    ensures used <= |calls| && Joined(calls[..used]) == BlockText(rs) + blank + back
    decreases |calls| - i
  {
    st := FeedBlock(parser, t, inb, calls, i, rs, blank, tail);
    if st == Success {
      back, used := inb.Stream(), i + 1;
    } else {
      st, back, used := ParseFrom(parser, t, inb, calls, i + 1, rs, blank, tail);
    }
  }

  /** A block that is cut into any calls and buckets: the table is the list of its
      headers, and the call that completes hands back exactly what it and the calls
      before it were given after the empty line. */
  method ParseBlock(calls: seq<seq<bytes>>, ghost rs: seq<Raw>, ghost blank: bytes, ghost tail: bytes)
    returns (st: Status, rows: seq<Entry>, back: bytes, ghost used: nat)
    requires rs != [] && FieldsOk(rs) && BlankLine(blank)
    requires Joined(calls) == BlockText(rs) + blank + tail
    ensures st == Success && rows == Entries(rs)
    ensures used <= |calls| && Joined(calls[..used]) == BlockText(rs) + blank + back
  {
    var parser := new HeaderParser();
    var t := new Table<Entry>();
    var inb := new Brigade();
    BlockParses(rs, blank, tail);
    st, back, used := ParseFrom(parser, t, inb, calls, 0, rs, blank, tail);
    rows := t.rows;
  }

  lemma CallEnds(calls: seq<seq<bytes>>, i: nat, h0: HState, rows0: seq<Entry>, h: HState, rows: seq<Entry>,
                 back: bytes, backEos: bool, st: Status, rs: seq<Raw>, blank: bytes, tail: bytes)
    requires Midway(calls, i, h0, rows0)
    requires Parsed(h0, Flatten(calls[i]), false, rows0, h, rows, back, backEos, st)
    requires rs != [] && FieldsOk(rs) && BlankLine(blank) && Joined(calls) == BlockText(rs) + blank + tail
    ensures BlockFed(calls, i, h, rows, back, backEos, st, rs, blank)
  {
    CallFacts(calls, i, h0, rs, blank, tail);
  }

  lemma CallFacts(calls: seq<seq<bytes>>, i: nat, h: HState, rs: seq<Raw>, blank: bytes, tail: bytes)
    requires i < |calls| && h == Run(Init, Joined(calls[..i]))
    requires rs != [] && FieldsOk(rs) && BlankLine(blank) && Joined(calls) == BlockText(rs) + blank + tail
    ensures
      var r := Run(h, Flatten(calls[i]));
      && r == Run(Init, Joined(calls[..i + 1])) && r.phase != Failed
      && (r.phase == Complete ==> r.fields == rs && Joined(calls[..i + 1]) == BlockText(rs) + blank + r.left)
      && (i + 1 == |calls| ==> r.phase == Complete)
      && |h.fields| <= |r.fields| && Entries(r.fields) == Entries(h.fields) + Entries(r.fields[|h.fields|..])
  {
    JoinedNext(calls, i);
    RunConcat(Init, Joined(calls[..i]), Flatten(calls[i]));
    JoinedCut(calls, i + 1);
    CallDecides(Joined(calls[..i + 1]), Joined(calls[i + 1..]), rs, blank, tail);
    RunFieldsGrow(h, Flatten(calls[i]));
    EntriesJoin(h.fields, Run(h, Flatten(calls[i])).fields);
  }

  lemma EntriesJoin(a: seq<Raw>, c: seq<Raw>)
    requires |a| <= |c| && c[..|a|] == a
    ensures Entries(c) == Entries(a) + Entries(c[|a|..])
  {
    EntriesSince([], a, c);
    assert c[0..] == c && a[0..] == a;
  }

  /** Where a run stands after a part of a well-formed block. */
  lemma CallDecides(fed: bytes, later: bytes, rs: seq<Raw>, blank: bytes, tail: bytes)
    requires rs != [] && FieldsOk(rs) && BlankLine(blank)
    requires fed + later == BlockText(rs) + blank + tail
    ensures Run(Init, fed).phase != Failed
    ensures Run(Init, fed).phase == Complete ==>
              Run(Init, fed).fields == rs && fed == BlockText(rs) + blank + Run(Init, fed).left
    ensures later == [] ==> Run(Init, fed).phase == Complete
  {
    BlockParses(rs, blank, tail);
    RunConcat(Init, fed, later);
    var r := Run(Init, fed);
    if r.phase == Failed {
      RunFailed(r, later);
    } else if r.phase == Complete {
      RunDone(r, later);
      assert tail == r.left + later;
      assert fed + later == (BlockText(rs) + blank + r.left) + later;
      assert (fed + later)[..|fed|] == fed;
    }
    if later == [] { assert fed + later == fed; }
  }
}
