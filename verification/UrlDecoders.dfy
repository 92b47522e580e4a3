/** The decoders of library/util.c at work in memory: one string, decoded in place or
    not, and a vector of pieces. */
module UrlDecoders {
  import opened Bytes
  import opened Brigades
  import opened UrlCodec

  // ------------------------------------------------------------ memory

  /** The bytes s lie at p. */
  ghost predicate Holds(m: bytes, p: nat, s: bytes) { p + |s| <= |m| && m[p..p + |s|] == s }

  /** From one memory to the next only the n bytes at p may have changed. */
  ghost predicate OnlyAt(was: bytes, now: bytes, p: nat, n: nat) {
    |now| == |was| && forall i {:trigger now[i]} :: 0 <= i < |was| && !(p <= i < p + n) ==> now[i] == was[i]
  }

  lemma HoldsStill(now: bytes, next: bytes, p: nat, a: bytes, q: nat, n: nat)
    requires Holds(now, p, a) && OnlyAt(now, next, q, n) && (p + |a| <= q || q + n <= p)
    ensures Holds(next, p, a)
  {
  }

  lemma HoldsRest(m: bytes, p: nat, a: bytes, k: nat)
    requires Holds(m, p, a) && k <= |a|
    ensures Holds(m, p + k, a[k..])
  {
    assert m[p + k..p + |a|] == m[p..p + |a|][k..];
  }

  lemma HoldsBoth(m: bytes, p: nat, a: bytes, b: bytes)
    requires Holds(m, p, a) && Holds(m, p + |a|, b)
    ensures Holds(m, p, a + b)
  {
    assert m[p..p + |a| + |b|] == m[p..p + |a|] + m[p + |a|..p + |a| + |b|];
  }

  lemma OnlyAtInside(was: bytes, now: bytes, next: bytes, p: nat, k: nat, q: nat, n: nat)
    requires OnlyAt(was, now, p, k) && OnlyAt(now, next, q, n) && p <= q && q + n <= p + k
    ensures OnlyAt(was, next, p, k)
  {
  }

  lemma OnlyAtGrows(was: bytes, now: bytes, next: bytes, p: nat, k: nat, n: nat)
    requires OnlyAt(was, now, p, k) && OnlyAt(now, next, p + k, n)
    ensures OnlyAt(was, next, p, k + n)
  {
  }

  /** memmove */
  method Move(mem: array<byte>, d: nat, s: nat, n: nat, ghost now: bytes, ghost a: bytes) returns (ghost next: bytes)
    requires now == mem[..] && Holds(now, s, a) && |a| == n && d + n <= mem.Length
    modifies mem
    ensures next == mem[..] && Holds(next, d, a) && OnlyAt(now, next, d, n)
  {
    assert mem[s..s + n] == a;
    forall i | 0 <= i < n {
      mem[d + i] := mem[s + i];
    }
    next := mem[..];
    assert next[d..d + n] == a;
  }

  /** *d++ = c for each byte c of a decoded character */
  method Store(mem: array<byte>, d: nat, out: bytes, ghost now: bytes) returns (ghost next: bytes)
    requires now == mem[..] && d + |out| <= mem.Length
    modifies mem
    ensures next == mem[..] && Holds(next, d, out) && OnlyAt(now, next, d, |out|)
  {
    var i := 0;
    while i < |out|
      invariant i <= |out| && mem[d..d + i] == out[..i]
      invariant OnlyAt(now, mem[..], d, i)
    {
      mem[d + i] := out[i];
      i := i + 1;
    }
    next := mem[..];
    assert next[d..d + |out|] == mem[d..d + |out|];
  }

  // ------------------------------------------------------------ url_decode

  /** The escape at s, if it is complete. */
  method ReadEscape(mem: array<byte>, s: nat, end: nat, ghost rest: bytes) returns (u: Unit)
    requires s < end <= mem.Length && rest == mem[s..end] && rest[0] == PERCENT
    ensures u == First(rest)
  {
    assert forall i :: 0 <= i < |rest| ==> rest[i] == mem[s + i];
    if s + 2 < end && IsHexDigit(mem[s + 1]) && IsHexDigit(mem[s + 2]) {
      return Piece([Hex2(mem[s + 1], mem[s + 2])], 3);
    } else if s + 5 < end && (mem[s + 1] == 117 || mem[s + 1] == 85)
              && IsHexDigit(mem[s + 2]) && IsHexDigit(mem[s + 3]) && IsHexDigit(mem[s + 4]) && IsHexDigit(mem[s + 5]) {
      var c := Hex2(mem[s + 2], mem[s + 3]) * 256 + Hex2(mem[s + 4], mem[s + 5]);
      return Piece(Charsets.Utf8Of(c), 6);
    } else if s + 5 < end
              || (s + 2 < end && !IsHexDigit(mem[s + 2]))
              || (s + 1 < end && !IsHexDigit(mem[s + 1]) && mem[s + 1] != 117 && mem[s + 1] != 85) {
      return Stop(BadSeq);
    } else {
      return Stop(Incomplete);
    }
  }

  /** The cases of the switch. */
  method ReadOne(mem: array<byte>, s: nat, end: nat, ghost rest: bytes) returns (u: Unit)
    requires s < end <= mem.Length && rest == mem[s..end]
    ensures u == First(rest)
  {
    var c := mem[s];
    assert rest[0] == c;
    if c == PLUS {
      u := Piece([SPACE], 1);
    } else if c == PERCENT {
      u := ReadEscape(mem, s, end, rest);
    } else if 0 < c < 128 {
      u := Piece([c], 1);
    } else {
      u := Stop(BadChar);
    }
  }

  /** Source and destination are apart, or the destination starts no later. */
  predicate Placed(dest: nat, src: nat, slen: nat) { dest <= src || src + slen <= dest }

  /** used bytes of the source S have been read, and out written to dest. */
  ghost predicate Written(was: bytes, now: bytes, dest: nat, S: bytes, used: nat, out: bytes) {
    |out| <= used <= |S| && dest + |S| < |was| && Holds(now, dest, out) && OnlyAt(was, now, dest, |out|)
  }

  /** What has been written lies in front of what is still to be read, or elsewhere. */
  lemma UnreadKept(was: bytes, now: bytes, dest: nat, src: nat, S: bytes, used: nat, out: bytes)
    requires Placed(dest, src, |S|) && Holds(was, src, S) && Written(was, now, dest, S, used, out)
    ensures Holds(now, src + used, S[used..])
  {
    HoldsRest(was, src, S, used);
    HoldsStill(was, now, src + used, S[used..], dest, |out|);
  }

  lemma WrittenMore(was: bytes, now: bytes, next: bytes, dest: nat, S: bytes, used: nat, out: bytes, more: bytes,
                    len: nat, d: nat)
    requires Written(was, now, dest, S, used, out) && |more| <= len && used + len <= |S| && d == dest + |out|
    requires Holds(next, d, more) && OnlyAt(now, next, d, |more|)
    ensures Written(was, next, dest, S, used + len, out + more)
  {
    HoldsStill(now, next, dest, out, d, |more|);
    HoldsBoth(next, dest, out, more);
    OnlyAtGrows(was, now, next, dest, |out|, |more|);
  }

  /** One character: the bytes it decodes to are stored behind the others. */
  method DecodeOne(mem: array<byte>, dest: nat, src: nat, end: nat, dlen: nat, used: nat,
                   ghost was: bytes, ghost now: bytes, ghost S: bytes, ghost out: bytes)
    returns (u: Unit, ghost next: bytes)
    requires now == mem[..] && dlen == |out| && used < |S| && end == src + |S|
    requires Placed(dest, src, |S|) && Holds(was, src, S) && Written(was, now, dest, S, used, out)
    modifies mem
    ensures next == mem[..] && u == First(S[used..])
    ensures u.Stop? ==> next == now
    ensures u.Piece? ==> Written(was, next, dest, S, used + u.len, out + u.out)
  {
    ghost var rest := S[used..];
    UnreadKept(was, now, dest, src, S, used, out);
    assert mem[src + used..end] == rest;
    u := ReadOne(mem, src + used, end, rest);
    next := now;
    if u.Piece? {
      var d := dest + dlen;
      next := Store(mem, d, u.out, now);
      WrittenMore(was, now, next, dest, S, used, out, u.out, u.len, d);
    }
  }

  /** The loop over the source. */
  method DecodeAll(mem: array<byte>, dest: nat, src: nat, end: nat, ghost was: bytes, ghost S: bytes)
    returns (st: Status, dlen: nat, used: nat, ghost out: bytes, ghost now: bytes)
    requires was == mem[..] && Holds(was, src, S)
    requires end == src + |S| && dest + |S| < mem.Length && Placed(dest, src, |S|)
    modifies mem
    ensures now == mem[..] && Written(was, now, dest, S, used, out) && dlen == |out|
    ensures Decode(S) == Decoded(st, out, used)
  {
    used, dlen, out, now := 0, 0, [], was;
    ghost var goal := Decode(S);
    assert S[0..] == S && [] + goal.out == goal.out;
    while src + used < end
      invariant now == mem[..] && dlen == |out| && Written(was, now, dest, S, used, out)
      invariant Halfway(S, used, out, goal)
    {
      var u;
      u, now := DecodeOne(mem, dest, src, end, dlen, used, was, now, S, out);
      if u.Stop? {
        HalfwayDone(S, used, out, goal);
        return u.st, dlen, used, out, now;
      }
      ghost var k, before := used, out;
      dlen, used, out := dlen + |u.out|, used + u.len, out + u.out;
      HalfwayMore(S, k, before, goal, u, used, out);
    }
    HalfwayDone(S, used, out, goal);
    st := Success;
  }

  /** What the exits leave behind the decoded bytes: an unfinished escape, and a NUL. */
  method Leave(mem: array<byte>, d: nat, s: nat, n: nat, st: Status, ghost now: bytes, ghost rest: bytes)
    returns (ghost next: bytes)
    requires now == mem[..] && |rest| == n && Holds(now, s, rest) && d + n < mem.Length
    modifies mem
    ensures next == mem[..] && OnlyAt(now, next, d, n + 1)
    ensures Holds(next, d, (if st == Incomplete then rest else []) + [0]) && (st == Incomplete ==> Holds(next, d, rest))
  {
    ghost var half := now;
    var end := d;
    if st == Incomplete {
      half := Move(mem, d, s, n, now, rest);
      end := d + n;
    }
    mem[end] := 0;
    next := mem[..];
    assert next[end..end + 1] == [0];
    if st == Incomplete {
      HoldsStill(half, next, d, rest, end, 1);
      HoldsBoth(next, d, rest, [0]);
    }
  }

  /** url_decode, in place or not: status, decoded bytes and bytes read are those of
      Decode, and an unfinished escape is moved behind the decoded bytes. */
  method UrlDecode(mem: array<byte>, dest: nat, src: nat, slen: nat, ghost was: bytes, ghost S: bytes)
    returns (st: Status, dlen: nat, used: nat, ghost out: bytes, ghost now: bytes)
    requires was == mem[..] && |S| == slen && Holds(was, src, S)
    requires dest + slen < mem.Length && Placed(dest, src, slen)
    modifies mem
    ensures Decode(S) == Decoded(st, out, used) && dlen == |out| <= used <= slen
    ensures now == mem[..] && Holds(now, dest, out) && OnlyAt(was, now, dest, slen + 1)
    ensures Holds(now, dest + dlen, (if st == Incomplete then S[used..] else []) + [0])
    ensures st == Incomplete ==> Holds(now, dest + dlen, S[used..])
  {
    ghost var half;
    st, dlen, used, out, half := DecodeAll(mem, dest, src, src + slen, was, S);
    now := Finish(mem, dest, src, slen, st, dlen, used, was, half, S, out);
  }

  /** The exits of url_decode. */
  method Finish(mem: array<byte>, dest: nat, src: nat, slen: nat, st: Status, dlen: nat, used: nat,
                ghost was: bytes, ghost half: bytes, ghost S: bytes, ghost out: bytes)
    returns (ghost now: bytes)
    requires half == mem[..] && |S| == slen && Holds(was, src, S) && Placed(dest, src, slen)
    requires dlen == |out| && Written(was, half, dest, S, used, out)
    modifies mem
    ensures now == mem[..] && Holds(now, dest, out) && OnlyAt(was, now, dest, slen + 1)
    ensures Holds(now, dest + dlen, (if st == Incomplete then S[used..] else []) + [0])
    ensures st == Incomplete ==> Holds(now, dest + dlen, S[used..])
  {
    UnreadKept(was, half, dest, src, S, used, out);
    now := Leave(mem, dest + dlen, src + used, slen - used, st, half, S[used..]);
    LeftBehind(was, half, now, dest, S, used, out, dest + dlen, slen - used + 1, slen + 1);
  }

  lemma LeftBehind(was: bytes, half: bytes, now: bytes, dest: nat, S: bytes, used: nat, out: bytes, at: nat, n: nat,
                   room: nat)
    requires Written(was, half, dest, S, used, out) && OnlyAt(half, now, at, n)
    requires at == dest + |out| && n == |S| - used + 1 && room == |S| + 1
    ensures Holds(now, dest, out) && OnlyAt(was, now, dest, room)
  {
    HoldsStill(half, now, dest, out, at, n);
    OnlyAtGrows(was, half, now, dest, |out|, n);
  }

  // ------------------------------------------------------------ apreq_decodev

  /** A struct iovec: where a piece lies and how long it is. */
  datatype Iovec = Iovec(base: nat, len: nat)

  ghost predicate PieceAt(m: bytes, v: Iovec, piece: bytes) { v.len == |piece| && Holds(m, v.base, piece) }

  /** The piece lies outside the room the decoder writes to. */
  predicate Apart(v: Iovec, dest: nat, room: nat) { v.base + v.len <= dest || dest + room <= v.base }

  /** The pieces as apreq_decodev finds them: in memory, away from the destination. */
  ghost predicate Laid(m: bytes, vs: seq<Iovec>, ps: seq<bytes>, dest: nat, room: nat) {
    && |vs| == |ps| && dest + room <= |m|
    && forall i :: 0 <= i < |vs| ==> PieceAt(m, vs[i], ps[i]) && Apart(vs[i], dest, room)
  }

  /** What comes behind piece n. */
  ghost function Behind(ps: seq<bytes>, n: nat): bytes { if n < |ps| then Flatten(ps[n + 1..]) else [] }

  lemma BehindNext(ps: seq<bytes>, n: nat)
    requires n < |ps|
    ensures n + 1 < |ps| ==> Behind(ps, n) == ps[n + 1] + Behind(ps, n + 1)
    ensures n + 1 == |ps| ==> Behind(ps, n) == [] && Behind(ps, n + 1) == []
  {
    if n + 1 < |ps| { FlattenFrom(ps, n + 1); }
  }

  /** The pieces as they were, and the room the call may write to. */
  datatype Call = Call(was: bytes, vs: seq<Iovec>, ps: seq<bytes>, dest: nat, room: nat)

  /** Between two pieces: out has been written, the pieces from n on are as they were. */
  ghost predicate Between(c: Call, now: bytes, vs: seq<Iovec>, n: nat, out: bytes) {
    && |vs| == |c.vs| && Laid(c.was, c.vs, c.ps, c.dest, c.room) && OnlyAt(c.was, now, c.dest, c.room)
    && |out| < c.room && Holds(now, c.dest, out)
    && forall j :: n <= j < |vs| ==> vs[j] == c.vs[j]
  }

  /** The loop stands in front of piece n, which holds front. */
  ghost predicate AtPiece(c: Call, now: bytes, vs: seq<Iovec>, n: nat, front: bytes, out: bytes) {
    && n < |vs| && Between(c, now, vs, n + 1, out) && |out| + |front| < c.room
    && PieceAt(now, vs[n], front) && Placed(c.dest + |out|, vs[n].base, vs[n].len)
  }

  /** The next piece is where it was. */
  lemma NextPiece(c: Call, now: bytes, vs: seq<Iovec>, n: nat, out: bytes)
    requires n < |vs| && Between(c, now, vs, n, out)
    ensures vs[n] == c.vs[n] && PieceAt(now, vs[n], c.ps[n]) && Apart(vs[n], c.dest, c.room)
  {
    HoldsStill(c.was, now, c.vs[n].base, c.ps[n], c.dest, c.room);
  }

  /** Piece n has been decoded where it lies. */
  lemma PieceDone(c: Call, now: bytes, next: bytes, vs: seq<Iovec>, n: nat, front: bytes, out: bytes, more: bytes,
                  d: nat, room: nat)
    requires AtPiece(c, now, vs, n, front, out) && |more| <= |front| && d == c.dest + |out| && room == |front| + 1
    requires Holds(next, d, more) && OnlyAt(now, next, d, room)
    ensures Between(c, next, vs, n + 1, out + more)
  {
    HoldsStill(now, next, c.dest, out, d, room);
    HoldsBoth(next, c.dest, out, more);
    OnlyAtInside(c.was, now, next, c.dest, c.room, d, room);
  }

  /** url_decode on piece n. */
  method DecodePiece(mem: array<byte>, v: Iovec, dest: nat, dlen: nat, ghost c: Call, ghost now: bytes,
                     ghost vs: seq<Iovec>,
                     ghost n: nat, ghost front: bytes, ghost out: bytes)
    returns (st: Status, len: nat, left: nat, ghost r: Decoded, ghost next: bytes)
    requires now == mem[..] && dest == c.dest && dlen == |out| && AtPiece(c, now, vs, n, front, out) && v == vs[n]
    modifies mem
    ensures next == mem[..] && r == Decode(front) && st == r.st && len == |r.out| && left == |front| - r.used
    ensures Between(c, next, vs, n + 1, out + r.out)
    ensures st == Incomplete ==> Holds(next, dest + dlen + len, front[r.used..])
  {
    var d, used := dest + dlen, 0;
    ghost var more;
    st, len, used, more, next := UrlDecode(mem, d, v.base, v.len, now, front);
    left := v.len - used;
    r := Decoded(st, more, used);
    PieceDone(c, now, next, vs, n, front, out, more, d, v.len + 1);
  }

  /** The unfinished escape in front of the next piece. */
  lemma CarryPlaced(c: Call, now: bytes, next: bytes, vs: seq<Iovec>, vs': seq<Iovec>, n: nat, carry: bytes,
                    piece: bytes,
                    out: bytes, d: nat, e: nat)
    requires n < |vs| && Between(c, now, vs, n, out) && |out| + |carry| + |piece| < c.room
    requires d == c.dest + |out| && e == d + |carry| && vs' == vs[n := Iovec(d, |carry| + |piece|)]
    requires Holds(now, d, carry) && Holds(next, e, piece) && OnlyAt(now, next, e, |piece|)
    ensures AtPiece(c, next, vs', n, carry + piece, out)
  {
    HoldsStill(now, next, c.dest, out, e, |piece|);
    HoldsStill(now, next, d, carry, e, |piece|);
    HoldsBoth(next, d, carry, piece);
    OnlyAtInside(c.was, now, next, c.dest, c.room, e, |piece|);
  }

  /** memcpy(d + slen, v[n].iov_base, v[n].iov_len), and the iovec that covers both. */
  method Carry(mem: array<byte>, iov: array<Iovec>, n: nat, dest: nat, dlen: nat, slen: nat,
               ghost c: Call, ghost now: bytes, ghost carry: bytes, ghost out: bytes)
    returns (ghost next: bytes)
    requires now == mem[..] && dest == c.dest && dlen == |out| && slen == |carry|
    requires n < iov.Length && Between(c, now, iov[..], n, out) && |out| + |carry| + |c.ps[n]| < c.room
    requires Holds(now, dest + dlen, carry)
    modifies mem, iov
    ensures next == mem[..] && AtPiece(c, next, iov[..], n, carry + c.ps[n], out)
  {
    ghost var vs := iov[..];
    NextPiece(c, now, vs, n, out);
    var v := iov[n];
    assert v == vs[n];
    var d := dest + dlen;
    next := Move(mem, d + slen, v.base, v.len, now, c.ps[n]);
    iov[n] := Iovec(d, slen + v.len);
    assert iov[..] == vs[n := Iovec(d, slen + v.len)];
    CarryPlaced(c, now, next, vs, iov[..], n, carry, c.ps[n], out, d, d + slen);
  }

  /** What is left of one piece joins the next. */
  lemma Rejoin(J: bytes, ps: seq<bytes>, n: nat, out: bytes, used: nat, carry: bytes)
    requires n < |ps| && Vectored(J, out, used, carry, Behind(ps, n))
    ensures n + 1 < |ps| ==> Vectored(J, out, used, carry + ps[n + 1], Behind(ps, n + 1))
    ensures n + 1 < |ps| && carry == [] ==> Vectored(J, out, used, ps[n + 1], Behind(ps, n + 1))
    ensures n + 1 == |ps| ==> Vectored(J, out, used, carry, [])
  {
    BehindNext(ps, n);
    if n + 1 < |ps| {
      assert carry + (ps[n + 1] + Behind(ps, n + 1)) == (carry + ps[n + 1]) + Behind(ps, n + 1);
      assert carry == [] ==> carry + ps[n + 1] == ps[n + 1];
    }
  }

  /** What the loop finds in front of piece n. */
  ghost predicate Facing(c: Call, now: bytes, vs: seq<Iovec>, n: nat, front: bytes, out: bytes, used: nat) {
    && n <= |c.ps| && c.room == |Flatten(c.ps)| + 1
    && if n < |c.ps| then
         AtPiece(c, now, vs, n, front, out) && Vectored(Flatten(c.ps), out, used, front, Behind(c.ps, n))
       else
         Between(c, now, vs, n, out) && Vectored(Flatten(c.ps), out, used, [], [])
  }

  lemma FacesNext(c: Call, now: bytes, vs: seq<Iovec>, n: nat, out: bytes, used: nat)
    requires n < |c.ps| && c.room == |Flatten(c.ps)| + 1 && Between(c, now, vs, n + 1, out)
    requires Vectored(Flatten(c.ps), out, used, [], Behind(c.ps, n))
    ensures Facing(c, now, vs, n + 1, if n + 1 < |c.ps| then c.ps[n + 1] else [], out, used)
  {
    Rejoin(Flatten(c.ps), c.ps, n, out, used, []);
    if n + 1 < |c.ps| { NextPiece(c, now, vs, n + 1, out); }
  }

  lemma FacesFirst(c: Call)
    requires Laid(c.was, c.vs, c.ps, c.dest, c.room) && c.room == |Flatten(c.ps)| + 1
    ensures Facing(c, c.was, c.vs, 0, if c.ps == [] then [] else c.ps[0], [], 0)
  {
    var J := Flatten(c.ps);
    assert [] + Decode(J).out == Decode(J).out;
    assert [] + [] == J || c.ps != [];
  }

  /** How far the call has come: what has been decoded, of how many bytes. */
  datatype Done = Done(out: bytes, used: nat)

  /** The call is over. */
  ghost predicate Answered(c: Call, now: bytes, st: Status, d: Done) {
    && Decode(Flatten(c.ps)) == Decoded(st, d.out, d.used)
    && OnlyAt(c.was, now, c.dest, c.room) && Holds(now, c.dest, d.out)
  }

  /** Piece n has left an unfinished escape behind what has been decoded. */
  ghost predicate Carrying(c: Call, now: bytes, vs: seq<Iovec>, n: nat, carry: bytes, d: Done) {
    && n + 1 < |c.ps| && c.room == |Flatten(c.ps)| + 1 && Between(c, now, vs, n + 1, d.out)
    && Vectored(Flatten(c.ps), d.out, d.used, carry, Behind(c.ps, n)) && Holds(now, c.dest + |d.out|, carry)
  }

  /** Where a piece leaves the call. */
  ghost predicate PieceLeft(c: Call, now: bytes, vs: seq<Iovec>, n: nat, st: Status, carry: bytes, d: Done) {
    && n < |c.ps|
    && (st == Success ==> Facing(c, now, vs, n + 1, if n + 1 < |c.ps| then c.ps[n + 1] else [], d.out, d.used))
    && (st == Incomplete && n + 1 < |c.ps| ==> Carrying(c, now, vs, n, carry, d))
    && (st != Success && !(st == Incomplete && n + 1 < |c.ps|) ==> Answered(c, now, st, d))
  }

  lemma PieceSucceeds(c: Call, now: bytes, vs: seq<Iovec>, n: nat, d: Done, carry: bytes)
    requires n < |c.ps| && c.room == |Flatten(c.ps)| + 1 && Between(c, now, vs, n + 1, d.out)
    requires Vectored(Flatten(c.ps), d.out, d.used, [], Behind(c.ps, n))
    ensures PieceLeft(c, now, vs, n, Success, carry, d)
  {
    FacesNext(c, now, vs, n, d.out, d.used);
  }

  lemma PieceUnfinished(c: Call, now: bytes, vs: seq<Iovec>, n: nat, d: Done, carry: bytes, at: nat)
    requires n < |c.ps| && c.room == |Flatten(c.ps)| + 1 && Between(c, now, vs, n + 1, d.out)
    requires Vectored(Flatten(c.ps), d.out, d.used, carry, Behind(c.ps, n))
    requires Decode(carry) == Decoded(Incomplete, [], 0)
    requires at == c.dest + |d.out| && Holds(now, at, carry)
    ensures PieceLeft(c, now, vs, n, Incomplete, carry, d)
  {
    if n + 1 == |c.ps| {
      Rejoin(Flatten(c.ps), c.ps, n, d.out, d.used, carry);
      VectorEnds(Flatten(c.ps), d.out, d.used, carry);
    }
  }

  lemma PieceEnds(c: Call, was: bytes, now: bytes, vs: seq<Iovec>, n: nat, front: bytes, d: Done, d': Done,
                  st: Status, r: Decoded, carry: bytes, at: nat)
    requires n < |c.ps| && Facing(c, was, vs, n, front, d.out, d.used) && Between(c, now, vs, n + 1, d'.out)
    requires r == Decode(front) && d' == Done(d.out + r.out, d.used + r.used) && carry == front[r.used..]
    requires st == r.st && at == c.dest + |d'.out| && (st == Incomplete ==> Holds(now, at, carry))
    ensures PieceLeft(c, now, vs, n, st, carry, d')
  {
    VectorMore(Flatten(c.ps), d.out, d.used, front, Behind(c.ps, n));
    if st == Success {
      assert carry == [];
      PieceSucceeds(c, now, vs, n, d', carry);
    } else if st == Incomplete {
      UnfinishedRest(front);
      PieceUnfinished(c, now, vs, n, d', carry, at);
    }
  }

  lemma CarryFaces(c: Call, now: bytes, vs: seq<Iovec>, n: nat, carry: bytes, d: Done)
    requires n + 1 < |c.ps| && c.room == |Flatten(c.ps)| + 1
    requires AtPiece(c, now, vs, n + 1, carry + c.ps[n + 1], d.out)
    requires Vectored(Flatten(c.ps), d.out, d.used, carry, Behind(c.ps, n))
    ensures Facing(c, now, vs, n + 1, carry + c.ps[n + 1], d.out, d.used)
  {
    Rejoin(Flatten(c.ps), c.ps, n, d.out, d.used, carry);
  }

  lemma CarryFits(c: Call, now: bytes, vs: seq<Iovec>, n: nat, carry: bytes, d: Done)
    requires Carrying(c, now, vs, n, carry, d)
    ensures |d.out| + |carry| + |c.ps[n + 1]| < c.room
  {
    BehindNext(c.ps, n);
  }

  method CarryOn(mem: array<byte>, iov: array<Iovec>, n: nat, dest: nat, dlen: nat, left: nat,
                 ghost c: Call, ghost now: bytes, ghost carry: bytes, ghost d: Done)
    returns (ghost next: bytes)
    requires now == mem[..] && dest == c.dest && dlen == |d.out| && left == |carry| && iov.Length == |c.ps|
    requires Carrying(c, now, iov[..], n, carry, d)
    modifies mem, iov
    ensures next == mem[..] && Facing(c, next, iov[..], n + 1, carry + c.ps[n + 1], d.out, d.used)
  {
    CarryFits(c, now, iov[..], n, carry, d);
    next := Carry(mem, iov, n + 1, dest, dlen, left, c, now, carry, d.out);
    CarryFaces(c, next, iov[..], n, carry, d);
  }

  /** One turn of the loop over the pieces. */
  method Turn(mem: array<byte>, iov: array<Iovec>, n: nat, dest: nat, dlen: nat,
              ghost c: Call, ghost now: bytes, ghost front: bytes, ghost d: Done)
    returns (st: Status, len: nat, ghost next: bytes, ghost front': bytes, ghost d': Done)
    requires now == mem[..] && dest == c.dest && dlen == |d.out| && n < iov.Length == |c.ps|
    requires Facing(c, now, iov[..], n, front, d.out, d.used)
    modifies mem, iov
    ensures next == mem[..] && |d'.out| == dlen + len
    ensures st == Success ==> Facing(c, next, iov[..], n + 1, front', d'.out, d'.used)
    ensures st != Success ==> Answered(c, next, st, d')
  {
    var left;
    ghost var vs := iov[..];
    ghost var r;
    st, len, left, r, next := DecodePiece(mem, iov[n], dest, dlen, c, now, vs, n, front, d.out);
    ghost var carry := front[r.used..];
    d' := Done(d.out + r.out, d.used + r.used);
    PieceEnds(c, now, next, vs, n, front, d, d', st, r, carry, dest + dlen + len);
    front' := if n + 1 < |c.ps| then c.ps[n + 1] else [];
    if st == Incomplete && n + 1 < iov.Length {
      next := CarryOn(mem, iov, n, dest, dlen + len, left, c, next, carry, d');
      front' := carry + c.ps[n + 1];
      st := Success;
    }
  }

  /** apreq_decodev: whatever the pieces are, status, length and bytes are those of
      decoding them in one. */
  method Decodev(mem: array<byte>, dest: nat, iov: array<Iovec>, ghost ps: seq<bytes>)
    returns (st: Status, dlen: nat, ghost out: bytes, ghost used: nat)
    requires Laid(mem[..], iov[..], ps, dest, |Flatten(ps)| + 1)
    modifies mem, iov
    ensures Decode(Flatten(ps)) == Decoded(st, out, used) && dlen == |out|
    ensures Holds(mem[..], dest, out) && OnlyAt(old(mem[..]), mem[..], dest, |Flatten(ps)| + 1)
  {
    ghost var c, now := Call(mem[..], iov[..], ps, dest, |Flatten(ps)| + 1), mem[..];
    ghost var front, d := if ps == [] then [] else ps[0], Done([], 0);
    FacesFirst(c);
    dlen := 0;
    var n := 0;
    while n < iov.Length
      invariant n <= iov.Length && now == mem[..] && dlen == |d.out| && Facing(c, now, iov[..], n, front, d.out, d.used)
    {
      var len;
      st, len, now, front, d := Turn(mem, iov, n, dest, dlen, c, now, front, d);
      dlen := dlen + len;
      if st != Success {
        return st, dlen, d.out, d.used;
      }
      n := n + 1;
    }
    VectorEnds(Flatten(ps), d.out, d.used, []);
    return Success, dlen, d.out, d.used;
  }
}
