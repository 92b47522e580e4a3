/** Writing brigades to a file (library/util.c): writev may stop short anywhere, and what
    it has not written stays in the vector. */
module Writers {
  import opened Bytes
  import opened Brigades

  const NELTS: nat := 8

  /** A file with its write position. trouble is Success as long as every write has
      succeeded and got on: IoError tells of a write that failed, and General of one that
      wrote nothing of a nonempty first piece. */
  class OutFile {
    var data: bytes
    var pos: nat
    ghost var trouble: Status

    constructor ()
      ensures data == [] && pos == 0 && trouble == Success
    {
      data, pos, trouble := [], 0, Success;
    }

    /** apr_file_writev: some beginning of the vector is written, whatever the status. */
    method Writev(v: seq<bytes>) returns (s: Status, len: nat)
      requires pos <= |data|
      modifies this
      ensures len <= |Flatten(v)| && Wrote(old(data), old(pos), data, pos, Flatten(v)[..len])
      ensures s == Success || s == IoError
      ensures trouble == if s != Success then s else if len == 0 && v != [] && v[0] != [] then General else old(trouble)
    {
      var all := Flatten(v);
      var k: int := *;
      len := if 0 <= k <= |all| then k else |all|;
      var ok: bool := *;
      s := if ok then Success else IoError;
      data := Overwrite(data, pos, all[..len]);
      pos := pos + len;
      trouble := if s != Success then s else if len == 0 && v != [] && v[0] != [] then General else trouble;
    }
  }

  /** The file after w has been written at p. */
  function Overwrite(data: bytes, p: nat, w: bytes): (r: bytes)
    requires p <= |data|
    ensures |r| == if |data| > p + |w| then |data| else p + |w|
    ensures r[..p] == data[..p] && r[p..p + |w|] == w
  {
    data[..p] + w + if |data| > p + |w| then data[p + |w|..] else []
  }

  /** From one state of a file to the next w has been written, and nothing else changed. */
  ghost predicate Wrote(was: bytes, p: nat, now: bytes, q: nat, w: bytes) {
    p <= |was| && now == Overwrite(was, p, w) && q == p + |w|
  }

  lemma OverwriteAt(data: bytes, p: nat, w: bytes, i: nat)
    requires p <= |data| && i < |Overwrite(data, p, w)|
    ensures Overwrite(data, p, w)[i] == if p <= i < p + |w| then w[i - p] else if i < |data| then data[i] else 0
  {
  }

  lemma WroteTwice(a: bytes, p: nat, b: bytes, q: nat, c: bytes, r: nat, v: bytes, w: bytes)
    requires Wrote(a, p, b, q, v) && Wrote(b, q, c, r, w)
    ensures Wrote(a, p, c, r, v + w)
  {
    var d := Overwrite(a, p, v + w);
    forall i | 0 <= i < |c|
      ensures d[i] == c[i]
    {
      OverwriteAt(a, p, v + w, i);
      OverwriteAt(b, q, w, i);
      if i < |b| { OverwriteAt(a, p, v, i); }
    }
    assert d == c;
  }

  // ------------------------------------------------------------ apreq_fwritev

  /** How many leading pieces len bytes cover, and how far they reach into the next. */
  method Covered(v: seq<bytes>, written: nat) returns (n: nat, len: nat)
    requires written <= |Flatten(v)|
    ensures n <= |v| && written == |Flatten(v[..n])| + len
    ensures n < |v| ==> len < |v[n]|
    ensures n == |v| ==> len == 0
  {
    n, len := 0, written;
    while n < |v| && len >= |v[n]|
      invariant n <= |v| && written == |Flatten(v[..n])| + len
    {
      FlattenUpTo(v, n);
      len, n := len - |v[n]|, n + 1;
    }
    FlattenCut(v, n);
    if n == |v| { assert v[..n] == v; }
  }

  lemma Shifted(v: seq<bytes>, n: nat, len: nat)
    requires n < |v| && len <= |v[n]|
    ensures
      var k := |Flatten(v[..n])| + len;
      k <= |Flatten(v)| && Flatten([v[n][len..]] + v[n + 1..]) == Flatten(v)[k..]
  {
    FlattenCut(v, n);
    FlattenFrom(v, n);
    var rest := v[n + 1..];
    FlattenConcat([v[n][len..]], rest);
    FlattenOne(v[n][len..]);
    assert (v[n] + Flatten(rest))[len..] == v[n][len..] + Flatten(rest);
  }

  /** The file has grown by a beginning of the vector, and the rest is pending. */
  ghost predicate Pending(was: bytes, p: nat, now: bytes, q: nat, v: seq<bytes>, v': seq<bytes>, written: nat) {
    written <= |Flatten(v)| && Wrote(was, p, now, q, Flatten(v)[..written]) && Flatten(v') == Flatten(v)[written..]
  }

  lemma PendingMore(a: bytes, p: nat, b: bytes, q: nat, c: bytes, r: nat, v: seq<bytes>, v1: seq<bytes>,
                    w: nat, n: nat, w2: nat)
    requires Pending(a, p, b, q, v, v1, w) && n <= |Flatten(v1)| && Wrote(b, q, c, r, Flatten(v1)[..n]) && w2 == w + n
    ensures w2 <= |Flatten(v)| && Wrote(a, p, c, r, Flatten(v)[..w2])
    ensures Flatten(v1)[n..] == Flatten(v)[w2..]
  {
    var all := Flatten(v);
    assert all[w..][..n] == all[w..w2] && all[..w2] == all[..w] + all[w..w2];
    WroteTwice(a, p, b, q, c, r, all[..w], all[w..w2]);
    DropTwice(all, w, n, w2);
  }

  /** apreq_fwritev: on success at least one piece is gone and the pending pieces are
      exactly what has not been written; an error is that of the write that made it. */
  method Fwritev(f: OutFile, v: seq<bytes>) returns (s: Status, v': seq<bytes>, written: nat)
    requires f.pos <= |f.data| && v != []
    modifies f
    ensures written <= |Flatten(v)| && Wrote(old(f.data), old(f.pos), f.data, f.pos, Flatten(v)[..written])
    ensures s == Success ==> |v'| < |v| && Flatten(v') == Flatten(v)[written..]
    ensures s == Success || s == IoError || s == General
    ensures f.trouble == if s != Success then s else old(f.trouble)
  {
    written, v' := 0, v;
    ghost var a, p, t := f.data, f.pos, f.trouble;
    assert Overwrite(a, p, []) == a;
    while true
      invariant f.trouble == t && |v'| == |v| && f.pos <= |f.data| && Pending(a, p, f.data, f.pos, v, v', written)
      decreases |Flatten(v')|
    {
      ghost var b, q, w := f.data, f.pos, written;
      var len;
      s, len := f.Writev(v');
      written := written + len;
      PendingMore(a, p, b, q, f.data, f.pos, v, v', w, len, written);
      if s != Success {
        return;
      }
      var n, part := Covered(v', len);
      if n == |v'| {
        assert v'[..n] == v';
        v' := [];
        return;
      }
      Shifted(v', n, part);
      var shifted := [v'[n][part..]] + v'[n + 1..];
      if n > 0 {
        v' := shifted;
        return;
      }
      if part == 0 {
        return General, v', written;
      }
      assert v'[..0] == [];
      v' := shifted;
    }
  }

  // ------------------------------------------------------------ apreq_brigade_fwrite

  /** The pieces from e on are still to be collected; v is collected and not yet written. */
  ghost predicate Collected(was: bytes, p: nat, now: bytes, q: nat, list: seq<bytes>, e: nat, v: seq<bytes>,
                            wlen: nat)
  {
    && e <= |list| && wlen <= |Flatten(list[..e])|
    && Wrote(was, p, now, q, Flatten(list[..e])[..wlen]) && Flatten(v) == Flatten(list[..e])[wlen..]
  }

  lemma CollectedMore(was: bytes, p: nat, now: bytes, q: nat, list: seq<bytes>, e: nat, v: seq<bytes>, wlen: nat)
    requires e < |list| && Collected(was, p, now, q, list, e, v, wlen)
    ensures Collected(was, p, now, q, list, e + 1, v + [list[e]], wlen)
  {
    FlattenUpTo(list, e);
    FlattenConcat(v, [list[e]]);
    FlattenOne(list[e]);
    var all := Flatten(list[..e]);
    assert (all + list[e])[..wlen] == all[..wlen] && (all + list[e])[wlen..] == all[wlen..] + list[e];
  }

  lemma CollectedWritten(was: bytes, p: nat, b: bytes, q: nat, c: bytes, r: nat, list: seq<bytes>, e: nat,
                         v: seq<bytes>, v': seq<bytes>, wlen: nat, len: nat)
    requires Collected(was, p, b, q, list, e, v, wlen) && len <= |Flatten(v)|
    requires Wrote(b, q, c, r, Flatten(v)[..len]) && Flatten(v') == Flatten(v)[len..]
    ensures Collected(was, p, c, r, list, e, v', wlen + len)
  {
    var all := Flatten(list[..e]);
    assert all[wlen..][..len] == all[wlen..wlen + len] && all[wlen..][len..] == all[wlen + len..];
    assert all[..wlen + len] == all[..wlen] + all[wlen..wlen + len];
    WroteTwice(was, p, b, q, c, r, all[..wlen], all[wlen..wlen + len]);
  }

  /** What was in front of the write position is still there. */
  ghost predicate Behind(was: bytes, p: nat, now: bytes, q: nat) {
    p <= |was| && p <= q <= |now| && now[..p] == was[..p]
  }

  /** apreq_fwritev on the collected pieces. */
  method Flush(f: OutFile, v: seq<bytes>, ghost was: bytes, ghost p: nat, ghost list: seq<bytes>, ghost e: nat,
               wlen: nat)
    returns (s: Status, v': seq<bytes>, wlen': nat)
    requires v != [] && f.pos <= |f.data| && Collected(was, p, f.data, f.pos, list, e, v, wlen)
    modifies f
    ensures Behind(was, p, f.data, f.pos)
    ensures s == Success ==> |v'| < |v| && Collected(was, p, f.data, f.pos, list, e, v', wlen')
    ensures s == Success || s == IoError || s == General
    ensures f.trouble == if s != Success then s else old(f.trouble)
  {
    ghost var b, q := f.data, f.pos;
    var len;
    s, v', len := Fwritev(f, v);
    wlen' := wlen + len;
    if s == Success {
      CollectedWritten(was, p, b, q, f.data, f.pos, list, e, v, v', wlen, len);
    }
  }

  /** apreq_brigade_fwrite: on success the file has got exactly the brigade's bytes, in
      order, and wlen is their number; an error is that of the write that made it. */
  method Fwrite(f: OutFile, list: seq<bytes>) returns (s: Status, wlen: nat)
    requires f.pos <= |f.data|
    modifies f
    ensures Behind(old(f.data), old(f.pos), f.data, f.pos)
    ensures s == Success ==> wlen == |Flatten(list)| && Wrote(old(f.data), old(f.pos), f.data, f.pos, Flatten(list))
    ensures s == Success || s == IoError || s == General
    ensures f.trouble == if s != Success then s else old(f.trouble)
  {
    ghost var was, p := f.data, f.pos;
    var v: seq<bytes> := [];
    var e := 0;
    wlen := 0;
    assert Overwrite(was, p, []) == was && list[..0] == [];
    while e < |list|
      invariant f.trouble == old(f.trouble) && |v| <= NELTS && Collected(was, p, f.data, f.pos, list, e, v, wlen)
    {
      if |v| == NELTS {
        s, v, wlen := Flush(f, v, was, p, list, e, wlen);
        if s != Success {
          return;
        }
      }
      CollectedMore(was, p, f.data, f.pos, list, e, v, wlen);
      v, e := v + [list[e]], e + 1;
    }
    while v != []
      invariant f.trouble == old(f.trouble) && Collected(was, p, f.data, f.pos, list, e, v, wlen)
      decreases |v|
    {
      s, v, wlen := Flush(f, v, was, p, list, e, wlen);
      if s != Success {
        return;
      }
    }
    assert list[..e] == list;
    s := Success;
  }
}
