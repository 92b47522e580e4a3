/** Bucket brigades: a ring of byte buckets, possibly ended by an EOS bucket.
    EOS is a mark on the brigade rather than a bucket of its own, so nothing can
    follow it. */
module Brigades {
  import opened Bytes

  /** What a reader of the brigade sees, without the bucket boundaries. */
  function Flatten(bs: seq<bytes>): bytes {
    if bs == [] then [] else bs[0] + Flatten(bs[1..])
  }

  lemma {:induction false} FlattenConcat(a: seq<bytes>, b: seq<bytes>)
    ensures Flatten(a + b) == Flatten(a) + Flatten(b)
  {
    if a == [] {
      assert a + b == b;
    } else {
      FlattenConcat(a[1..], b);
      assert (a + b)[1..] == a[1..] + b;
      assert a[0] + (Flatten(a[1..]) + Flatten(b)) == (a[0] + Flatten(a[1..])) + Flatten(b);
    }
  }

  lemma FlattenOne(b: bytes)
    ensures Flatten([b]) == b
  {
    assert [b][1..] == [];
  }

  lemma FlattenCut(bs: seq<bytes>, e: nat)
    requires e <= |bs|
    ensures Flatten(bs) == Flatten(bs[..e]) + Flatten(bs[e..])
  {
    assert bs == bs[..e] + bs[e..];
    FlattenConcat(bs[..e], bs[e..]);
  }

  /** The buckets from a cursor on: the one under it, then the others. */
  lemma FlattenFrom(bs: seq<bytes>, e: nat)
    requires e < |bs|
    ensures Flatten(bs[e..]) == bs[e] + Flatten(bs[e + 1..])
  {
    assert bs[e..][1..] == bs[e + 1..];
  }

  lemma FlattenUpTo(bs: seq<bytes>, e: nat)
    requires e < |bs|
    ensures Flatten(bs[..e + 1]) == Flatten(bs[..e]) + bs[e]
  {
    assert bs[..e + 1] == bs[..e] + [bs[e]];
    FlattenConcat(bs[..e], [bs[e]]);
    FlattenOne(bs[e]);
  }

  lemma FlattenSlice(list: seq<bytes>, i: nat, j: nat, k: nat)
    requires i <= j <= k <= |list|
    ensures Flatten(list[i..k]) == Flatten(list[i..j]) + Flatten(list[j..k])
  {
    assert list[i..k] == list[i..j] + list[j..k];
    FlattenConcat(list[i..j], list[j..k]);
  }

  lemma FlattenSliceNext(list: seq<bytes>, i: nat, j: nat)
    requires i <= j < |list|
    ensures Flatten(list[i..j + 1]) == Flatten(list[i..j]) + list[j]
  {
    FlattenSlice(list, i, j, j + 1);
    assert list[j..j + 1] == [list[j]];
    FlattenOne(list[j]);
  }

  // ------------------------------------------------------------ a cursor

  /** What is still to be read from the cursor on. */
  ghost function Rest(list: seq<bytes>, e: nat, off: nat): bytes
    requires e <= |list| && (off > 0 ==> e < |list| && off <= |list[e]|)
  {
    if off > 0 then list[e][off..] + Flatten(list[e + 1..]) else Flatten(list[e..])
  }

  lemma RestStarts(list: seq<bytes>, e: nat, off: nat)
    requires e < |list| && off < |list[e]|
    ensures Rest(list, e, off) == [list[e][off]] + (list[e][off + 1..] + Flatten(list[e + 1..]))
  {
    var b, more := list[e], Flatten(list[e + 1..]);
    HeadTail(b, off);
    Assoc([b[off]], b[off + 1..], more);
    if off == 0 { FlattenFrom(list, e); }
  }

  lemma RestSteps(list: seq<bytes>, e: nat, off: nat, list2: seq<bytes>, e2: nat, off2: nat)
    requires e < |list| && off < |list[e]|
    requires e2 < |list2| && 0 < off2 <= |list2[e2]|
    requires list2[e2][off2..] == list[e][off + 1..] && list2[e2 + 1..] == list[e + 1..]
    ensures Rest(list, e, off) == [list[e][off]] + Rest(list2, e2, off2)
  {
    RestStarts(list, e, off);
  }

  // ------------------------------------------------------------ several calls

  /** All that a sequence of calls is given, one list of buckets a call. */
  function Joined(calls: seq<seq<bytes>>): bytes {
    if calls == [] then [] else Flatten(calls[0]) + Joined(calls[1..])
  }

  lemma {:induction false} JoinedCut(calls: seq<seq<bytes>>, i: nat)
    requires i <= |calls|
    ensures Joined(calls) == Joined(calls[..i]) + Joined(calls[i..])
  {
    if i > 0 {
      JoinedCut(calls[1..], i - 1);
      assert calls[1..][..i - 1] == calls[..i][1..];
      assert calls[1..][i - 1..] == calls[i..];
      var a, b, c := Flatten(calls[0]), Joined(calls[..i][1..]), Joined(calls[i..]);
      assert a + (b + c) == (a + b) + c;
    } else {
      assert calls[..0] == [] && calls[0..] == calls;
    }
  }

  lemma JoinedNext(calls: seq<seq<bytes>>, i: nat)
    requires i < |calls|
    ensures Joined(calls[..i + 1]) == Joined(calls[..i]) + Flatten(calls[i])
  {
    JoinedCut(calls[..i + 1], i);
    assert calls[..i + 1][..i] == calls[..i];
    assert calls[..i + 1][i..] == [calls[i]];
    var last := [calls[i]];
    assert last[1..] == [];
  }

  // ------------------------------------------------------------ splitting

  /** apr_bucket_split on the bucket at e: the list with that bucket cut at point. */
  function SplitAt(bs: seq<bytes>, e: nat, point: nat): (r: seq<bytes>)
    requires e < |bs| && point <= |bs[e]|
  {
    bs[..e] + ([bs[e][..point]] + ([bs[e][point..]] + bs[e + 1..]))
  }

  /** The buckets of a split list. */
  lemma SplitParts(bs: seq<bytes>, e: nat, point: nat)
    requires e < |bs| && point <= |bs[e]|
    ensures |SplitAt(bs, e, point)| == |bs| + 1
    ensures SplitAt(bs, e, point)[..e] == bs[..e]
    ensures SplitAt(bs, e, point)[e] == bs[e][..point]
    ensures SplitAt(bs, e, point)[e + 1] == bs[e][point..]
    ensures SplitAt(bs, e, point)[e + 2..] == bs[e + 1..]
  {
  }

  /** Cutting a bucket moves no byte. */
  lemma SplitKeepsStream(bs: seq<bytes>, e: nat, point: nat)
    requires e < |bs| && point <= |bs[e]|
    ensures Flatten(SplitAt(bs, e, point)) == Flatten(bs)
  {
    var a, b := bs[e][..point], bs[e][point..];
    var tail := bs[e + 1..];
    FlattenCut(bs, e);
    FlattenFrom(bs, e);
    FlattenConcat(bs[..e], [a] + ([b] + tail));
    FlattenConcat([a], [b] + tail);
    FlattenConcat([b], tail);
    FlattenOne(a);
    FlattenOne(b);
    assert a + b == bs[e];
    assert a + (b + Flatten(tail)) == (a + b) + Flatten(tail);
  }

  /** An apr_table_t filled by apreq_value_table_add. */
  class Table<T> {
    var rows: seq<T>

    constructor ()
      ensures rows == []
    {
      rows := [];
    }
  }

  /** A brigade as the parsers hold it: the ring is a sequence that the ring
      operations reassign. A cursor into the ring is an index; the sentinel is |list|. */
  class Brigade {
    var list: seq<bytes>
    var eos: bool

    constructor ()
      ensures list == [] && !eos
    {
      list, eos := [], false;
    }

    function Stream(): bytes
      reads this
    {
      Flatten(list)
    }

    /** apr_bucket_split */
    method Split(e: nat, point: nat)
      requires e < |list| && point <= |list[e]|
      modifies this`list
      ensures list == SplitAt(old(list), e, point)
      ensures Stream() == old(Stream())
    {
      SplitKeepsStream(list, e, point);
      list := SplitAt(list, e, point);
    }

    /** APR_BUCKET_REMOVE on the first bucket, then APR_BRIGADE_INSERT_TAIL on another
        brigade. */
    method MoveFirstTo(out: Brigade)
      requires list != [] && out != this
      modifies this`list, out`list
      ensures list == old(list)[1..] && out.list == old(out.list) + [old(list)[0]]
      ensures out.Stream() == old(out.Stream()) + old(list)[0]
      ensures old(Stream()) == old(list)[0] + Stream()
    {
      FlattenConcat(out.list, [list[0]]);
      FlattenOne(list[0]);
      out.list := out.list + [list[0]];
      list := list[1..];
    }

    /** apr_bucket_delete on the first n buckets, one at a time. */
    method DeleteFirst(n: nat)
      requires n <= |list|
      modifies this`list
      ensures list == old(list)[n..]
      ensures old(Stream()) == Flatten(old(list)[..n]) + Stream()
    {
      FlattenCut(list, n);
      var i := 0;
      while i < n
        invariant 0 <= i <= n && list == old(list)[i..]
      {
        list := list[1..];
        i := i + 1;
      }
    }

    /** APR_BRIGADE_CONCAT(this, other): other ends up empty. What would come to lie
        behind an EOS is out of every reader's reach and is dropped. */
    method Concat(other: Brigade)
      requires other != this
      modifies this, other
      ensures other.list == [] && !other.eos
      ensures eos == (old(eos) || old(other.eos))
      ensures list == if old(eos) then old(list) else old(list) + old(other.list)
      ensures Stream() == if old(eos) then old(Stream()) else old(Stream()) + old(other.Stream())
    {
      if !eos {
        FlattenConcat(list, other.list);
        list := list + other.list;
        eos := other.eos;
      }
      other.list, other.eos := [], false;
    }

    /** apr_brigade_cleanup */
    method Cleanup()
      modifies this
      ensures list == [] && !eos && Stream() == []
    {
      list, eos := [], false;
    }
  }
}
