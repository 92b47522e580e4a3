/** Spooling brigades to a temporary file (library/util.c, apreq_brigade_concat): contents
    are kept, memory stays bounded, and the file's buckets cover it without gaps. */
module Spool {
  import opened Bytes
  import opened Brigades
  import opened Writers

  /** (apr_size_t)-1 - 1 for a 64-bit apr_size_t */
  const FILE_BUCKET_LIMIT: nat := 0xFFFF_FFFF_FFFF_FFFE

  /** A bucket in memory, or a range of the file; the last range is the spool bucket. */
  datatype Bucket = Mem(data: bytes) | Range(start: nat, len: nat, spool: bool)

  function Length(b: Bucket): nat { match b case Mem(d) => |d| case Range(_, n, _) => n }

  /** apr_brigade_length */
  function Total(list: seq<Bucket>): nat {
    if list == [] then 0 else Length(list[0]) + Total(list[1..])
  }

  function InMemory(list: seq<Bucket>): nat {
    if list == [] then 0 else (if list[0].Mem? then Length(list[0]) else 0) + InMemory(list[1..])
  }

  predicate Fits(disk: bytes, b: Bucket) { b.Range? ==> b.start + b.len <= |disk| }

  predicate AllFit(disk: bytes, list: seq<Bucket>) { forall i :: 0 <= i < |list| ==> Fits(disk, list[i]) }

  /** What a bucket holds, the file's content being disk. */
  function Content(disk: bytes, b: Bucket): (c: bytes)
    requires Fits(disk, b)
    ensures |c| == Length(b)
  {
    match b case Mem(d) => d case Range(s, n, _) => disk[s..s + n]
  }

  function Contents(disk: bytes, list: seq<Bucket>): (cs: seq<bytes>)
    requires AllFit(disk, list)
    ensures |cs| == |list| && forall i :: 0 <= i < |list| ==> cs[i] == Content(disk, list[i])
  {
    if list == [] then [] else [Content(disk, list[0])] + Contents(disk, list[1..])
  }

  function Text(disk: bytes, list: seq<Bucket>): bytes
    requires AllFit(disk, list)
  {
    Flatten(Contents(disk, list))
  }

  lemma TextConcat(disk: bytes, a: seq<Bucket>, b: seq<Bucket>)
    requires AllFit(disk, a) && AllFit(disk, b)
    ensures AllFit(disk, a + b) && Text(disk, a + b) == Text(disk, a) + Text(disk, b)
  {
    assert Contents(disk, a + b) == Contents(disk, a) + Contents(disk, b);
    FlattenConcat(Contents(disk, a), Contents(disk, b));
  }

  lemma TextOne(disk: bytes, b: Bucket)
    requires Fits(disk, b)
    ensures AllFit(disk, [b]) && Text(disk, [b]) == Content(disk, b)
  {
    assert Contents(disk, [b]) == [Content(disk, b)];
    FlattenOne(Content(disk, b));
  }

  lemma {:induction false} TotalConcat(a: seq<Bucket>, b: seq<Bucket>)
    ensures Total(a + b) == Total(a) + Total(b) && InMemory(a + b) == InMemory(a) + InMemory(b)
  {
    if a == [] {
      assert a + b == b;
    } else {
      TotalConcat(a[1..], b);
      assert (a + b)[1..] == a[1..] + b;
    }
  }

  lemma {:induction false} TotalIsLength(disk: bytes, list: seq<Bucket>)
    requires AllFit(disk, list)
    ensures |Text(disk, list)| == Total(list) && InMemory(list) <= Total(list)
  {
    if list != [] {
      TotalIsLength(disk, list[1..]);
      assert Contents(disk, list)[1..] == Contents(disk, list[1..]);
    }
  }

  /** Writing behind the ranges in use changes no bucket's content. */
  lemma ContentsStay(was: bytes, now: bytes, list: seq<Bucket>, p: nat)
    requires AllFit(was, list) && p <= |was| && p <= |now| && now[..p] == was[..p]
    requires forall i :: 0 <= i < |list| && list[i].Range? ==> list[i].start + list[i].len <= p
    ensures AllFit(now, list) && Text(now, list) == Text(was, list)
  {
    forall i | 0 <= i < |list|
      ensures Fits(now, list[i]) && Content(now, list[i]) == Content(was, list[i])
    {
      if list[i].Range? {
        var s, n := list[i].start, list[i].len;
        SliceOfTake(now, p, s, s + n);
        SliceOfTake(was, p, s, s + n);
      }
    }
    assert Contents(now, list) == Contents(was, list);
  }

  // ------------------------------------------------------------ the file's buckets

  /** The last bucket's type is APREQ_SPOOL. */
  predicate EndsInSpool(list: seq<Bucket>) {
    list != [] && list[|list| - 1].Range? && list[|list| - 1].spool
  }

  /** Neighbouring ranges touch, none is over the limit. */
  predicate Contiguous(list: seq<Bucket>) {
    && (forall i :: 0 <= i < |list| && list[i].Range? ==> list[i].len <= FILE_BUCKET_LIMIT)
    && (forall i :: 0 <= i < |list| - 1 && list[i].Range? && list[i + 1].Range? ==>
          list[i + 1].start == list[i].start + list[i].len)
  }

  /** The end of the ranges in use. */
  function End(list: seq<Bucket>): nat
    requires EndsInSpool(list)
  {
    list[|list| - 1].start + list[|list| - 1].len
  }

  predicate BelowEnd(list: seq<Bucket>)
    requires EndsInSpool(list)
  {
    forall i :: 0 <= i < |list| && list[i].Range? ==> list[i].start + list[i].len <= End(list)
  }

  /** A spool bucket that wlen more bytes have been written behind. */
  function Grown(last: Bucket, wlen: nat): (r: seq<Bucket>)
    requires last.Range? && last.len <= FILE_BUCKET_LIMIT
    ensures r != []
    decreases wlen, last.len
  {
    if wlen > FILE_BUCKET_LIMIT - last.len then
      [Range(last.start, FILE_BUCKET_LIMIT, false)]
      + Grown(Range(last.start + FILE_BUCKET_LIMIT, 0, true), wlen - (FILE_BUCKET_LIMIT - last.len))
    else [Range(last.start, last.len + wlen, true)]
  }

  lemma {:induction false} GrownShape(last: Bucket, wlen: nat)
    requires last.Range? && last.len <= FILE_BUCKET_LIMIT
    ensures
      var r := Grown(last, wlen);
      && EndsInSpool(r) && End(r) == last.start + last.len + wlen && BelowEnd(r)
      && Contiguous(r) && r[0].Range? && r[0].start == last.start && InMemory(r) == 0
    decreases wlen, last.len
  {
    if wlen > FILE_BUCKET_LIMIT - last.len {
      var b := Range(last.start, FILE_BUCKET_LIMIT, false);
      var e := Range(last.start + FILE_BUCKET_LIMIT, 0, true);
      GrownShape(e, wlen - (FILE_BUCKET_LIMIT - last.len));
      RangeInFront(b, Grown(e, wlen - (FILE_BUCKET_LIMIT - last.len)));
    } else {
      assert [Range(last.start, last.len + wlen, true)][1..] == [];
    }
  }

  lemma RangeInFront(b: Bucket, g: seq<Bucket>)
    requires b.Range? && b.len <= FILE_BUCKET_LIMIT && EndsInSpool(g) && Contiguous(g) && BelowEnd(g)
    requires g[0].Range? && g[0].start == b.start + b.len && InMemory(g) == 0
    ensures
      var r := [b] + g;
      EndsInSpool(r) && End(r) == End(g) && BelowEnd(r) && Contiguous(r) && InMemory(r) == 0
  {
    var r := [b] + g;
    assert r[1..] == g;
    forall i | 0 <= i < |r| - 1 && r[i].Range? && r[i + 1].Range?
      ensures r[i + 1].start == r[i].start + r[i].len
    {
      if i > 0 { assert r[i] == g[i - 1] && r[i + 1] == g[i]; }
    }
    forall i | 0 <= i < |r| && r[i].Range?
      ensures r[i].len <= FILE_BUCKET_LIMIT && r[i].start + r[i].len <= End(g)
    {
      if i > 0 { assert r[i] == g[i - 1]; } else { assert g[0].start + g[0].len <= End(g); }
    }
  }

  lemma {:induction false} GrownText(disk: bytes, last: Bucket, wlen: nat)
    requires last.Range? && last.len <= FILE_BUCKET_LIMIT && last.start + last.len + wlen <= |disk|
    ensures
      var r := Grown(last, wlen);
      AllFit(disk, r) && Text(disk, r) == disk[last.start..last.start + last.len + wlen]
    decreases wlen, last.len
  {
    if wlen > FILE_BUCKET_LIMIT - last.len {
      var b := Range(last.start, FILE_BUCKET_LIMIT, false);
      var e := Range(last.start + FILE_BUCKET_LIMIT, 0, true);
      var w := wlen - (FILE_BUCKET_LIMIT - last.len);
      GrownText(disk, e, w);
      TextOne(disk, b);
      TextConcat(disk, [b], Grown(e, w));
      SliceJoins(disk, b.start, e.start, e.start + w);
    } else {
      TextOne(disk, Range(last.start, last.len + wlen, true));
    }
  }

  // ------------------------------------------------------------ what every call keeps

  /** Memory holds nothing, or everything there is is below the limit; the ranges touch
      and lie in the file; without a spool bucket at the end all is below the limit. */
  ghost predicate Bounded(list: seq<Bucket>, limit: nat) {
    && (InMemory(list) == 0 || Total(list) < limit)
    && (EndsInSpool(list) || list == [] || Total(list) < limit)
    && Contiguous(list) && (EndsInSpool(list) ==> BelowEnd(list) && InMemory(list) == 0)
  }

  function MemBuckets(bs: seq<bytes>): (r: seq<Bucket>)
    ensures |r| == |bs| && forall i :: 0 <= i < |bs| ==> r[i] == Mem(bs[i])
  {
    seq(|bs|, i requires 0 <= i < |bs| => Mem(bs[i]))
  }

  lemma MemText(disk: bytes, bs: seq<bytes>)
    ensures AllFit(disk, MemBuckets(bs)) && Text(disk, MemBuckets(bs)) == Flatten(bs)
    ensures Total(MemBuckets(bs)) == |Flatten(bs)|
  {
    assert Contents(disk, MemBuckets(bs)) == bs;
    TotalIsLength(disk, MemBuckets(bs));
  }

  /** Data that stays below the limit is kept in memory. */
  lemma AppendKeepsBounds(list: seq<Bucket>, bs: seq<bytes>, limit: nat)
    requires Bounded(list, limit) && Total(list) + |Flatten(bs)| < limit
    ensures Bounded(list + MemBuckets(bs), limit)
  {
    var more := MemBuckets(bs);
    MemText([], bs);
    TotalConcat(list, more);
    if more == [] {
      assert list + more == list;
    } else {
      MemBehind(list, more);
    }
  }

  lemma MemBehind(list: seq<Bucket>, more: seq<Bucket>)
    requires Contiguous(list) && more != [] && forall i :: 0 <= i < |more| ==> more[i].Mem?
    ensures Contiguous(list + more) && !EndsInSpool(list + more)
  {
    var r := list + more;
    forall i | 0 <= i < |r|
      ensures if i < |list| then r[i] == list[i] else r[i].Mem?
    {
      if i >= |list| { assert r[i] == more[i - |list|]; }
    }
  }

  /** The list with wlen more bytes behind its spool bucket. */
  function GrownList(list: seq<Bucket>, wlen: nat): seq<Bucket>
    requires EndsInSpool(list) && Contiguous(list)
  {
    list[..|list| - 1] + Grown(list[|list| - 1], wlen)
  }

  lemma GrowKeepsText(list: seq<Bucket>, disk: bytes, wlen: nat)
    requires EndsInSpool(list) && Contiguous(list) && AllFit(disk, list) && End(list) + wlen <= |disk|
    ensures
      var r := GrownList(list, wlen);
      AllFit(disk, r) && Text(disk, r) == Text(disk, list) + disk[End(list)..End(list) + wlen]
  {
    var n := |list| - 1;
    var a, last := list[..n], list[n];
    var g := Grown(last, wlen);
    GrownText(disk, last, wlen);
    assert list == a + [last];
    TextConcat(disk, a, [last]);
    TextOne(disk, last);
    TextConcat(disk, a, g);
    TextJoins(disk, Text(disk, a), last.start, End(list), End(list) + wlen);
  }

  lemma TextJoins(disk: bytes, t: bytes, p: nat, q: nat, r: nat)
    requires p <= q <= r <= |disk|
    ensures t + disk[p..r] == (t + disk[p..q]) + disk[q..r]
  {
    SliceJoins(disk, p, q, r);
    Assoc(t, disk[p..q], disk[q..r]);
  }

  /** The last range has grown. */
  lemma GrowKeepsBounds(list: seq<Bucket>, wlen: nat, limit: nat)
    requires Bounded(list, limit) && EndsInSpool(list)
    ensures
      var r := GrownList(list, wlen);
      Bounded(r, limit) && EndsInSpool(r) && End(r) == End(list) + wlen
  {
    var n := |list| - 1;
    var a, last := list[..n], list[n];
    GrownShape(last, wlen);
    assert list == a + [last];
    TotalConcat(a, [last]);
    TotalConcat(a, Grown(last, wlen));
    GrowStaysContiguous(a, last, Grown(last, wlen));
  }

  lemma GrowStaysContiguous(a: seq<Bucket>, last: Bucket, g: seq<Bucket>)
    requires Contiguous(a + [last]) && Contiguous(g) && g != [] && last.Range? && last.spool && g[0].Range?
    requires g[0].start == last.start
    requires EndsInSpool(g) && BelowEnd(g) && BelowEnd(a + [last]) && End(g) >= last.start + last.len
    ensures Contiguous(a + g) && EndsInSpool(a + g) && BelowEnd(a + g) && End(a + g) == End(g)
  {
    var l, r := a + [last], a + g;
    forall i | 0 <= i < |r| - 1 && r[i].Range? && r[i + 1].Range?
      ensures r[i + 1].start == r[i].start + r[i].len
    {
      if i + 1 < |a| {
        assert l[i] == r[i] && l[i + 1] == r[i + 1];
      } else if i + 1 == |a| {
        assert l[i] == r[i] && l[i + 1] == last && r[i + 1] == g[0];
      } else {
        assert r[i] == g[i - |a|] && r[i + 1] == g[i + 1 - |a|];
      }
    }
    forall i | 0 <= i < |r| && r[i].Range?
      ensures r[i].len <= FILE_BUCKET_LIMIT && r[i].start + r[i].len <= End(g)
    {
      if i < |a| { assert l[i] == r[i]; } else { assert r[i] == g[i - |a|]; }
    }
  }

  /** The loop that cuts new file buckets while the data is too large for the last one. */
  method ExtendLast(list: seq<Bucket>, wlen: nat) returns (r: seq<Bucket>)
    requires EndsInSpool(list) && Contiguous(list)
    ensures r == GrownList(list, wlen)
  {
    var front, last := list[..|list| - 1], list[|list| - 1];
    var more: nat := wlen;
    while more > FILE_BUCKET_LIMIT - last.len
      invariant last.Range? && last.len <= FILE_BUCKET_LIMIT
      invariant front + Grown(last, more) == GrownList(list, wlen)
      decreases more, last.len
    {
      assert forall g :: (front + [Range(last.start, FILE_BUCKET_LIMIT, false)]) + g
                      == front + ([Range(last.start, FILE_BUCKET_LIMIT, false)] + g);
      front := front + [Range(last.start, FILE_BUCKET_LIMIT, false)];
      more := more - (FILE_BUCKET_LIMIT - last.len);
      last := Range(last.start + FILE_BUCKET_LIMIT, 0, true);
    }
    r := front + [Range(last.start, last.len + more, true)];
  }

  /** Nothing but ranges, from the beginning of the file to its end. */
  ghost predicate Covers(list: seq<Bucket>, disk: bytes) {
    && EndsInSpool(list) && (forall i :: 0 <= i < |list| ==> list[i].Range?)
    && list[0].start == 0 && End(list) == |disk|
  }

  /** As long as nothing is taken out: all in memory, or all in the file. */
  ghost predicate Uniform(list: seq<Bucket>, disk: bytes, limit: nat) {
    if EndsInSpool(list) then Covers(list, disk) && Total(list) >= limit
    else forall i :: 0 <= i < |list| ==> list[i].Mem?
  }

  lemma AppendUniform(list: seq<Bucket>, disk: bytes, bs: seq<bytes>, limit: nat)
    requires Uniform(list, disk, limit) && Total(list) < limit
    ensures Uniform(list + MemBuckets(bs), disk, limit)
  {
    var r := list + MemBuckets(bs);
    forall i | 0 <= i < |r|
      ensures r[i].Mem?
    {
      if i >= |list| { assert r[i] == MemBuckets(bs)[i - |list|]; }
    }
  }

  lemma AppendKeeps(disk: bytes, list: seq<Bucket>, bs: seq<bytes>, limit: nat)
    requires Sound(disk, list, limit) && Total(list) + |Flatten(bs)| < limit
    ensures
      var r := list + MemBuckets(bs);
      && Sound(disk, r, limit) && Text(disk, r) == Text(disk, list) + Flatten(bs)
      && (EndsInSpool(r) ==> EndsInSpool(list)) && (Uniform(list, disk, limit) ==> Uniform(r, disk, limit))
  {
    var more := MemBuckets(bs);
    AppendKeepsBounds(list, bs, limit);
    MemText(disk, bs);
    TextConcat(disk, list, more);
    if Uniform(list, disk, limit) { AppendUniform(list, disk, bs, limit); }
    if more == [] { assert list + more == list; }
  }

  lemma {:induction false} GrownRanges(last: Bucket, wlen: nat)
    requires last.Range? && last.len <= FILE_BUCKET_LIMIT
    ensures forall i :: 0 <= i < |Grown(last, wlen)| ==> Grown(last, wlen)[i].Range?
    decreases wlen, last.len
  {
    if wlen > FILE_BUCKET_LIMIT - last.len {
      GrownRanges(Range(last.start + FILE_BUCKET_LIMIT, 0, true), wlen - (FILE_BUCKET_LIMIT - last.len));
    }
  }

  lemma GrowCovers(list: seq<Bucket>, was: bytes, now: bytes, wlen: nat, limit: nat)
    requires Bounded(list, limit) && Covers(list, was) && |now| == |was| + wlen
    ensures Covers(GrownList(list, wlen), now)
  {
    var last := list[|list| - 1];
    GrowKeepsBounds(list, wlen, limit);
    GrownShape(last, wlen);
    GrownRanges(last, wlen);
    if |list| > 1 { assert GrownList(list, wlen)[0] == list[0]; }
  }

  // ------------------------------------------------------------ taking from the front

  /** apr_bucket_split: the first half of a spool bucket is an ordinary file bucket. */
  function Front(b: Bucket, p: nat): Bucket
    requires p <= Length(b)
  {
    match b case Mem(d) => Mem(d[..p]) case Range(s, _, _) => Range(s, p, false)
  }

  function Rest(b: Bucket, p: nat): Bucket
    requires p <= Length(b)
  {
    match b case Mem(d) => Mem(d[p..]) case Range(s, n, spool) => Range(s + p, n - p, spool)
  }

  function SplitList(list: seq<Bucket>, e: nat, p: nat): seq<Bucket>
    requires e < |list| && p <= Length(list[e])
  {
    list[..e] + ([Front(list[e], p), Rest(list[e], p)] + list[e + 1..])
  }

  lemma SplitOne(disk: bytes, b: Bucket, p: nat)
    requires Fits(disk, b) && p <= Length(b)
    ensures AllFit(disk, [Front(b, p), Rest(b, p)]) && Text(disk, [Front(b, p), Rest(b, p)]) == Content(disk, b)
  {
    TextOne(disk, Front(b, p));
    TextOne(disk, Rest(b, p));
    assert [Front(b, p), Rest(b, p)] == [Front(b, p)] + [Rest(b, p)];
    TextConcat(disk, [Front(b, p)], [Rest(b, p)]);
    match b {
      case Mem(d) => Halves(d, p);
      case Range(s, n, _) => SliceJoins(disk, s, s + p, s + n);
    }
  }

  lemma Replaced(disk: bytes, x: seq<Bucket>, y: seq<Bucket>, y': seq<Bucket>, z: seq<Bucket>)
    requires AllFit(disk, x) && AllFit(disk, y) && AllFit(disk, y') && AllFit(disk, z)
    requires Text(disk, y) == Text(disk, y')
    ensures AllFit(disk, x + (y + z)) && AllFit(disk, x + (y' + z))
    ensures Text(disk, x + (y + z)) == Text(disk, x + (y' + z))
  {
    TextConcat(disk, y, z);
    TextConcat(disk, y', z);
    TextConcat(disk, x, y + z);
    TextConcat(disk, x, y' + z);
  }

  lemma SplitText(disk: bytes, list: seq<Bucket>, e: nat, p: nat)
    requires e < |list| && p <= Length(list[e]) && AllFit(disk, list)
    ensures AllFit(disk, SplitList(list, e, p)) && Text(disk, SplitList(list, e, p)) == Text(disk, list)
  {
    var b := list[e];
    assert list == list[..e] + ([b] + list[e + 1..]);
    SplitOne(disk, b, p);
    TextOne(disk, b);
    Replaced(disk, list[..e], [b], [Front(b, p), Rest(b, p)], list[e + 1..]);
  }

  lemma SizesOfOne(b: Bucket)
    ensures Total([b]) == Length(b) && InMemory([b]) == if b.Mem? then Length(b) else 0
  {
    assert [b][1..] == [];
  }

  lemma SizesOfTwo(b: Bucket, p: nat)
    requires p <= Length(b)
    ensures Total([Front(b, p), Rest(b, p)]) == Total([b]) && InMemory([Front(b, p), Rest(b, p)]) == InMemory([b])
  {
    assert [Front(b, p), Rest(b, p)] == [Front(b, p)] + [Rest(b, p)];
    TotalConcat([Front(b, p)], [Rest(b, p)]);
    SizesOfOne(b);
    SizesOfOne(Front(b, p));
    SizesOfOne(Rest(b, p));
  }

  lemma SizesOfThree(x: seq<Bucket>, y: seq<Bucket>, z: seq<Bucket>)
    ensures Total(x + (y + z)) == Total(x) + Total(y) + Total(z)
    ensures InMemory(x + (y + z)) == InMemory(x) + InMemory(y) + InMemory(z)
  {
    TotalConcat(y, z);
    TotalConcat(x, y + z);
  }

  lemma SplitSizes(list: seq<Bucket>, e: nat, p: nat)
    requires e < |list| && p <= Length(list[e])
    ensures Total(SplitList(list, e, p)) == Total(list) && InMemory(SplitList(list, e, p)) == InMemory(list)
    ensures Total(SplitList(list, e, p)[..e + 1]) == Total(list[..e]) + p
  {
    var b := list[e];
    var x, y, z := list[..e], [Front(b, p), Rest(b, p)], list[e + 1..];
    assert list == x + ([b] + z);
    SizesOfTwo(b, p);
    SizesOfThree(x, [b], z);
    SizesOfThree(x, y, z);
    var front := x + [Front(b, p)];
    assert SplitList(list, e, p)[..e + 1] == front;
    TotalConcat(x, [Front(b, p)]);
    SizesOfOne(Front(b, p));
  }

  /** Where the buckets of a split list come from. */
  lemma SplitIndex(list: seq<Bucket>, e: nat, p: nat, i: nat)
    requires e < |list| && p <= Length(list[e]) && i <= |list|
    ensures |SplitList(list, e, p)| == |list| + 1
    ensures SplitList(list, e, p)[i] ==
            if i < e then list[i] else if i == e then Front(list[e], p)
            else if i == e + 1 then Rest(list[e], p) else list[i - 1]
  {
  }

  lemma SplitContiguous(list: seq<Bucket>, e: nat, p: nat)
    requires e < |list| && p <= Length(list[e]) && Contiguous(list)
    ensures Contiguous(SplitList(list, e, p))
  {
    var r := SplitList(list, e, p);
    forall i | 0 <= i < |r| && r[i].Range?
      ensures r[i].len <= FILE_BUCKET_LIMIT
    {
      SplitIndex(list, e, p, i);
    }
    forall i | 0 <= i < |r| - 1 && r[i].Range? && r[i + 1].Range?
      ensures r[i + 1].start == r[i].start + r[i].len
    {
      SplitIndex(list, e, p, i);
      SplitIndex(list, e, p, i + 1);
    }
  }

  lemma SplitEnds(list: seq<Bucket>, e: nat, p: nat)
    requires e < |list| && p <= Length(list[e])
    ensures EndsInSpool(SplitList(list, e, p)) == EndsInSpool(list)
    ensures EndsInSpool(list) ==> End(SplitList(list, e, p)) == End(list)
    ensures EndsInSpool(list) && BelowEnd(list) ==> BelowEnd(SplitList(list, e, p))
  {
    var r := SplitList(list, e, p);
    SplitIndex(list, e, p, |list|);
    if EndsInSpool(list) && BelowEnd(list) {
      forall i | 0 <= i < |r| && r[i].Range?
        ensures r[i].start + r[i].len <= End(r)
      {
        SplitIndex(list, e, p, i);
      }
    }
  }

  lemma SplitBounds(list: seq<Bucket>, e: nat, p: nat, limit: nat)
    requires e < |list| && p <= Length(list[e]) && Bounded(list, limit)
    ensures Bounded(SplitList(list, e, p), limit)
  {
    SplitSizes(list, e, p);
    SplitContiguous(list, e, p);
    SplitEnds(list, e, p);
  }

  /** The buckets fit the file and keep the bounds. */
  ghost predicate Sound(disk: bytes, list: seq<Bucket>, limit: nat) { AllFit(disk, list) && Bounded(list, limit) }

  /** The first k buckets hold n bytes, or all there is is less. */
  predicate CutAt(list: seq<Bucket>, k: nat, n: nat) {
    k <= |list| && (Total(list[..k]) == n || (Total(list) < n && k == |list| && list[..k] == list))
  }

  lemma SplitKeeps(disk: bytes, list: seq<Bucket>, e: nat, p: nat, n: nat, limit: nat)
    requires e < |list| && p <= Length(list[e]) && Sound(disk, list, limit) && Total(list[..e]) + p == n
    ensures
      var r := SplitList(list, e, p);
      && Sound(disk, r, limit) && Text(disk, r) == Text(disk, list)
      && EndsInSpool(r) == EndsInSpool(list) && CutAt(r, e + 1, n)
  {
    SplitSizes(list, e, p);
    SplitText(disk, list, e, p);
    SplitBounds(list, e, p, limit);
    SplitEnds(list, e, p);
  }

  /** What is left behind the first k buckets. */
  lemma DropBounds(list: seq<Bucket>, k: nat, limit: nat)
    requires k <= |list| && Bounded(list, limit)
    ensures Bounded(list[k..], limit)
  {
    assert list == list[..k] + list[k..];
    TotalConcat(list[..k], list[k..]);
    DropContiguous(list, k);
  }

  lemma DropContiguous(list: seq<Bucket>, k: nat)
    requires k <= |list| && Contiguous(list)
    ensures Contiguous(list[k..])
    ensures k < |list| ==> EndsInSpool(list[k..]) == EndsInSpool(list)
    ensures k < |list| && EndsInSpool(list) && BelowEnd(list) ==> BelowEnd(list[k..])
  {
    var r := list[k..];
    forall i | 0 <= i < |r|
      ensures r[i] == list[i + k]
    {
    }
    forall i | 0 <= i < |r| - 1 && r[i].Range? && r[i + 1].Range?
      ensures r[i + 1].start == r[i].start + r[i].len
    {
      assert list[i + k] == r[i] && list[i + k + 1] == r[i + 1];
    }
  }

  /** The first k buckets and the others. */
  lemma FrontAndBack(disk: bytes, list: seq<Bucket>, k: nat)
    requires k <= |list| && AllFit(disk, list)
    ensures AllFit(disk, list[..k]) && AllFit(disk, list[k..])
    ensures Text(disk, list) == Text(disk, list[..k]) + Text(disk, list[k..])
    ensures |Text(disk, list[..k])| == Total(list[..k]) && |Text(disk, list)| == Total(list)
    ensures Total(list) == Total(list[..k]) + Total(list[k..])
  {
    var a, b := list[..k], list[k..];
    assert list == a + b;
    TextConcat(disk, a, b);
    TotalConcat(a, b);
    TotalIsLength(disk, a);
    TotalIsLength(disk, list);
  }

  lemma FrontTotal(list: seq<Bucket>, k: nat)
    requires k < |list|
    ensures Total(list[..k + 1]) == Total(list[..k]) + Length(list[k])
  {
    assert list[..k + 1] == list[..k] + [list[k]];
    TotalConcat(list[..k], [list[k]]);
    assert [list[k]][1..] == [];
  }

  /** EOS comes next behind the first n bytes, or all there are: no bucket is in between. */
  predicate EosNext(list: seq<Bucket>, n: nat) {
    list == [] || Total(list) < n || (Total(list) == n > 0 && Length(list[|list| - 1]) > 0)
  }

  /** The last bucket lies behind the first k. */
  lemma TotalFrom(list: seq<Bucket>, k: nat, last: nat)
    requires k <= last && |list| == last + 1
    ensures Total(list) >= Total(list[..k]) + Length(list[last])
  {
    assert list == list[..last + 1];
    FrontTotal(list, last);
    Halves(list[..last], k);
    TotalConcat(list[..last][..k], list[..last][k..]);
    assert list[..last][..k] == list[..k];
  }

  /** The cut behind bucket k, which is not empty */
  lemma CutIsNext(list: seq<Bucket>, k: nat, n: nat)
    requires k < |list| && Length(list[k]) > 0 && Total(list[..k + 1]) == n
    ensures k + 1 == |list| <==> EosNext(list, n)
  {
    if k + 1 == |list| {
      assert list[..k + 1] == list;
      FrontTotal(list, k);
    } else {
      TotalFrom(list, k + 1, |list| - 1);
    }
  }

  /** The cut within bucket k */
  lemma CutIsNotNext(list: seq<Bucket>, k: nat, p: nat, n: nat)
    requires k < |list| && p < Length(list[k]) && Total(list[..k]) + p == n
    ensures !EosNext(list, n)
  {
    FrontTotal(list, k);
    if k + 1 < |list| {
      TotalFrom(list, k + 1, |list| - 1);
    } else {
      assert list[..k + 1] == list;
    }
  }

  /** Where n bytes end: in front of bucket k, or point bytes into it. */
  method FindCut(list: seq<Bucket>, n: nat) returns (k: nat, point: nat)
    ensures if point == 0 then CutAt(list, k, n) && (k == |list| <==> EosNext(list, n))
            else k < |list| && point < Length(list[k]) && Total(list[..k]) + point == n
  {
    assert list[..0] == [];
    k, point := 0, n;
    if n == 0 {
      return;
    }
    while k < |list|
      invariant k <= |list| && Total(list[..k]) + point == n && point > 0
    {
      var len := Length(list[k]);
      FrontTotal(list, k);
      if point < len {
        return;
      } else if point == len {
        CutIsNext(list, k, n);
        return k + 1, 0;
      }
      point, k := point - len, k + 1;
    }
    assert list[..k] == list;
    point := 0;
  }

  lemma RemoveKeeps(disk: bytes, list: seq<Bucket>, k: nat, limit: nat)
    requires k <= |list| && Sound(disk, list, limit)
    ensures AllFit(disk, list[..k]) && Sound(disk, list[k..], limit)
    ensures Text(disk, list) == Text(disk, list[..k]) + Text(disk, list[k..])
    ensures |Text(disk, list[..k])| == Total(list[..k]) && |Text(disk, list)| == Total(list)
    ensures EndsInSpool(list[k..]) ==> EndsInSpool(list)
  {
    FrontAndBack(disk, list, k);
    DropBounds(list, k, limit);
    DropContiguous(list, k);
  }

  /** The file has grown behind the spool bucket. */
  lemma GrowKeeps(was: bytes, now: bytes, list: seq<Bucket>, wlen: nat, data: bytes, limit: nat)
    requires Sound(was, list, limit) && EndsInSpool(list)
    requires Wrote(was, End(list), now, End(list) + wlen, data) && |data| == wlen
    ensures
      var r := GrownList(list, wlen);
      && Sound(now, r, limit) && EndsInSpool(r) && Text(now, r) == Text(was, list) + data
      && (Covers(list, was) ==> Covers(r, now))
  {
    ContentsStay(was, now, list, End(list));
    GrowKeepsText(list, now, wlen);
    GrowKeepsBounds(list, wlen, limit);
    if Covers(list, was) { GrowCovers(list, was, now, wlen, limit); }
  }

  /** apr_bucket_split on bucket e, and the boundary behind its first half */
  method CutBucket(list: seq<Bucket>, e: nat, p: nat, n: nat, limit: nat, ghost disk: bytes)
    returns (r: seq<Bucket>, k: nat)
    requires e < |list| && p <= Length(list[e]) && Sound(disk, list, limit) && Total(list[..e]) + p == n
    ensures Sound(disk, r, limit) && Text(disk, r) == Text(disk, list)
    ensures EndsInSpool(r) == EndsInSpool(list) && CutAt(r, k, n)
    ensures p < Length(list[e]) ==> k < |r| && !EosNext(list, n)
  {
    SplitKeeps(disk, list, e, p, n, limit);
    if p < Length(list[e]) { CutIsNotNext(list, e, p, n); }
    r, k := SplitList(list, e, p), e + 1;
  }

  /** A new file that all there was has been written to, and its one spool bucket. */
  lemma FirstSpool(data: bytes, pos: nat, text: bytes, limit: nat)
    requires Wrote([], 0, data, pos, text) && |text| <= FILE_BUCKET_LIMIT
    ensures
      var r := [Range(0, |text|, true)];
      Sound(data, r, limit) && Text(data, r) == text && Covers(r, data) && pos == End(r)
  {
    TextOne(data, Range(0, |text|, true));
    assert data == text;
    assert [Range(0, |text|, true)][1..] == [];
  }

  /** The file buckets behind a write of wlen bytes */
  method ExtendSpool(list: seq<Bucket>, wlen: nat, ghost was: bytes, ghost now: bytes, ghost data: bytes,
                     ghost limit: nat)
    returns (r: seq<Bucket>)
    requires Sound(was, list, limit) && EndsInSpool(list)
    requires Wrote(was, End(list), now, End(list) + wlen, data) && |data| == wlen
    ensures Sound(now, r, limit) && EndsInSpool(r) && Text(now, r) == Text(was, list) + data
    ensures Covers(list, was) ==> Covers(r, now)
  {
    GrowKeeps(was, now, list, wlen, data, limit);
    r := ExtendLast(list, wlen);
  }

  /** Write pieces behind the spool bucket. */
  method WriteBehind(file: OutFile, list: seq<Bucket>, pieces: seq<bytes>, limit: nat, ghost text: bytes)
    returns (s: Status, r: seq<Bucket>)
    requires Sound(file.data, list, limit) && EndsInSpool(list) && file.pos == End(list) <= |file.data|
    requires text == Text(file.data, list)
    modifies file
    ensures file.pos <= |file.data| && Sound(file.data, r, limit) && EndsInSpool(r)
    ensures Text(file.data, r) == if s == Success then text + Flatten(pieces) else text
    ensures s == Success && Covers(list, old(file.data)) ==> Covers(r, file.data)
    ensures s != Success ==> r == list
    ensures s == Success || s == IoError || s == General
  {
    ghost var was := file.data;
    var wlen;
    s, wlen := Fwrite(file, pieces);
    if s == Success {
      r := ExtendSpool(list, wlen, was, file.data, Flatten(pieces), limit);
    } else {
      ContentsStay(was, file.data, list, End(list));
      r := list;
    }
  }

  /** Write all there is to a new file. */
  method WriteAll(disk: bytes, list: seq<Bucket>, limit: nat) returns (s: Status, f: OutFile, r: seq<Bucket>)
    requires Sound(disk, list, limit) && Total(list) <= FILE_BUCKET_LIMIT
    ensures fresh(f) && f.pos <= |f.data|
    ensures s == Success ==>
              && Sound(f.data, r, limit) && Text(f.data, r) == Text(disk, list)
              && Covers(r, f.data) && f.pos == End(r)
    ensures s == Success || s == IoError || s == General
  {
    f := new OutFile();
    r := [];
    TotalIsLength(disk, list);
    var wlen;
    s, wlen := Fwrite(f, Contents(disk, list));
    if s == Success {
      FirstSpool(f.data, f.pos, Text(disk, list), limit);
      r := [Range(0, wlen, true)];
    }
  }

  /** APR_RING_UNSPLICE on the first k buckets */
  method Unsplice(disk: bytes, list: seq<Bucket>, k: nat, limit: nat) returns (taken: bytes, r: seq<Bucket>)
    requires k <= |list| && Sound(disk, list, limit)
    ensures Sound(disk, r, limit) && Text(disk, list) == taken + Text(disk, r) && r == list[k..]
    ensures |taken| == Total(list[..k]) && |Text(disk, list)| == Total(list)
    ensures EndsInSpool(r) ==> EndsInSpool(list)
  {
    RemoveKeeps(disk, list, k, limit);
    taken, r := Flatten(Contents(disk, list[..k])), list[k..];
  }

  // ------------------------------------------------------------ the brigade

  /** A brigade that spills into a file. */
  class Spooled {
    var list: seq<Bucket>
    var eos: bool
    var file: OutFile?

    constructor ()
      ensures list == [] && !eos && file == null
    {
      list, eos, file := [], false, null;
    }

    ghost function Disk(): bytes
      reads this, file
    {
      if file == null then [] else file.data
    }

    ghost predicate Valid(limit: nat)
      reads this, file
    {
      && limit <= FILE_BUCKET_LIMIT + 1
      && Sound(Disk(), list, limit)
      && (EndsInSpool(list) ==> file != null) && (file != null ==> file.pos <= |file.data|)
    }

    ghost function Stream(): bytes
      reads this, file
      requires AllFit(Disk(), list)
    {
      Text(Disk(), list)
    }

    /** Bytes held in memory are none, or fewer than the limit. */
    lemma MemoryIsBounded(limit: nat)
      requires Valid(limit)
      ensures InMemory(list) == 0 || InMemory(list) < limit
    {
      TotalIsLength(Disk(), list);
    }

    /** The branch that needs no file. */
    method Append(inb: Brigade, limit: nat)
      requires Valid(limit) && !eos && Total(list) + |inb.Stream()| < limit
      modifies this`list, this`eos, inb
      ensures Valid(limit) && Stream() == old(Stream()) + old(inb.Stream()) && eos == old(inb.eos)
      ensures inb.list == [] && !inb.eos
      ensures old(Uniform(list, Disk(), limit)) ==> Uniform(list, Disk(), limit)
    {
      AppendKeeps(Disk(), list, inb.list, limit);
      list := list + MemBuckets(inb.list);
      eos := inb.eos;
      inb.Cleanup();
    }

    /** Open a temporary file and move everything there. */
    method StartSpool(limit: nat) returns (s: Status)
      requires Valid(limit) && !eos && !EndsInSpool(list)
      modifies this`list, this`file
      ensures Valid(limit) && Stream() == old(Stream())
      ensures s == Success ==> fresh(file) && Covers(list, file.data) && file.pos == End(list)
      ensures s != Success ==> list == old(list) && file == old(file)
      ensures s == Success || s == IoError || s == General
    {
      var created: bool := *;
      if !created {
        return IoError;
      }
      var f, moved;
      s, f, moved := WriteAll(if file == null then [] else file.data, list, limit);
      if s == Success {
        list, file := moved, f;
      }
    }

    /** Write the incoming brigade behind the spool bucket. */
    method Spill(inb: Brigade, limit: nat) returns (s: Status)
      requires Valid(limit) && !eos && EndsInSpool(list) && file != null && file.pos == End(list)
      modifies this`list, this`eos, file, inb
      ensures Valid(limit) && EndsInSpool(list) && inb.list == [] && !inb.eos
      ensures s == Success ==> Stream() == old(Stream()) + old(inb.Stream()) && eos == old(inb.eos)
      ensures s != Success ==> Stream() == old(Stream()) && list == old(list) && !eos
      ensures s == Success || s == IoError || s == General
      ensures s == Success && old(Covers(list, Disk())) ==> Covers(list, Disk())
    {
      assert Disk() == file.data;
      ghost var text := Stream();
      s, list := WriteBehind(file, list, inb.list, limit, text);
      if s == Success {
        eos := inb.eos;
      }
      inb.Cleanup();
      assert Disk() == file.data && Sound(Disk(), list, limit);
      assert Stream() == if s == Success then text + old(inb.Stream()) else text;
    }

    /** apr_brigade_partition: a bucket boundary behind the first n bytes, or the end. */
    method Partition(n: nat, limit: nat) returns (k: nat)
      requires Valid(limit)
      modifies this`list
      ensures Valid(limit) && Stream() == old(Stream()) && CutAt(list, k, n)
      ensures k == |list| <==> EosNext(old(list), n)
    {
      var point;
      k, point := FindCut(list, n);
      if point > 0 {
        list, k := CutBucket(list, k, point, n, limit, Disk());
      }
    }

    /** apreq_brigade_move to an empty brigade: the first k buckets, and EOS behind them. */
    method RemoveFront(k: nat, limit: nat) returns (taken: bytes, takenEos: bool)
      requires Valid(limit) && k <= |list|
      modifies this`list, this`eos
      ensures Valid(limit) && old(Stream()) == taken + Stream() && list == old(list)[k..]
      ensures |taken| == Total(old(list)[..k]) && |old(Stream())| == Total(old(list))
      ensures takenEos == (old(eos) && k == |old(list)|) && eos == (old(eos) && !takenEos)
    {
      takenEos := eos && k == |list|;
      taken, list := Unsplice(if file == null then [] else file.data, list, k, limit);
      eos := eos && !takenEos;
    }

    /** Partition and move: the first n bytes, or all there are, leave for the reader.
        EOS goes with them exactly when it comes next. */
    method TakeFront(n: nat, limit: nat) returns (taken: bytes, takenEos: bool)
      requires Valid(limit)
      modifies this`list, this`eos
      ensures Valid(limit) && old(Stream()) == taken + Stream()
      ensures |taken| == if |old(Stream())| < n then |old(Stream())| else n
      ensures takenEos == (old(eos) && EosNext(old(list), n)) && eos == (old(eos) && !takenEos)
      ensures list == [] <==> EosNext(old(list), n)
    {
      var k := Partition(n, limit);
      taken, takenEos := RemoveFront(k, limit);
    }

    /** The branch that writes to the file: a new one, or behind the spool bucket. */
    method ToFile(inb: Brigade, limit: nat) returns (s: Status)
      requires Valid(limit) && !eos
      modifies this`list, this`eos, this`file, inb, if file == null then {} else {file}
      ensures Valid(limit) && (file == old(file) || fresh(file))
      ensures s == Success ==> Stream() == old(Stream()) + old(inb.Stream()) && eos == old(inb.eos) && EndsInSpool(list)
      ensures s != Success ==> Stream() == old(Stream()) && !eos
      ensures s == Success || s == IoError || s == General
      ensures s == Success && (!old(EndsInSpool(list)) || old(Covers(list, Disk()))) ==> Covers(list, Disk())
    {
      if EndsInSpool(list) {
        file.pos := End(list);
      } else {
        s := StartSpool(limit);
        if s != Success {
          return;
        }
      }
      s := Spill(inb, limit);
    }

    /** apreq_brigade_concat with two different brigades */
    method Concat(inb: Brigade, limit: nat) returns (s: Status)
      requires Valid(limit)
      modifies this`list, this`eos, this`file, inb, if file == null then {} else {file}
      ensures Valid(limit) && (file == old(file) || fresh(file))
      ensures old(eos) ==> s == Eof && list == old(list)
      ensures s == Success ==> Stream() == old(Stream()) + old(inb.Stream()) && eos == old(inb.eos)
      ensures s != Success ==> Stream() == old(Stream()) && eos == old(eos)
      ensures s == Success || s == IoError || s == General || (s == Eof && old(eos))
      ensures !old(eos) && old(|Stream()| + |inb.Stream()|) < limit ==> s == Success
      ensures s == Success && old(Uniform(list, Disk(), limit)) ==>
                Uniform(list, Disk(), limit) && (old(EndsInSpool(list)) ==> EndsInSpool(list))
    {
      if eos {
        return Eof;
      }
      TotalIsLength(Disk(), list);
      var inLen := |inb.Stream()|;
      if Total(list) < limit && inLen < limit - Total(list) {
        Append(inb, limit);
        return Success;
      }
      s := ToFile(inb, limit);
      TotalIsLength(Disk(), list);
    }
  }

  // ------------------------------------------------------------ runs

  /** All there is to say about a run: contents, bounds and shape. */
  ghost predicate Ran(out: Spooled, text: bytes, limit: nat)
    reads out, out.file
  {
    out.Valid(limit) && !out.eos && out.Stream() == text && Uniform(out.list, out.Disk(), limit)
  }

  method AddChunk(out: Spooled, bs: seq<bytes>, limit: nat, ghost text: bytes) returns (s: Status)
    requires Ran(out, text, limit)
    modifies out, if out.file == null then {} else {out.file}
    ensures out.Valid(limit) && (out.file == old(out.file) || fresh(out.file))
    ensures s == Success ==> Ran(out, text + Flatten(bs), limit)
    ensures |text| + |Flatten(bs)| < limit ==> s == Success
  {
    var inb := new Brigade();
    inb.list := bs;
    s := out.Concat(inb, limit);
  }

  lemma NextChunk(chunks: seq<seq<bytes>>, i: nat, text: bytes) returns (next: bytes)
    requires i < |chunks| && text == Joined(chunks[..i])
    ensures next == text + Flatten(chunks[i]) == Joined(chunks[..i + 1])
    ensures |text| + |Flatten(chunks[i])| <= |Joined(chunks)|
  {
    next := text + Flatten(chunks[i]);
    JoinedNext(chunks, i);
    JoinedCut(chunks, i + 1);
  }

  /** The calls from chunk i on, up to one that fails */
  method SpoolFrom(out: Spooled, chunks: seq<seq<bytes>>, i: nat, limit: nat, ghost text: bytes) returns (s: Status)
    requires i <= |chunks| && text == Joined(chunks[..i]) && Ran(out, text, limit)
    modifies out, if out.file == null then {} else {out.file}
    ensures out.Valid(limit)
    ensures s == Success ==> Ran(out, Joined(chunks), limit)
    ensures |Joined(chunks)| < limit ==> s == Success
    decreases |chunks| - i
  {
    if i == |chunks| {
      assert chunks[..i] == chunks;
      return Success;
    }
    ghost var next := NextChunk(chunks, i, text);
    s := AddChunk(out, chunks[i], limit, text);
    if s == Success {
      s := SpoolFrom(out, chunks, i + 1, limit, next);
    }
  }

  /** Any run of calls with one limit, up to one that fails: the brigade holds all that came
      in, and its buckets are all in memory, below the limit, or ranges that cover the file.
      No call fails as long as all there is stays below the limit. */
  method SpoolAll(chunks: seq<seq<bytes>>, limit: nat) returns (out: Spooled, s: Status)
    requires limit <= FILE_BUCKET_LIMIT + 1
    ensures fresh(out) && out.Valid(limit)
    ensures s == Success ==> out.Stream() == Joined(chunks) && Uniform(out.list, out.Disk(), limit)
    ensures |Joined(chunks)| < limit ==> s == Success
  {
    out := new Spooled();
    s := SpoolFrom(out, chunks, 0, limit, []);
  }
}
