/** Delimiter search over buckets (library/util.c, library/parser_multipart.c):
    the buffer search, the search that finds a delimiter straddling buckets and
    calls, and the test for a delimiter at the front of a brigade. */
module Delimiters {
  import opened Bytes
  import opened Brigades

  /** d agrees with s from i on, as far as both go: a full match, or a match that
      runs into the end of s. */
  ghost predicate MatchAt(d: bytes, s: bytes, i: nat)
    requires i <= |s|
  {
    forall k {:trigger d[k]} :: 0 <= k < |d| && i + k < |s| ==> s[i + k] == d[k]
  }

  ghost predicate Occurs(d: bytes, s: bytes, i: nat) {
    i + |d| <= |s| && MatchAt(d, s, i)
  }

  /** The least position from which s could be, or could become, an occurrence of d.
      Everything before it is certain not to start one; |s| when nothing is pending. */
  ghost function Cut(d: bytes, s: bytes): (c: nat)
    ensures c <= |s| && MatchAt(d, s, c)
    ensures forall j :: 0 <= j < c ==> !MatchAt(d, s, j)
  {
    CutFrom(d, s, 0)
  }

  ghost function CutFrom(d: bytes, s: bytes, from: nat): (c: nat)
    requires from <= |s|
    ensures from <= c <= |s| && MatchAt(d, s, c)
    ensures forall j :: from <= j < c ==> !MatchAt(d, s, j)
    decreases |s| - from
  {
    if from == |s| || MatchAt(d, s, from) then from else CutFrom(d, s, from + 1)
  }

  /** The first byte of d occurs nowhere else in it, as in CRLF and CRLF--boundary. */
  predicate Simple(d: bytes) {
    d != [] && forall k :: 1 <= k < |d| ==> d[k] != d[0]
  }

  // ------------------------------------------------------------ laws of Cut

  lemma CutIs(d: bytes, s: bytes, c: nat)
    requires c <= |s| && MatchAt(d, s, c)
    requires forall j :: 0 <= j < c ==> !MatchAt(d, s, j)
    ensures Cut(d, s) == c
  {
  }

  /** What was searched and passed over can be forgotten. */
  lemma CutShift(d: bytes, a: bytes, s: bytes)
    requires |a| <= Cut(d, a + s)
    ensures Cut(d, a + s) == |a| + Cut(d, s)
  {
    forall i: nat | i <= |s|
      ensures MatchAt(d, a + s, |a| + i) <==> MatchAt(d, s, i)
    {
      MatchShift(d, a, s, i);
    }
    var c := Cut(d, a + s);
    assert MatchAt(d, a + s, |a| + (c - |a|));
    forall j: nat | j < c - |a|
      ensures !MatchAt(d, s, j)
    {
      assert !MatchAt(d, a + s, |a| + j);
    }
    CutIs(d, s, c - |a|);
  }

  lemma MatchShift(d: bytes, a: bytes, s: bytes, i: nat)
    requires i <= |s|
    ensures MatchAt(d, a + s, |a| + i) <==> MatchAt(d, s, i)
  {
    assert forall k {:trigger d[k]} :: 0 <= k < |d| && i + k < |s| ==> (a + s)[|a| + i + k] == s[i + k];
  }

  lemma MatchPrefix(d: bytes, s: bytes, r: bytes, i: nat)
    requires i <= |s|
    ensures MatchAt(d, s + r, i) ==> MatchAt(d, s, i)
    ensures Occurs(d, s, i) ==> Occurs(d, s + r, i)
  {
    assert forall k {:trigger d[k]} :: 0 <= k < |d| && i + k < |s| ==> (s + r)[i + k] == s[i + k];
  }

  /** More input never moves the cut to the left, and a full match is final. */
  lemma CutExtends(d: bytes, s: bytes, r: bytes)
    ensures Cut(d, s) <= Cut(d, s + r)
    ensures Occurs(d, s, Cut(d, s)) ==> Cut(d, s + r) == Cut(d, s)
  {
    var c := Cut(d, s);
    forall j: nat | j < c
      ensures !MatchAt(d, s + r, j)
    {
      MatchPrefix(d, s, r, j);
    }
    MatchPrefix(d, s, r, c);
    if Occurs(d, s, c) {
      CutIs(d, s + r, c);
    } else {
      var c' := Cut(d, s + r);
      assert MatchAt(d, s + r, c');
    }
  }

  /** Resuming a search on the kept remainder gives the one-shot answer, whatever
      the delimiter. */
  lemma CutResumes(d: bytes, s: bytes, r: bytes)
    ensures Cut(d, s + r) == Cut(d, s) + Cut(d, s[Cut(d, s)..] + r)
  {
    var c := Cut(d, s);
    CutExtends(d, s, r);
    assert s + r == s[..c] + (s[c..] + r);
    CutShift(d, s[..c], s[c..] + r);
  }

  /** The cut is the first occurrence when there is one; otherwise what follows it is
      the longest suffix of s that is a proper prefix of d. */
  lemma CutMeaning(d: bytes, s: bytes)
    requires d != []
    ensures forall i :: Occurs(d, s, i) ==> Occurs(d, s, Cut(d, s)) && Cut(d, s) <= i
    ensures !Occurs(d, s, Cut(d, s)) ==>
              && |s| - Cut(d, s) < |d| && s[Cut(d, s)..] == d[..|s| - Cut(d, s)]
              && forall i: nat :: |s| - |d| < i < Cut(d, s) ==> s[i..] != d[..|s| - i]
  {
    var c := Cut(d, s);
    if c + |d| > |s| {
      assert s[c..] == d[..|s| - c] by {
        forall k | 0 <= k < |s| - c
          ensures s[c..][k] == d[..|s| - c][k]
        {
          assert d[k] == s[c + k];
        }
      }
      forall i: nat | |s| - |d| < i < c
        ensures s[i..] != d[..|s| - i]
      {
        if s[i..] == d[..|s| - i] {
          forall k | 0 <= k < |d| && i + k < |s|
            ensures s[i + k] == d[k]
          {
            assert s[i + k] == s[i..][k];
          }
          assert MatchAt(d, s, i);
        }
      }
    }
  }

  // ------------------------------------------------------------ buffer search

  /** memchr from position p. */
  method MemChr(s: bytes, c: byte, p: nat) returns (i: int)
    requires p <= |s|
    ensures i == -1 || (p <= i < |s| && s[i] == c)
    ensures forall j :: p <= j < (if i == -1 then |s| else i) ==> s[j] != c
  {
    i := p;
    while i < |s|
      invariant p <= i <= |s|
      invariant forall j :: p <= j < i ==> s[j] != c
    {
      if s[i] == c { return; }
      i := i + 1;
    }
    return -1;
  }

  /** memcmp(s + i, d + off, min) == 0, where min is what both still hold. */
  predicate SameBytes(s: bytes, i: nat, d: bytes, off: nat)
    requires i <= |s| && off <= |d|
  {
    var n := if |s| - i < |d| - off then |s| - i else |d| - off;
    s[i..i + n] == d[off..off + n]
  }

  lemma SameBytesIsMatch(s: bytes, i: nat, d: bytes)
    requires i <= |s|
    ensures SameBytes(s, i, d, 0) <==> MatchAt(d, s, i)
  {
    var n := if |s| - i < |d| then |s| - i else |d|;
    if SameBytes(s, i, d, 0) {
      forall k | 0 <= k < |d| && i + k < |s|
        ensures s[i + k] == d[k]
      {
        assert s[i..i + n][k] == d[0..n][k];
      }
    }
    if MatchAt(d, s, i) {
      forall k | 0 <= k < n
        ensures s[i..i + n][k] == d[0..n][k]
      {
        assert d[k] == s[i + k];
      }
    }
  }

  /** apreq_index: in partial mode the least match up to the end of the buffer, in
      full mode the least full match, and -1 exactly when there is none. */
  method Index(hay: bytes, ndl: bytes, full: bool) returns (idx: int)
    requires ndl != []
    ensures !full ==> idx == if Cut(ndl, hay) < |hay| then Cut(ndl, hay) else -1
    ensures full && idx == -1 ==> forall j: nat :: !Occurs(ndl, hay, j)
    ensures full && idx != -1 ==> idx >= 0 && Occurs(ndl, hay, idx) && forall j: nat :: j < idx ==> !Occurs(ndl, hay, j)
  {
    var p := 0;
    while true
      invariant 0 <= p <= |hay|
      invariant forall j :: 0 <= j < p ==> !MatchAt(ndl, hay, j)
      decreases |hay| - p
    {
      idx := MemChr(hay, ndl[0], p);
      var last := if idx == -1 then |hay| else idx;
      forall j | p <= j < last
        ensures !MatchAt(ndl, hay, j)
      {
        assert ndl[0] != hay[j + 0];
      }
      if idx == -1 {
        assert MatchAt(ndl, hay, |hay|);
        CutIs(ndl, hay, |hay|);
        return;
      }
      SameBytesIsMatch(hay, idx, ndl);
      if SameBytes(hay, idx, ndl, 0) {
        CutIs(ndl, hay, idx);
        if full && |hay| - idx < |ndl| {
          idx := -1;
        }
        return;
      }
      p := idx + 1;
    }
  }

  /** apr_strmatch: the first occurrence of the pattern. */
  method StrMatch(buf: bytes, d: bytes) returns (i: int)
    ensures i == -1 ==> forall j: nat :: !Occurs(d, buf, j)
    ensures i != -1 ==> i >= 0 && Occurs(d, buf, i) && forall j: nat :: j < i ==> !Occurs(d, buf, j)
  {
    i := 0;
    while i + |d| <= |buf|
      invariant 0 <= i
      invariant forall j: nat :: j < i ==> !Occurs(d, buf, j)
    {
      SameBytesIsMatch(buf, i, d);
      if SameBytes(buf, i, d, 0) { return; }
      i := i + 1;
    }
    return -1;
  }

  /** The index of the bucket search: the precompiled pattern followed by a look at
      the tail, or the plain search. Both give the plain search's answer. */
  method BucketIndex(pattern: bool, buf: bytes, bdry: bytes) returns (idx: int)
    requires bdry != []
    ensures idx == if Cut(bdry, buf) < |buf| then Cut(bdry, buf) else -1
  {
    if pattern && |buf| >= |bdry| {
      idx := StrMatch(buf, bdry);
      CutMeaning(bdry, buf);
      if idx == -1 {
        var n := |buf| - |bdry|;
        idx := Index(buf[n..], bdry, false);
        assert Cut(bdry, buf) >= n by {
          assert !Occurs(bdry, buf, Cut(bdry, buf));
        }
        assert buf == buf[..n] + buf[n..];
        CutShift(bdry, buf[..n], buf[n..]);
        if idx >= 0 { idx := idx + n; }
      } else {
        assert Occurs(bdry, buf, Cut(bdry, buf));
      }
    } else {
      idx := Index(buf, bdry, false);
    }
  }

  // ------------------------------------------------------------ brigade search

  /** What split_on_bdry must do with the bytes S it was given, having moved the first
      m of them to out, when it returns st. */
  ghost predicate SplitOutcome(bdry: bytes, S: bytes, eos: bool, m: nat, st: Status) {
    && m <= |S|
    && (st == Success ==> Occurs(bdry, S, m))
    && (st != Success ==> st == if eos then Eof else Incomplete)
       // a delimiter, or the beginning of one, at the very front is always seen
    && (MatchAt(bdry, S, 0) ==> m == 0 && (st == Success <==> |bdry| <= |S|))
       // an unrepeated first byte makes the search exact
    && (Simple(bdry) ==> m == Cut(bdry, S) && (st == Success <==> Occurs(bdry, S, m)))
  }

  /** The positions of S before m have been ruled out as far as the search needs it. */
  ghost predicate Passed(bdry: bytes, S: bytes, m: nat) {
    && m <= |S|
    && (m > 0 ==> !MatchAt(bdry, S, 0))
    && (Simple(bdry) ==> forall i: nat :: i < m ==> !MatchAt(bdry, S, i))
  }

  lemma SliceMatches(S: bytes, m: nat, d: bytes, n: nat)
    requires n <= |d| && m + n <= |S| && S[m..m + n] == d[..n]
    requires m + n == |S| || n == |d|
    ensures MatchAt(d, S, m)
  {
    forall k | 0 <= k < |d| && m + k < |S|
      ensures S[m + k] == d[k]
    {
      assert S[m + k] == S[m..m + n][k];
    }
  }

  lemma FoundAt(bdry: bytes, S: bytes, eos: bool, m: nat)
    requires bdry != [] && Passed(bdry, S, m)
    requires m + |bdry| <= |S| && S[m..m + |bdry|] == bdry
    ensures SplitOutcome(bdry, S, eos, m, Success)
  {
    SliceMatches(S, m, bdry, |bdry|);
    if Simple(bdry) { CutIs(bdry, S, m); }
  }

  lemma NotFound(bdry: bytes, S: bytes, eos: bool, m: nat, off: nat)
    requires off < |bdry| && Passed(bdry, S, m)
    requires S[m..] == bdry[..off]
    ensures SplitOutcome(bdry, S, eos, m, if eos then Eof else Incomplete)
  {
    assert S[m..m + off] == S[m..];
    SliceMatches(S, m, bdry, off);
    if Simple(bdry) { CutIs(bdry, S, m); }
  }

  /** A straddling match that fails: none of the buckets it used can start another. */
  lemma PassPartial(bdry: bytes, S: bytes, m: nat, off: nat, buf: bytes)
    requires 0 < off < |bdry| && Passed(bdry, S, m) && m + off + |buf| <= |S|
    requires S[m..m + off] == bdry[..off] && S[m + off..m + off + |buf|] == buf
    requires !SameBytes(buf, 0, bdry, off)
    ensures Passed(bdry, S, m + off)
  {
    var n := if |buf| < |bdry| - off then |buf| else |bdry| - off;
    assert !MatchAt(bdry, S, m) by {
      var k :| 0 <= k < n && buf[0..n][k] != bdry[off..off + n][k];
      assert S[m + (off + k)] == S[m + off..m + off + |buf|][k];
      assert S[m + (off + k)] != bdry[off + k];
    }
    if Simple(bdry) {
      forall i: nat | m < i < m + off
        ensures !MatchAt(bdry, S, i)
      {
        assert S[i + 0] == S[m..m + off][i - m] == bdry[..off][i - m] == bdry[i - m] != bdry[0];
      }
    }
  }

  /** A buffer with no match before n: its first n bytes cannot start a delimiter. */
  lemma PassBuffer(bdry: bytes, S: bytes, m: nat, buf: bytes, n: nat)
    requires Passed(bdry, S, m) && m + |buf| <= |S| && S[m..m + |buf|] == buf
    requires 0 < n <= |buf| && n <= Cut(bdry, buf)
    ensures Passed(bdry, S, m + n)
  {
    forall i: nat | m <= i < m + n
      ensures !MatchAt(bdry, S, i)
    {
      assert !MatchAt(bdry, buf, i - m);
      var k :| 0 <= k < |bdry| && i - m + k < |buf| && buf[i - m + k] != bdry[k];
      assert S[i + k] == S[m..m + |buf|][i - m + k];
    }
  }

  /** The stream of a brigade whose first e buckets hold a partial match. */
  lemma PartialLayout(list: seq<bytes>, e: nat, S: bytes, m: nat, bdry: bytes, off: nat)
    requires e < |list| && off <= |bdry| && Flatten(list[..e]) == bdry[..off]
    requires m + |Flatten(list)| == |S| && Flatten(list) == S[m..]
    ensures m + off + |list[e]| <= |S|
    ensures S[m..m + off] == bdry[..off]
    ensures S[m + off..m + off + |list[e]|] == list[e]
  {
    FlattenCut(list, e);
    FlattenFrom(list, e);
    var rest := Flatten(list[e + 1..]);
    assert S[m..] == bdry[..off] + (list[e] + rest);
    assert S[m..m + off] == S[m..][..off];
    assert S[m + off..m + off + |list[e]|] == S[m..][off..off + |list[e]|];
  }

  /** A bucket that agrees with all that is left of the delimiter completes it. */
  lemma CompleteMatch(S: bytes, m: nat, off: nat, bdry: bytes, buf: bytes)
    requires off <= |bdry| && m + off + |buf| <= |S| && |buf| >= |bdry| - off
    requires S[m..m + off] == bdry[..off] && S[m + off..m + off + |buf|] == buf
    requires SameBytes(buf, 0, bdry, off)
    ensures S[m..m + |bdry|] == bdry
  {
    var n := |bdry| - off;
    assert S[m + off..m + |bdry|] == S[m + off..m + off + |buf|][..n] == buf[0..n];
    assert S[m..m + |bdry|] == S[m..m + off] + S[m + off..m + |bdry|];
    assert bdry[..off] + bdry[off..] == bdry;
  }

  lemma PartialGrows(list: seq<bytes>, e: nat, bdry: bytes, off: nat)
    requires e < |list| && off + |list[e]| <= |bdry| && Flatten(list[..e]) == bdry[..off]
    requires SameBytes(list[e], 0, bdry, off)
    ensures Flatten(list[..e + 1]) == bdry[..off + |list[e]|]
  {
    FlattenUpTo(list, e);
    var n := |list[e]|;
    assert list[e] == list[e][0..n] == bdry[off..off + n];
    assert bdry[..off + n] == bdry[..off] + bdry[off..off + n];
  }

  /** apr_bucket_delete of an empty bucket at the cursor. */
  method DropEmpty(inb: Brigade, e: nat)
    requires e < |inb.list| && inb.list[e] == []
    modifies inb`list
    ensures |inb.list| == |old(inb.list)| - 1 && inb.list[..e] == old(inb.list)[..e]
    ensures inb.Stream() == old(inb.Stream())
  {
    FlattenCut(inb.list, e);
    FlattenFrom(inb.list, e);
    FlattenConcat(inb.list[..e], inb.list[e + 1..]);
    inb.list := inb.list[..e] + inb.list[e + 1..];
  }

  /** The do-while loop that moves the buckets of a failed partial match across. */
  method MoveFront(out: Brigade, inb: Brigade, n: nat)
    requires n <= |inb.list| && out != inb
    modifies out`list, inb`list
    ensures inb.list == old(inb.list)[n..]
    ensures out.Stream() == old(out.Stream()) + Flatten(old(inb.list)[..n])
    ensures old(inb.Stream()) == Flatten(old(inb.list)[..n]) + inb.Stream()
  {
    FlattenCut(inb.list, n);
    var i := 0;
    while i < n
      invariant 0 <= i <= n && inb.list == old(inb.list)[i..]
      invariant out.Stream() == old(out.Stream()) + Flatten(old(inb.list)[..i])
    {
      FlattenUpTo(old(inb.list), i);
      inb.MoveFirstTo(out);
      i := i + 1;
    }
  }

  /** The search has moved the first m bytes of S across, and nothing in them can
      start the delimiter. */
  ghost predicate Scanned(bdry: bytes, o: bytes, S: bytes, m: nat, outS: bytes, inS: bytes) {
    Passed(bdry, S, m) && outS == o + S[..m] && inS == S[m..]
  }

  lemma ScannedMore(o: bytes, S: bytes, m: nat, piece: bytes, outS: bytes, inS: bytes, m': nat)
    requires m <= |S| && S[m..] == piece + inS && outS == o + S[..m] + piece && m' == m + |piece|
    ensures m' <= |S| && outS == o + S[..m'] && inS == S[m'..]
  {
    Halves(S, m);
    Assoc(S[..m], piece, inS);
    assert S[..m'] == S[..m] + piece;
    Assoc(o, S[..m], piece);
    DropTwice(S, m, |piece|, m');
  }

  /** The complete-match branch: cut the last bucket if needed and drop the delimiter. */
  method DropDelimiter(inb: Brigade, e: nat, off: nat, bdry: bytes, ghost S: bytes, ghost m: nat)
    requires e < |inb.list| && off < |bdry| && |inb.list[e]| >= |bdry| - off
    requires m <= |S| && inb.Stream() == S[m..]
    requires Flatten(inb.list[..e]) == bdry[..off] && SameBytes(inb.list[e], 0, bdry, off)
    modifies inb`list
    ensures m + |bdry| <= |S| && S[m..m + |bdry|] == bdry
    ensures inb.Stream() == S[m + |bdry|..]
  {
    var n := |bdry| - off;
    var buf := inb.list[e];
    PartialLayout(inb.list, e, S, m, bdry, off);
    CompleteMatch(S, m, off, bdry, buf);
    FlattenCut(inb.list, e);
    FlattenFrom(inb.list, e);
    assert buf == buf[..n] + buf[n..];
    if |buf| > n {
      SplitParts(inb.list, e, n);
      inb.Split(e, n);
    }
    FlattenUpTo(inb.list, e);
    inb.DeleteFirst(e + 1);
    BehindDelimiter(S, m, bdry, off, buf[..n], inb.Stream());
  }

  lemma BehindDelimiter(S: bytes, m: nat, bdry: bytes, off: nat, rest: bytes, stream: bytes)
    requires m <= |S| && off <= |bdry| && off + |rest| == |bdry| && S[m..] == (bdry[..off] + rest) + stream
    ensures m + |bdry| <= |S| && stream == S[m + |bdry|..]
  {
    assert stream == S[m..][|bdry|..];
  }

  /** The failed-straddle branch: the buckets of the partial match go across. */
  method PassStraddle(out: Brigade, inb: Brigade, e: nat, off: nat, bdry: bytes,
                      ghost o: bytes, ghost S: bytes, ghost m: nat)
    returns (ghost m': nat)
    requires out != inb && e < |inb.list| && 0 < off < |bdry|
    requires Scanned(bdry, o, S, m, out.Stream(), inb.Stream())
    requires Flatten(inb.list[..e]) == bdry[..off] && !SameBytes(inb.list[e], 0, bdry, off)
    modifies out`list, inb`list
    ensures inb.list == old(inb.list)[e..]
    ensures m' > m && Scanned(bdry, o, S, m', out.Stream(), inb.Stream())
  {
    m' := m + off;
    PartialLayout(inb.list, e, S, m, bdry, off);
    PassPartial(bdry, S, m, off, inb.list[e]);
    MoveFront(out, inb, e);
    ScannedMore(o, S, m, bdry[..off], out.Stream(), inb.Stream(), m');
  }

  /** Cut the first bucket in front of the next candidate, if it holds one. */
  method CutCandidate(inb: Brigade, pattern: bool, bdry: bytes) returns (ghost n: nat)
    requires bdry != [] && inb.list != []
    requires inb.list[0] != [] && !SameBytes(inb.list[0], 0, bdry, 0)
    modifies inb`list
    ensures 0 < n <= |old(inb.list[0])| && n <= Cut(bdry, old(inb.list[0]))
    ensures inb.list != [] && inb.list[0] == old(inb.list[0])[..n]
    ensures inb.Stream() == old(inb.Stream())
  {
    var buf := inb.list[0];
    SameBytesIsMatch(buf, 0, bdry);
    var idx := BucketIndex(pattern, buf, bdry);
    if idx >= 0 {
      SplitParts(inb.list, 0, idx);
      inb.Split(0, idx);
    }
    return |inb.list[0]|;
  }

  /** The last branch of the loop: the first bucket cannot start the delimiter at its
      front, so what precedes a later candidate, or all of it, is moved to out. */
  method PassOver(out: Brigade, inb: Brigade, pattern: bool, bdry: bytes,
                  ghost o: bytes, ghost S: bytes, ghost m: nat)
    returns (ghost m': nat)
    requires bdry != [] && out != inb
    requires inb.list != [] && inb.list[0] != [] && !SameBytes(inb.list[0], 0, bdry, 0)
    requires Scanned(bdry, o, S, m, out.Stream(), inb.Stream())
    modifies out`list, inb`list
    ensures m' > m && Scanned(bdry, o, S, m', out.Stream(), inb.Stream())
  {
    ghost var buf := inb.list[0];
    PartialLayout(inb.list, 0, S, m, bdry, 0);
    ghost var n := CutCandidate(inb, pattern, bdry);
    m' := m + n;
    PassBuffer(bdry, S, m, buf, n);
    inb.MoveFirstTo(out);
    ScannedMore(o, S, m, buf[..n], out.Stream(), inb.Stream(), m');
  }

  /** split_on_bdry: move what precedes the delimiter to out, and drop the delimiter. */
  method SplitOnBdry(out: Brigade, inb: Brigade, pattern: bool, bdry: bytes)
    returns (st: Status, ghost m: nat)
    requires bdry != [] && out != inb
    modifies out`list, inb`list
    ensures SplitOutcome(bdry, old(inb.Stream()), inb.eos, m, st)
    ensures out.Stream() == old(out.Stream()) + old(inb.Stream())[..m]
    ensures inb.Stream() == old(inb.Stream())[if st == Success then m + |bdry| else m..]
  {
    ghost var S := inb.Stream();
    ghost var o := out.Stream();
    m := 0;
    var e, off := 0, 0;
    while e < |inb.list|
      invariant 0 <= e <= |inb.list| && 0 <= off < |bdry| && (e == 0 <==> off == 0)
      invariant Scanned(bdry, o, S, m, out.Stream(), inb.Stream())
      invariant Flatten(inb.list[..e]) == bdry[..off]
      decreases |S| - m, |inb.list|, |inb.list| - e
    {
      var buf := inb.list[e];
      if buf == [] {
        DropEmpty(inb, e);
      } else if SameBytes(buf, 0, bdry, off) {
        if |buf| >= |bdry| - off {
          DropDelimiter(inb, e, off, bdry, S, m);
          FoundAt(bdry, S, inb.eos, m);
          return Success, m;
        }
        PartialGrows(inb.list, e, bdry, off);
        off := off + |buf|;
        e := e + 1;
      } else if off > 0 {
        m := PassStraddle(out, inb, e, off, bdry, o, S, m);
        e, off := 0, 0;
      } else {
        m := PassOver(out, inb, pattern, bdry, o, S, m);
      }
    }
    assert inb.list[..e] == inb.list;
    NotFound(bdry, S, inb.eos, m, off);
    return if inb.eos then Eof else Incomplete, m;
  }

  // ------------------------------------------------- searching across several calls

  datatype Found = Found(hit: bool, before: bytes, after: bytes)

  /** A search of one string. */
  ghost function OneShot(d: bytes, s: bytes): Found {
    var c := Cut(d, s);
    if Occurs(d, s, c) then Found(true, s[..c], s[c + |d|..]) else Found(false, s[..c], s[c..])
  }

  /** The same search fed piece by piece: each call sees what the last one kept. */
  ghost function Resumed(d: bytes, kept: bytes, pieces: seq<bytes>): Found
    decreases |pieces|
  {
    if pieces == [] then Found(false, [], kept)
    else
      var f := OneShot(d, kept + pieces[0]);
      if f.hit then f.(after := f.after + Flatten(pieces[1..]))
      else
        var g := Resumed(d, f.after, pieces[1..]);
        g.(before := f.before + g.before)
  }

  /** What is known to be in front of the cut only lengthens the part before. */
  lemma SliceShift(a: bytes, t: bytes, c: nat, k: nat)
    requires c <= |t| && k == |a| + c
    ensures (a + t)[..k] == a + t[..c] && (a + t)[k..] == t[c..]
  {
  }

  lemma OneShotShift(d: bytes, a: bytes, t: bytes)
    requires |a| <= Cut(d, a + t)
    ensures OneShot(d, a + t) == OneShot(d, t).(before := a + OneShot(d, t).before)
  {
    CutShift(d, a, t);
    var c := Cut(d, t);
    MatchShift(d, a, t, c);
    var k := Cut(d, a + t);
    SliceShift(a, t, c, k);
    if Occurs(d, t, c) { SliceShift(a, t, c + |d|, k + |d|); }
  }

  lemma OneShotHit(d: bytes, s: bytes, r: bytes)
    requires OneShot(d, s).hit
    ensures OneShot(d, s + r) == OneShot(d, s).(after := OneShot(d, s).after + r)
  {
    var c := Cut(d, s);
    CutExtends(d, s, r);
    MatchPrefix(d, s, r, c);
    assert (s + r)[..c] == s[..c];
    assert (s + r)[c + |d|..] == s[c + |d|..] + r;
  }

  lemma OneShotMiss(d: bytes, s: bytes, r: bytes)
    requires !OneShot(d, s).hit
    ensures
      var f := OneShot(d, s);
      var g := OneShot(d, f.after + r);
      OneShot(d, s + r) == g.(before := f.before + g.before)
  {
    var c := Cut(d, s);
    CutExtends(d, s, r);
    assert s + r == s[..c] + (s[c..] + r);
    OneShotShift(d, s[..c], s[c..] + r);
  }

  /** Wherever the input is cut, resuming finds what one search of the whole finds. */
  lemma {:induction false} SearchIsChunkIndependent(d: bytes, kept: bytes, pieces: seq<bytes>)
    requires OneShot(d, kept) == Found(false, [], kept)
    ensures Resumed(d, kept, pieces) == OneShot(d, kept + Flatten(pieces))
    decreases |pieces|
  {
    if pieces == [] {
      assert kept + Flatten(pieces) == kept;
    } else {
      var s := kept + pieces[0];
      var r := Flatten(pieces[1..]);
      assert kept + Flatten(pieces) == s + r;
      var f := OneShot(d, s);
      if f.hit {
        OneShotHit(d, s, r);
      } else {
        OneShotMiss(d, s, r);
        KeptIsFixed(d, s);
        SearchIsChunkIndependent(d, f.after, pieces[1..]);
      }
    }
  }

  lemma KeptIsFixed(d: bytes, s: bytes)
    requires !OneShot(d, s).hit
    ensures OneShot(d, OneShot(d, s).after) == Found(false, [], OneShot(d, s).after)
  {
    var c := Cut(d, s);
    assert s == s[..c] + s[c..];
    CutShift(d, s[..c], s[c..]);
    MatchShift(d, s[..c], s[c..], 0);
  }

  /** split_on_bdry answers as the one-shot search does, for every way the input is laid
      out in buckets. */
  lemma SplitIsOneShot(d: bytes, S: bytes, eos: bool, m: nat, st: Status)
    requires SplitOutcome(d, S, eos, m, st) && Simple(d)
    ensures OneShot(d, S) == Found(st == Success, S[..m], S[if st == Success then m + |d| else m..])
  {
  }

  // ------------------------------------------------------------ front test

  /** brigade_start_string: whether the brigade starts with d. A brigade that holds no
      more than d, or a part of d, is too short to tell unless EOS ends it. */
  method StartString(bb: Brigade, d: bytes) returns (st: Status)
    ensures st in {Success, Incomplete, Eof, General}
    ensures st == Success ==> d <= bb.Stream()
    ensures st == Incomplete ==> MatchAt(d, bb.Stream(), 0) && !bb.eos
    ensures st == Eof ==> bb.eos && |bb.Stream()| < |d|
    ensures st == General ==> !MatchAt(d, bb.Stream(), 0)
  {
    var e, off := 0, 0;
    ghost var S := bb.Stream();
    while e < |bb.list|
      invariant 0 <= e <= |bb.list| && 0 <= off <= |d| && off <= |S|
      invariant S[..off] == d[..off]
      invariant off < |d| ==> S[off..] == Flatten(bb.list[e..])
    {
      if off == |d| {
        return Success;
      }
      var buf := bb.list[e];
      FlattenFrom(bb.list, e);
      assert S[off..][..|buf|] == buf;
      assert S[off..off + |buf|] == buf;
      StartStep(S, off, d, buf);
      if !SameBytes(buf, 0, d, off) {
        return General;
      }
      assert S[off + |buf|..] == S[off..][|buf|..];
      off := off + if |d| - off < |buf| then |d| - off else |buf|;
      e := e + 1;
    }
    if bb.eos {
      return if off == |d| then Success else Eof;
    }
    if off < |d| { assert |S| == off; }
    SliceMatches(S, 0, d, off);
    return Incomplete;
  }

  lemma StartStep(S: bytes, off: nat, d: bytes, buf: bytes)
    requires off < |d| && off + |buf| <= |S| && S[..off] == d[..off]
    requires S[off..off + |buf|] == buf
    ensures !SameBytes(buf, 0, d, off) ==> !MatchAt(d, S, 0)
    ensures SameBytes(buf, 0, d, off) ==>
              var n := off + if |d| - off < |buf| then |d| - off else |buf|;
              S[..n] == d[..n]
  {
    var n := if |buf| < |d| - off then |buf| else |d| - off;
    if SameBytes(buf, 0, d, off) {
      assert S[off..off + n] == S[off..off + |buf|][..n] == buf[0..n];
      assert S[..off + n] == S[..off] + S[off..off + n];
      assert d[..off + n] == d[..off] + d[off..off + n];
    } else {
      var k :| 0 <= k < n && buf[0..n][k] != d[off..off + n][k];
      assert S[0 + (off + k)] == S[off..off + |buf|][k] != d[off + k];
    }
  }
}
