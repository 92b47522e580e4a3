/** Where the bytes of a request body went: the places, in the stream that upstream gave, of
    what went downstream, of what is in the spool and of what the parser got. */
module Histories {
  import opened Bytes

  /** jumped: bytes went downstream past a spool that held some.
      gap: the parser got bytes behind some that it had not got. */
  datatype History = History(given: nat, down: seq<nat>, held: seq<nat>, fed: seq<nat>, jumped: bool, gap: bool)

  const Start := History(0, [], [], [], false, false)

  function Places(from: nat, n: nat): (ps: seq<nat>)
    ensures |ps| == n && forall i :: 0 <= i < n ==> ps[i] == from + i
  {
    seq(n, i requires 0 <= i < n => from + i)
  }

  // ------------------------------------------------------------ what can happen

  /** n bytes have been read into the spool. */
  function Held(h: History, n: nat): History {
    h.(given := h.given + n, held := h.held + Places(h.given, n))
  }

  /** The first k bytes of the spool have gone downstream. */
  function Sent(h: History, k: nat): History
    requires k <= |h.held|
  {
    h.(down := h.down + h.held[..k], held := h.held[k..])
  }

  /** n bytes have been read and gone straight downstream. */
  function Passed(h: History, n: nat): History {
    h.(given := h.given + n, down := h.down + Places(h.given, n), jumped := h.jumped || (n > 0 && h.held != []))
  }

  /** n bytes have been read, and lost. */
  function Dropped(h: History, n: nat): History { h.(given := h.given + n) }

  /** The parser got the last n bytes that were read. */
  function Fed(h: History, n: nat): History
    requires n <= h.given
  {
    h.(fed := h.fed + Places(h.given - n, n), gap := h.gap || (n > 0 && |h.fed| < h.given - n))
  }

  // ------------------------------------------------------------ what is in order

  ghost predicate Identity(ps: seq<nat>) { forall i :: 0 <= i < |ps| ==> ps[i] == i }

  /** Downstream, and then the spool, have all bytes at their places. */
  ghost predicate InOrder(h: History) { Identity(h.down + h.held) && |h.down| + |h.held| == h.given }

  ghost predicate Orderly(h: History) {
    && |h.down| + |h.held| == h.given
    && if h.jumped then !Identity(h.down) else Identity(h.down + h.held)
  }

  ghost predicate FedOrderly(h: History) {
    |h.fed| <= h.given && (Identity(h.fed) <==> !h.gap)
  }

  lemma NotIdentityGrows(a: seq<nat>, b: seq<nat>)
    requires !Identity(a)
    ensures !Identity(a + b)
  {
    var i :| 0 <= i < |a| && a[i] != i;
    assert (a + b)[i] != i;
  }

  lemma OrderlyExactly(h: History)
    requires Orderly(h)
    ensures InOrder(h) <==> !h.jumped
  {
    if h.jumped { NotIdentityGrows(h.down, h.held); }
  }

  lemma HeldOrderly(h: History, n: nat)
    requires Orderly(h)
    ensures Orderly(Held(h, n))
  {
    assert h.down + (h.held + Places(h.given, n)) == (h.down + h.held) + Places(h.given, n);
  }

  lemma SentOrderly(h: History, k: nat)
    requires Orderly(h) && k <= |h.held|
    ensures Orderly(Sent(h, k))
  {
    if h.jumped {
      NotIdentityGrows(h.down, h.held[..k]);
    } else {
      assert (h.down + h.held[..k]) + h.held[k..] == h.down + h.held;
    }
  }

  lemma PassedOrderly(h: History, n: nat)
    requires Orderly(h)
    ensures Orderly(Passed(h, n))
  {
    var down := h.down + Places(h.given, n);
    if h.jumped {
      NotIdentityGrows(h.down, Places(h.given, n));
    } else if h.held == [] {
      assert h.down + h.held == h.down && down + h.held == down;
    } else if n > 0 {
      assert down[|h.down|] == h.given > |h.down|;
    } else {
      assert down == h.down;
    }
  }

  lemma FedKeepsOrder(h: History, n: nat)
    requires FedOrderly(h) && n <= h.given && |h.fed| <= h.given - n
    ensures FedOrderly(Fed(h, n))
    ensures Orderly(h) ==> Orderly(Fed(h, n))
  {
    if h.gap {
      NotIdentityGrows(h.fed, Places(h.given - n, n));
    } else if n > 0 && |h.fed| < h.given - n {
      assert (h.fed + Places(h.given - n, n))[|h.fed|] == h.given - n;
    }
  }

  // ------------------------------------------------------------ the bytes at their places

  /** x is what stands in s at the places ps. */
  ghost predicate At(s: bytes, ps: seq<nat>, x: bytes) {
    |ps| == |x| && forall i :: 0 <= i < |ps| ==> ps[i] < |s| && x[i] == s[ps[i]]
  }

  lemma AtGrows(s: bytes, t: bytes, ps: seq<nat>, x: bytes)
    requires At(s, ps, x)
    ensures At(s + t, ps, x)
  {
  }

  lemma AtJoins(s: bytes, ps: seq<nat>, x: bytes, qs: seq<nat>, y: bytes)
    requires At(s, ps, x) && At(s, qs, y)
    ensures At(s, ps + qs, x + y)
  {
  }

  lemma AtCuts(s: bytes, ps: seq<nat>, x: bytes, k: nat)
    requires At(s, ps, x) && k <= |ps|
    ensures At(s, ps[..k], x[..k]) && At(s, ps[k..], x[k..])
  {
  }

  lemma AtNew(s: bytes, t: bytes)
    ensures At(s + t, Places(|s|, |t|), t)
  {
  }

  lemma AtIdentity(s: bytes, ps: seq<nat>, x: bytes)
    requires At(s, ps, x) && Identity(ps)
    ensures x <= s
  {
    if |x| > 0 { assert ps[|x| - 1] == |x| - 1; }
    assert forall i :: 0 <= i < |x| ==> x[i] == s[ps[i]];
  }

  // ------------------------------------------------------------ a history and its bytes

  /** The bytes read, delivered, spooled and fed are those of the history; and if none were
      lost, none of them is missing or doubled. */
  ghost predicate Tracks(h: History, read: bytes, down: bytes, held: bytes, fed: bytes, lost: bool) {
    && h.given == |read| && FedOrderly(h) && At(read, h.fed, fed)
    && (!lost ==> Orderly(h) && At(read, h.down, down) && At(read, h.held, held)
                  && multiset(down) + multiset(held) == multiset(read))
  }

  lemma TracksHeld(h: History, read: bytes, down: bytes, held: bytes, fed: bytes, lost: bool, data: bytes)
    requires Tracks(h, read, down, held, fed, lost)
    ensures Tracks(Held(h, |data|), read + data, down, held + data, fed, lost)
  {
    AtGrows(read, data, h.fed, fed);
    if !lost {
      HeldOrderly(h, |data|);
      AtGrows(read, data, h.down, down);
      AtGrows(read, data, h.held, held);
      AtNew(read, data);
      AtJoins(read + data, h.held, held, Places(h.given, |data|), data);
    }
  }

  lemma TracksPassed(h: History, read: bytes, down: bytes, held: bytes, fed: bytes, lost: bool, data: bytes)
    requires Tracks(h, read, down, held, fed, lost)
    ensures Tracks(Passed(h, |data|), read + data, down + data, held, fed, lost)
  {
    AtGrows(read, data, h.fed, fed);
    if !lost {
      PassedOrderly(h, |data|);
      AtGrows(read, data, h.down, down);
      AtGrows(read, data, h.held, held);
      AtNew(read, data);
      AtJoins(read + data, h.down, down, Places(h.given, |data|), data);
    }
  }

  lemma TracksSent(h: History, read: bytes, down: bytes, held: bytes, fed: bytes, lost: bool, out: bytes, left: bytes)
    requires Tracks(h, read, down, held, fed, lost) && held == out + left && |out| <= |h.held|
    ensures Tracks(Sent(h, |out|), read, down + out, left, fed, lost)
  {
    if !lost {
      SentOrderly(h, |out|);
      AtCuts(read, h.held, held, |out|);
      assert held[..|out|] == out && held[|out|..] == left;
      AtJoins(read, h.down, down, h.held[..|out|], out);
    }
  }

  lemma TracksDropped(h: History, read: bytes, down: bytes, held: bytes, fed: bytes, lost: bool, data: bytes,
                      held': bytes)
    requires Tracks(h, read, down, held, fed, lost)
    ensures Tracks(Dropped(h, |data|), read + data, down, held', fed, true)
  {
    AtGrows(read, data, h.fed, fed);
  }

  lemma AtTail(s: bytes, n: nat)
    requires n <= |s|
    ensures At(s, Places(|s| - n, n), s[|s| - n..])
  {
  }

  lemma FedTracks(h: History, read: bytes, fed: bytes, n: nat)
    requires h.given == |read| && FedOrderly(h) && At(read, h.fed, fed) && |fed| + n <= |read|
    ensures FedOrderly(Fed(h, n)) && At(read, Fed(h, n).fed, fed + read[|read| - n..])
    ensures Orderly(h) ==> Orderly(Fed(h, n))
  {
    FedKeepsOrder(h, n);
    AtTail(read, n);
    AtJoins(read, h.fed, fed, Places(h.given - n, n), read[|read| - n..]);
  }

  lemma TracksFed(h: History, read: bytes, down: bytes, held: bytes, fed: bytes, lost: bool, n: nat)
    requires Tracks(h, read, down, held, fed, lost) && |fed| + n <= |read|
    ensures Tracks(Fed(h, n), read, down, held, fed + read[|read| - n..], lost)
  {
    FedTracks(h, read, fed, n);
  }

  /** When the history is in order, so are the bytes. */
  lemma TracksInOrder(h: History, read: bytes, down: bytes, held: bytes, fed: bytes)
    requires Tracks(h, read, down, held, fed, false)
    ensures InOrder(h) <==> !h.jumped
    ensures !h.jumped ==> down + held == read
    ensures Identity(h.fed) <==> !h.gap
    ensures !h.gap ==> fed <= read
  {
    OrderlyExactly(h);
    if !h.jumped {
      AtJoins(read, h.down, down, h.held, held);
      AtIdentity(read, h.down + h.held, down + held);
    }
    if !h.gap { AtIdentity(read, h.fed, fed); }
  }

  // ------------------------------------------------------------ the log of a filter

  /** What upstream gave, what went downstream and what the parser got, with EOS, and whether
      spooling has failed. */
  datatype Log =
    Log(hist: History, read: bytes, readEos: bool, down: bytes, downEos: bool, fed: bytes, lost: bool)

  const Fresh := Log(Start, [], false, [], false, [], false)

  /** Unless spooling failed, no byte is lost or doubled, and each is where the history says;
      EOS went downstream or is in the spool. */
  ghost predicate Keeps(g: Log, held: bytes, heldEos: bool) {
    && Tracks(g.hist, g.read, g.down, held, g.fed, g.lost)
    && (!g.lost ==> g.readEos == (g.downEos || heldEos))
  }

  /** Read into the spool. */
  function Arrives(g: Log, data: bytes, e: bool): Log {
    g.(hist := Held(g.hist, |data|), read := g.read + data, readEos := g.readEos || e)
  }

  /** Read, and spooling failed. */
  function Loses(g: Log, data: bytes, e: bool): Log {
    g.(hist := Dropped(g.hist, |data|), read := g.read + data, readEos := g.readEos || e, lost := true)
  }

  /** Read and passed downstream. */
  function Goes(g: Log, data: bytes, e: bool): Log {
    g.(hist := Passed(g.hist, |data|), read := g.read + data, readEos := g.readEos || e,
       down := g.down + data, downEos := g.downEos || e)
  }

  /** Out of the spool, downstream. */
  function Leaves(g: Log, out: bytes, e: bool): Log {
    g.(hist := if |out| <= |g.hist.held| then Sent(g.hist, |out|) else g.hist, down := g.down + out, downEos := g.downEos || e)
  }

  /** The last n bytes went to the parser. */
  function Feeds(g: Log, n: nat): Log {
    if n <= |g.read| && n <= g.hist.given then g.(hist := Fed(g.hist, n), fed := g.fed + g.read[|g.read| - n..]) else g
  }

  lemma ArrivesKeeps(g: Log, held: bytes, heldEos: bool, data: bytes, e: bool)
    requires Keeps(g, held, heldEos)
    ensures !heldEos ==> Keeps(Arrives(g, data, e), held + data, e)
    ensures heldEos && (!g.lost ==> data == []) ==> Keeps(Arrives(g, data, e), held, true)
  {
    TracksHeld(g.hist, g.read, g.down, held, g.fed, g.lost, data);
    assert held + [] == held;
  }

  lemma LosesKeeps(g: Log, held: bytes, heldEos: bool, data: bytes, e: bool, held': bytes, heldEos': bool)
    requires Keeps(g, held, heldEos)
    ensures Keeps(Loses(g, data, e), held', heldEos')
  {
    TracksDropped(g.hist, g.read, g.down, held, g.fed, g.lost, data, held');
  }

  lemma GoesKeeps(g: Log, held: bytes, heldEos: bool, data: bytes, e: bool)
    requires Keeps(g, held, heldEos)
    ensures Keeps(Goes(g, data, e), held, heldEos)
  {
    TracksPassed(g.hist, g.read, g.down, held, g.fed, g.lost, data);
  }

  lemma LeavesKeeps(g: Log, held: bytes, heldEos: bool, out: bytes, e: bool, left: bytes, leftEos: bool)
    requires Keeps(g, held, heldEos) && held == out + left && heldEos == (leftEos || e)
    ensures Keeps(Leaves(g, out, e), left, leftEos)
  {
    if |out| <= |g.hist.held| {
      TracksSent(g.hist, g.read, g.down, held, g.fed, g.lost, out, left);
    }
  }

  lemma FeedsKeeps(g: Log, held: bytes, heldEos: bool, n: nat)
    requires Keeps(g, held, heldEos) && |g.fed| + n <= |g.read|
    ensures Keeps(Feeds(g, n), held, heldEos) && |Feeds(g, n).fed| == |g.fed| + n
  {
    TracksFed(g.hist, g.read, g.down, held, g.fed, g.lost, n);
  }

  // ------------------------------------------------------------ what one call does to it

  /** Out went downstream, past the spool if jump; the parser was fed, if at all, with what
      has just come. */
  ghost predicate Moves(g: Log, g': Log, out: bytes, jump: bool) {
    && g'.down == g.down + out && (!g'.lost ==> !g.lost && (g'.hist.jumped <==> g.hist.jumped || jump))
    && |g.fed| <= |g'.fed|
    && (g'.hist.gap <==> g.hist.gap || (|g'.fed| > |g.fed| && |g.fed| < |g.read|))
  }

  lemma StaysMoves(g: Log)
    ensures Moves(g, g, [], false)
  {
    assert g.down + [] == g.down;
  }

  /** What a prefetch makes of what it got: it is spooled or lost, and fed to the parser or
      not. */
  function Prefetched(g: Log, data: bytes, e: bool, spooled: bool, fed: bool): Log {
    if !spooled then Loses(g, data, e)
    else if fed then Feeds(Arrives(g, data, e), |data|)
    else Arrives(g, data, e)
  }

  /** What a read makes of what it got. */
  function Teed(g: Log, data: bytes, e: bool, fed: bool): Log {
    if fed then Feeds(Goes(g, data, e), |data|) else Goes(g, data, e)
  }

  /** The last bytes read are those that have just come. */
  lemma FeedsData(g: Log, g': Log, data: bytes)
    requires g.hist.given + |data| == g'.hist.given == |g'.read| && g'.read == g.read + data && g'.fed == g.fed
    ensures Feeds(g', |data|).fed == g.fed + data && Feeds(g', |data|).read == g'.read
  {
    assert g'.read[|g'.read| - |data|..] == data;
  }

  /** What a call has made of the log when data came in. */
  ghost predicate Absorbs(g: Log, g': Log, out: bytes, data: bytes, e: bool, fed: bool, lost: bool) {
    && Moves(g, g', out, false) && g'.read == g.read + data && g'.readEos == (g.readEos || e)
    && g'.down == g.down + out && g'.lost == (g.lost || lost) && g'.fed == if fed then g.fed + data else g.fed
  }

  lemma ArrivesFeeds(g: Log, held: bytes, heldEos: bool, data: bytes, e: bool, fed: bool)
    requires Keeps(g, held, heldEos)
    ensures Absorbs(g, Prefetched(g, data, e, true, fed), [], data, e, fed, false)
  {
    assert g.down + [] == g.down;
    FeedsData(g, Arrives(g, data, e), data);
  }

  lemma PrefetchedKeeps(g: Log, held: bytes, heldEos: bool, data: bytes, e: bool, fed: bool, held': bytes, heldEos': bool)
    requires Keeps(g, held, heldEos) && (g.readEos ==> data == [])
    requires if heldEos then held' == held && heldEos' else held' == held + data && heldEos' == e
    ensures Keeps(Prefetched(g, data, e, true, fed), held', heldEos')
  {
    ArrivesKeeps(g, held, heldEos, data, e);
    if fed { FeedsKeeps(Arrives(g, data, e), held', heldEos', |data|); }
  }

  lemma LostKeeps(g: Log, held: bytes, heldEos: bool, data: bytes, e: bool, held': bytes, heldEos': bool)
    requires Keeps(g, held, heldEos)
    ensures
      var g' := Prefetched(g, data, e, false, false);
      Keeps(g', held', heldEos') && Absorbs(g, g', [], data, e, false, true)
  {
    LosesKeeps(g, held, heldEos, data, e, held', heldEos');
    assert g.down + [] == g.down;
  }

  lemma TeedKeeps(g: Log, held: bytes, heldEos: bool, data: bytes, e: bool, fed: bool)
    requires Keeps(g, held, heldEos) && held == []
    ensures
      var g' := Teed(g, data, e, fed);
      Keeps(g', held, heldEos) && Absorbs(g, g', data, data, e, fed, false)
  {
    GoesKeeps(g, held, heldEos, data, e);
    if fed { FeedsKeeps(Goes(g, data, e), held, heldEos, |data|); }
    FeedsData(g, Goes(g, data, e), data);
  }

  lemma GoesMoves(g: Log, held: bytes, heldEos: bool, data: bytes, e: bool)
    requires Keeps(g, held, heldEos)
    ensures Moves(g, Goes(g, data, e), data, data != [] && held != [])
  {
  }

  lemma LeavesMoves(g: Log, out: bytes, e: bool)
    ensures Moves(g, Leaves(g, out, e), out, false)
  {
  }

  /** When the log is in order, so are the bytes. */
  lemma KeptInOrder(g: Log, held: bytes, heldEos: bool)
    requires Keeps(g, held, heldEos)
    ensures !g.lost ==> multiset(g.down) + multiset(held) == multiset(g.read)
    ensures !g.lost ==> (InOrder(g.hist) <==> !g.hist.jumped) && (!g.hist.jumped ==> g.down + held == g.read)
    ensures (Identity(g.hist.fed) <==> !g.hist.gap) && (!g.hist.gap ==> g.fed <= g.read)
  {
    if !g.lost { TracksInOrder(g.hist, g.read, g.down, held, g.fed); }
    if !g.hist.gap { AtIdentity(g.read, g.hist.fed, g.fed); }
  }
}
