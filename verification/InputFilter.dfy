/** The Apache 2 input filter (module/apache2/filter.c): it passes the request body on
    unchanged while it feeds a parser, from a spool that prefetching fills. */
module InputFilter {
  import opened Bytes
  import opened Brigades
  import opened Spool
  import opened Histories
  import opened FilterLaws

  /** What the next filter answers to ap_get_brigade. */
  datatype Got = Chunk(buckets: seq<bytes>, eos: bool) | Refused(st: Failure)

  function DataOf(got: Got): bytes { match got case Chunk(buckets, _) => Flatten(buckets) case Refused(_) => [] }

  function EosOf(got: Got): bool { got.Chunk? && got.eos }

  /** f->next: the rest of the request body. EOS comes with its last bucket. */
  class Upstream {
    var rest: seq<bytes>
    var ended: bool
    ghost var given: bytes

    constructor (body: seq<bytes>)
      ensures rest == body && !ended && given == []
    {
      rest, ended, given := body, false, [];
    }

    ghost predicate Valid()
      reads this
    {
      ended ==> rest == []
    }

    /** The whole body. */
    ghost function All(): bytes
      reads this
    {
      given + Flatten(rest)
    }

    /** ap_get_brigade */
    method Get(a: Answer) returns (got: Got)
      requires Valid()
      modifies this
      ensures Valid() && All() == old(All())
      ensures given == old(given) + DataOf(got) && ended == (old(ended) || EosOf(got))
      ensures old(ended) ==> DataOf(got) == []
      ensures Answered(a, old(rest), got, rest)
    {
      match a
      case Fail(st) =>
        got := Refused(st);
        assert given + [] == given;
      case Take(k) =>
        var n := Least(k, |rest|);
        FlattenCut(rest, n);
        assert given + (Flatten(rest[..n]) + Flatten(rest[n..])) == (given + Flatten(rest[..n])) + Flatten(rest[n..]);
        got := Chunk(rest[..n], n == |rest|);
        given := given + Flatten(rest[..n]);
        rest := rest[n..];
        ended := got.eos;
    }
  }

  /** It hands over its first buckets, with EOS behind the last, or fails. */
  ghost predicate Answered(a: Answer, rest0: seq<bytes>, got: Got, rest: seq<bytes>) {
    match a
    case Fail(st) => got == Refused(st) && rest == rest0
    case Take(k) =>
      var n := Least(k, |rest0|);
      got == Chunk(rest0[..n], n == |rest0|) && rest == rest0[n..]
  }

  lemma ArrivalKeeps(g: Log, held: bytes, heldEos: bool, data: bytes, e: bool, rv: Status, fed: bool, held': bytes,
                     heldEos': bool, limit: nat)
    requires Keeps(g, held, heldEos) && (g.readEos ==> data == []) && (SpoolFails(rv) ==> !fed)
    requires SpoolStep(rv, held, heldEos, data, e, held', heldEos', limit)
    ensures
      var g' := Prefetched(g, data, e, !SpoolFails(rv), fed);
      Keeps(g', held', heldEos') && Absorbs(g, g', [], data, e, fed, SpoolFails(rv))
  {
    if SpoolFails(rv) {
      LostKeeps(g, held, heldEos, data, e, held', heldEos');
    } else {
      PrefetchedKeeps(g, held, heldEos, data, e, fed, held', heldEos');
      ArrivesFeeds(g, held, heldEos, data, e, fed);
    }
  }

  lemma FetchedIs(r: Rules, v: View, readbytes: int, a: Answer, verdict: Status, got: Got, v': View, rv: Status)
    requires Asking(r, v, readbytes) && got.Chunk? && Answered(a, v.rest, got, v'.rest)
    requires Fetched(r, v, Flatten(got.buckets), got.eos, verdict, v', rv) && v'.removed == v.removed
    ensures v'.status.Some? && PrefetchLaw(r, v, readbytes, a, verdict, v', v'.status.value)
  {
  }

  class Filter {
    const rules: Rules
    const spool: Spooled
    var bodyStatus: Option<Status>
    var filterError: Option<Failure>
    var bytesRead: nat
    var removed: bool
    ghost var log: Log

    constructor (r: Rules)
      requires r.brigade <= FILE_BUCKET_LIMIT + 1
      ensures Valid() && fresh(spool) && spool.file == null && rules == r
      ensures spool.list == [] && !spool.eos && !removed && bodyStatus == None && filterError == None && log == Fresh
    {
      rules := r;
      spool := new Spooled();
      bodyStatus, filterError, bytesRead, removed := None, None, 0, false;
      log := Fresh;
    }

    /** Unless spooling failed, every byte and EOS went downstream or is in the spool. */
    ghost predicate Conserves()
      reads this, spool, spool.file
    {
      spool.Valid(rules.brigade) && Keeps(log, spool.Stream(), spool.eos)
    }

    /** The parser got no more than the limit, and bytesRead counts it while it works. */
    ghost predicate FeedsWithinLimit()
      reads this
    {
      && |log.fed| <= rules.limit && (bodyStatus == Some(Incomplete) ==> bytesRead == |log.fed|)
      && (bodyStatus == None ==> log.fed == [] && bytesRead == 0)
    }

    ghost predicate Valid()
      reads this, spool, spool.file
    {
      Conserves() && FeedsWithinLimit()
    }

    /** The log is that of the next filter. */
    ghost predicate Tied(up: Upstream)
      reads this, up
    {
      up.Valid() && log.read == up.given && log.readEos == up.ended
    }

    ghost function Look(up: Upstream): View
      reads this, spool, spool.file, up
      requires Valid()
    {
      View(spool.list, spool.Stream(), spool.eos, up.rest, log, bodyStatus, filterError, removed)
    }

    /** APR_EINIT: look at the request first. */
    method Start()
      requires Valid()
      modifies this`bodyStatus
      ensures Valid() && bodyStatus == Some(StatusOf(rules, old(bodyStatus)))
    {
      if bodyStatus.None? {
        bodyStatus := Some(InitialStatus(rules.req, rules.limit));
      }
    }

    /** Upstream has given what the log does not have yet. */
    ghost predicate Ahead(up: Upstream, buckets: seq<bytes>, e: bool)
      reads this, up
    {
      up.Valid() && up.given == log.read + Flatten(buckets) && up.ended == (log.readEos || e)
    }

    method Ask(up: Upstream, answer: Answer, ghost v: View) returns (got: Got)
      requires Valid() && Tied(up) && Look(up) == v
      modifies up
      ensures Valid() && Look(up) == v.(rest := up.rest) && Answered(answer, v.rest, got, up.rest)
      ensures up.All() == old(up.All()) && (log.readEos ==> DataOf(got) == [])
      ensures if got.Refused? then Tied(up) else Ahead(up, got.buckets, got.eos)
    {
      got := up.Get(answer);
    }

    /** Count what has been read; the parser gets it unless that is too much. */
    method Feed(len: nat, verdict: Status)
      modifies this`bodyStatus, this`bytesRead
      ensures bytesRead == old(bytesRead) + len
      ensures bodyStatus == Some(if bytesRead > rules.limit then OverLimit else verdict)
    {
      bytesRead := bytesRead + len;
      if bytesRead > rules.limit {
        bodyStatus := Some(OverLimit);
      } else {
        bodyStatus := Some(verdict);
      }
    }

    /** apreq_brigade_concat of a copy of what upstream gave to the spool */
    method SpoolCopy(buckets: seq<bytes>, e: bool) returns (rv: Status)
      requires spool.Valid(rules.brigade)
      modifies spool, if spool.file == null then {} else {spool.file}
      ensures spool.Valid(rules.brigade) && (spool.file == old(spool.file) || fresh(spool.file))
      ensures SpoolStep(rv, old(spool.Stream()), old(spool.eos), Flatten(buckets), e, spool.Stream(), spool.eos, rules.brigade)
      ensures old(spool.eos) ==> spool.list == old(spool.list)
    {
      var bbtmp := new Brigade();
      bbtmp.list, bbtmp.eos := buckets, e;
      rv := spool.Concat(bbtmp, rules.brigade);
    }

    /** What a prefetch has got goes to the parser unless it could not be spooled. */
    method FeedSpooled(rv: Status, len: nat, verdict: Status)
      modifies this`bodyStatus, this`filterError, this`bytesRead
      ensures
        if SpoolFails(rv) then
          filterError == Some(General) && bodyStatus == Some(rv) && bytesRead == old(bytesRead)
        else
          && filterError == old(filterError) && bytesRead == old(bytesRead) + len
          && bodyStatus == Some(if bytesRead > rules.limit then OverLimit else verdict)
    {
      if SpoolFails(rv) {
        filterError, bodyStatus := Some(General), Some(rv);
      } else {
        Feed(len, verdict);
      }
    }

    /** The log of a prefetch that has got data */
    ghost method LogArrival(v: View, data: bytes, e: bool, rv: Status, verdict: Status)
      requires spool.Valid(rules.brigade) && log == v.log && Keeps(log, v.held, v.eos) && (log.readEos ==> data == [])
      requires SpoolStep(rv, v.held, v.eos, data, e, spool.Stream(), spool.eos, rules.brigade) && |log.fed| <= rules.limit
      requires
        if SpoolFails(rv) then bodyStatus == Some(rv)
        else bytesRead == |log.fed| + |data| && bodyStatus == Some(if bytesRead > rules.limit then OverLimit else verdict)
      modifies this`log
      ensures Valid() && Absorbs(v.log, log, [], data, e, !SpoolFails(rv) && bytesRead <= rules.limit, SpoolFails(rv))
    {
      var fed := !SpoolFails(rv) && bytesRead <= rules.limit;
      ArrivalKeeps(log, v.held, v.eos, data, e, rv, fed, spool.Stream(), spool.eos, rules.brigade);
      log := Prefetched(log, data, e, !SpoolFails(rv), fed);
      assert Conserves() && FeedsWithinLimit();
    }

    /** What a prefetch has got is spooled and fed to the parser. */
    method Absorb(up: Upstream, buckets: seq<bytes>, e: bool, verdict: Status, ghost v: View) returns (ghost rv: Status)
      requires Valid() && bodyStatus == Some(Incomplete) && (log.readEos ==> Flatten(buckets) == [])
      requires Look(up) == v.(rest := up.rest, status := Some(Incomplete))
      modifies this`log, this`bodyStatus, this`filterError, this`bytesRead, spool, if spool.file == null then {} else {spool.file}
      ensures Valid() && (spool.file == old(spool.file) || fresh(spool.file))
      ensures Moves(v.log, log, [], false) && log.readEos == (v.log.readEos || e)
      ensures Fetched(rules, v, Flatten(buckets), e, verdict, Look(up), rv)
    {
      var s := SpoolCopy(buckets, e);
      FeedSpooled(s, |Flatten(buckets)|, verdict);
      LogArrival(v, Flatten(buckets), e, s, verdict);
      rv := s;
    }

    method Accept(up: Upstream, ghost answer: Answer, buckets: seq<bytes>, e: bool, verdict: Status,
                  ghost readbytes: int, ghost v: View)
      requires Valid() && bodyStatus == Some(Incomplete) && Asking(rules, v, readbytes)
      requires Look(up) == v.(rest := up.rest, status := Some(Incomplete)) && (log.readEos ==> Flatten(buckets) == [])
      requires Answered(answer, v.rest, Chunk(buckets, e), up.rest)
      modifies this`log, this`bodyStatus, this`filterError, this`bytesRead, spool, if spool.file == null then {} else {spool.file}
      ensures Valid() && (spool.file == old(spool.file) || fresh(spool.file)) && bodyStatus.Some?
      ensures Moves(v.log, log, [], false)
      ensures log.read == v.log.read + Flatten(buckets) && log.readEos == (v.log.readEos || e)
      ensures PrefetchLaw(rules, v, readbytes, answer, verdict, Look(up), bodyStatus.value)
    {
      ghost var rv := Absorb(up, buckets, e, verdict, v);
      FetchedIs(rules, v, readbytes, answer, verdict, Chunk(buckets, e), Look(up), rv);
    }

    method Refuse(up: Upstream, ghost answer: Answer, e: Failure, ghost verdict: Status, ghost readbytes: int,
                  ghost v: View)
      requires Valid() && bodyStatus == Some(Incomplete) && Asking(rules, v, readbytes)
      requires Look(up) == v.(status := Some(Incomplete)) && answer == Fail(e)
      modifies this`bodyStatus, this`filterError
      ensures Valid() && bodyStatus.Some? && Moves(v.log, log, [], false)
      ensures PrefetchLaw(rules, v, readbytes, answer, verdict, Look(up), bodyStatus.value)
    {
      StaysMoves(log);
      filterError, bodyStatus := Some(e), Some(General);
    }

    /** What upstream has is spooled and fed to the parser. */
    method Fetch(up: Upstream, answer: Answer, verdict: Status, ghost readbytes: int, ghost v: View)
      requires Valid() && Tied(up) && bodyStatus == Some(Incomplete) && Asking(rules, v, readbytes)
      requires Look(up) == v.(status := Some(Incomplete))
      modifies this`log, this`bodyStatus, this`filterError, this`bytesRead, up, spool, if spool.file == null then {} else {spool.file}
      ensures Valid() && Tied(up) && (spool.file == old(spool.file) || fresh(spool.file)) && bodyStatus.Some?
      ensures Moves(v.log, log, [], false) && up.All() == old(up.All())
      ensures PrefetchLaw(rules, v, readbytes, answer, verdict, Look(up), bodyStatus.value)
    {
      var got := Ask(up, answer, Look(up));
      match got
      case Refused(e) => Refuse(up, answer, e, verdict, readbytes, v);
      case Chunk(buckets, e) => Accept(up, answer, buckets, e, verdict, readbytes, v);
    }

    /** apreq_filter_prefetch */
    method PrefetchCall(up: Upstream, readbytes: int, answer: Answer, verdict: Status) returns (st: Status)
      requires Valid() && Tied(up)
      modifies this`log, this`bodyStatus, this`filterError, this`bytesRead, up, spool, if spool.file == null then {} else {spool.file}
      ensures Valid() && Tied(up) && (spool.file == old(spool.file) || fresh(spool.file))
      ensures Moves(old(log), log, [], false) && up.All() == old(up.All())
      ensures PrefetchLaw(rules, old(Look(up)), readbytes, answer, verdict, Look(up), st)
    {
      ghost var v := Look(up);
      Start();
      if bodyStatus == Some(Incomplete) && readbytes != 0 {
        Fetch(up, answer, verdict, readbytes, v);
      } else {
        Idle(up, answer, verdict, readbytes, v);
      }
      st := bodyStatus.value;
    }

    /** There is nothing to fetch. */
    ghost method Idle(up: Upstream, answer: Answer, verdict: Status, readbytes: int, v: View)
      requires Valid() && Begun(up, v) && (bodyStatus != Some(Incomplete) || readbytes == 0)
      ensures Moves(v.log, log, [], false)
      ensures PrefetchLaw(rules, v, readbytes, answer, verdict, Look(up), bodyStatus.value)
    {
      StaysMoves(log);
    }

    /** The spool is not empty: its first bytes go downstream. */
    method Deliver(readbytes: nat) returns (out: bytes, outEos: bool)
      requires Valid()
      modifies this`log, spool`list, spool`eos
      ensures Valid() && old(spool.Stream()) == out + spool.Stream() && |out| == Least(readbytes, |old(spool.Stream())|)
      ensures outEos == (old(spool.eos) && EosNext(old(spool.list), readbytes)) && spool.eos == (old(spool.eos) && !outEos)
      ensures spool.list == [] <==> EosNext(old(spool.list), readbytes)
      ensures log == Leaves(old(log), out, outEos)
    {
      ghost var held, heldEos := spool.Stream(), spool.eos;
      out, outEos := spool.TakeFront(readbytes, rules.brigade);
      LeavesKeeps(log, held, heldEos, out, outEos, spool.Stream(), spool.eos);
      log := Leaves(log, out, outEos);
    }

    /** What a read has got goes downstream, and to the parser as long as it is working. */
    method Tee(buckets: seq<bytes>, e: bool, verdict: Status) returns (out: bytes)
      requires Valid() && bodyStatus.Some? && spool.list == []
      modifies this`log, this`bodyStatus, this`bytesRead
      ensures Valid() && out == Flatten(buckets)
      ensures
        var s := old(bodyStatus).value;
        var fed := s == Incomplete && |old(log).fed| + |out| <= rules.limit;
        && Absorbs(old(log), log, out, out, e, fed, false)
        && bodyStatus == Some(if s != Incomplete then s else if fed then verdict else OverLimit)
    {
      out := Flatten(buckets);
      ghost var s := bodyStatus.value;
      if bodyStatus == Some(Incomplete) {
        Feed(|out|, verdict);
      }
      LogTee(out, e, s, verdict);
    }

    /** The log of a read that has got data */
    ghost method LogTee(out: bytes, e: bool, s: Status, verdict: Status)
      requires Conserves() && spool.list == [] && |log.fed| <= rules.limit
      requires if s == Incomplete then bytesRead == |log.fed| + |out| else bodyStatus == Some(s)
      requires s == Incomplete ==> bodyStatus == Some(if bytesRead > rules.limit then OverLimit else verdict)
      modifies this`log
      ensures Valid()
      ensures Absorbs(old(log), log, out, out, e, s == Incomplete && |old(log).fed| + |out| <= rules.limit, false)
    {
      var fed := s == Incomplete && |log.fed| + |out| <= rules.limit;
      TeedKeeps(log, spool.Stream(), spool.eos, out, e, fed);
      log := Teed(log, out, e, fed);
    }

    /** What upstream gave goes downstream. */
    ghost method Pass(out: bytes, e: bool)
      requires Valid()
      modifies this`log
      ensures Valid() && log == Goes(old(log), out, e)
    {
      GoesKeeps(log, spool.Stream(), spool.eos, out, e);
      log := Goes(log, out, e);
    }

    /** AP_MODE_GETLINE and AP_MODE_EXHAUSTIVE: upstream answers in place of the filter. */
    method PassThrough(up: Upstream, answer: Answer) returns (st: Status, out: bytes, outEos: bool)
      requires Valid() && Tied(up)
      modifies up, this`log
      ensures Valid() && Tied(up) && up.All() == old(up.All())
      ensures Moves(old(log), log, out, out != [] && old(spool.Stream()) != [])
      ensures PassLaw(old(Look(up)), answer, Look(up), st, out, outEos)
    {
      ghost var v := Look(up);
      var got := up.Get(answer);
      match got
      case Refused(e) =>
        StaysMoves(log);
        st, out, outEos := e, [], false;
      case Chunk(buckets, e) =>
        st, out, outEos := Success, Flatten(buckets), e;
        Pass(out, outEos);
        GoesMoves(v.log, v.held, v.eos, out, outEos);
    }

    /** apreq_filter, into an empty brigade. */
    method ReadCall(up: Upstream, mode: Mode, readbytes: int, answer: Answer, verdict: Status)
      returns (st: Status, out: bytes, outEos: bool)
      requires Valid() && Tied(up) && !removed
      modifies this, up, spool
      ensures Valid() && Tied(up) && spool.file == old(spool.file) && up.All() == old(up.All())
      ensures Moves(old(log), log, out, PassesThrough(mode) && out != [] && old(spool.Stream()) != [])
      ensures ReadLaw(rules, old(Look(up)), mode, readbytes, answer, verdict, Look(up), st, out, outEos)
    {
      match mode
      case OtherMode =>
        StaysMoves(log);
        st, out, outEos := NotImpl, [], false;
      case ReadBytes => st, out, outEos := BytesCall(up, readbytes, answer, verdict, Look(up));
      case _ => st, out, outEos := PassThrough(up, answer);
    }

    /** AP_MODE_READBYTES */
    method BytesCall(up: Upstream, readbytes: int, answer: Answer, verdict: Status, ghost v: View)
      returns (st: Status, out: bytes, outEos: bool)
      requires Valid() && Tied(up) && !removed && v == Look(up)
      modifies this, up, spool
      ensures Valid() && Tied(up) && spool.file == old(spool.file) && up.All() == old(up.All())
      ensures Moves(v.log, log, out, false)
      ensures BytesLaw(rules, v, readbytes, answer, verdict, Look(up), st, out, outEos)
    {
      Start();
      assert Begun(up, v);
      st, out, outEos := BytesBegun(up, readbytes, answer, verdict, v);
    }

    method BytesBegun(up: Upstream, readbytes: int, answer: Answer, verdict: Status, ghost v: View)
      returns (st: Status, out: bytes, outEos: bool)
      requires Valid() && Tied(up) && Begun(up, v) && !removed
      modifies this`log, this`bodyStatus, this`bytesRead, this`removed, up, spool`list, spool`eos
      ensures Valid() && Tied(up) && up.All() == old(up.All()) && Moves(v.log, log, out, false)
      ensures BytesLaw(rules, v, readbytes, answer, verdict, Look(up), st, out, outEos)
    {
      if spool.list != [] || spool.eos {
        st, out, outEos := FromTheSpool(up, readbytes, answer, verdict, v);
      } else if bodyStatus != Some(Incomplete) && filterError.Some? {
        st, out, outEos := Report(up, readbytes, answer, verdict, v);
      } else {
        st, out, outEos := FromUpstream(up, answer, verdict, readbytes, v);
      }
    }

    /** The look at the request is behind. */
    ghost predicate Begun(up: Upstream, v: View)
      reads this, spool, spool.file, up
      requires Valid()
    {
      Look(up) == v.(status := Some(StatusOf(rules, v.status)))
    }

    /** A prefetch has failed. */
    method Report(up: Upstream, ghost readbytes: int, ghost answer: Answer, ghost verdict: Status, ghost v: View)
      returns (st: Status, out: bytes, outEos: bool)
      requires Valid() && Begun(up, v) && spool.list == [] && !spool.eos
      requires bodyStatus != Some(Incomplete) && filterError.Some?
      ensures Moves(v.log, log, out, false) && BytesLaw(rules, v, readbytes, answer, verdict, Look(up), st, out, outEos)
    {
      StaysMoves(log);
      st, out, outEos := filterError.value, [], false;
    }

    /** The spool is not empty: its first bytes are the answer. */
    method FromTheSpool(up: Upstream, readbytes: int, ghost answer: Answer, ghost verdict: Status, ghost v: View)
      returns (st: Status, out: bytes, outEos: bool)
      requires Valid() && Tied(up) && Begun(up, v) && (spool.list != [] || spool.eos)
      modifies this`log, spool`list, spool`eos
      ensures Valid() && Tied(up) && Moves(v.log, log, out, false)
      ensures BytesLaw(rules, v, readbytes, answer, verdict, Look(up), st, out, outEos)
    {
      if readbytes < 0 {
        StaysMoves(log);
        return BadArg, [], false;
      }
      st := Success;
      out, outEos := Deliver(readbytes);
      LeavesMoves(v.log, out, outEos);
    }

    /** The filter has looked at the request, left the chain if there is nothing to parse, and
        asked upstream. */
    ghost predicate Asked(up: Upstream, v: View)
      reads this, spool, spool.file, up
      requires Valid()
    {
      var s := StatusOf(rules, v.status);
      SourceOf(rules, v) == TheNext && Look(up) == v.(rest := up.rest, status := Some(s), removed := s != Incomplete)
    }

    method Relay(up: Upstream, ghost answer: Answer, buckets: seq<bytes>, e: bool, verdict: Status, ghost readbytes: int,
                 ghost v: View)
      returns (out: bytes)
      requires Valid() && Asked(up, v) && Answered(answer, v.rest, Chunk(buckets, e), up.rest) && Ahead(up, buckets, e)
      modifies this`log, this`bodyStatus, this`bytesRead
      ensures Valid() && Tied(up) && out == Flatten(buckets) && Moves(v.log, log, out, false)
      ensures BytesLaw(rules, v, readbytes, answer, verdict, Look(up), Success, out, e)
    {
      out := Tee(buckets, e, verdict);
    }

    ghost method Refusal(up: Upstream, answer: Answer, e: Failure, verdict: Status, readbytes: int, v: View)
      requires Valid() && Asked(up, v) && answer == Fail(e) && up.rest == v.rest
      ensures Moves(v.log, log, [], false) && BytesLaw(rules, v, readbytes, answer, verdict, Look(up), e, [], false)
    {
      StaysMoves(log);
    }

    /** The spool is empty: what upstream has is passed on. */
    method FromUpstream(up: Upstream, answer: Answer, verdict: Status, ghost readbytes: int, ghost v: View)
      returns (st: Status, out: bytes, outEos: bool)
      requires Valid() && Tied(up) && Begun(up, v) && SourceOf(rules, v) == TheNext && !removed
      modifies this`log, this`bodyStatus, this`bytesRead, this`removed, up
      ensures Valid() && Tied(up) && up.All() == old(up.All()) && Moves(v.log, log, out, false)
      ensures BytesLaw(rules, v, readbytes, answer, verdict, Look(up), st, out, outEos)
    {
      removed := bodyStatus != Some(Incomplete);
      var got := Ask(up, answer, Look(up));
      match got
      case Refused(e) =>
        Refusal(up, answer, e, verdict, readbytes, v);
        st, out, outEos := e, [], false;
      case Chunk(buckets, e) =>
        out := Relay(up, answer, buckets, e, verdict, readbytes, v);
        st, outEos := Success, e;
    }
  }

  // ------------------------------------------------------------ runs

  /** What a run keeps: the history's flags are those of the calls so far. */
  ghost predicate Told(g: Log, trace: seq<Moment>) {
    (!g.lost ==> (g.hist.jumped <==> !NoJumps(trace))) && (g.hist.gap <==> !NoGaps(trace))
  }

  lemma ToldOn(trace: seq<Moment>, m: Moment)
    requires Told(m.before.log, trace) && Moves(m.before.log, m.after.log, m.out, Jumps(m))
    ensures Told(m.after.log, trace + [m])
  {
    NoneSnoc(trace, m);
  }

  /** One call of a run, and what it met and did. */
  method OneCall(f: Filter, up: Upstream, call: Call) returns (out: bytes, ghost m: Moment)
    requires f.Valid() && f.Tied(up) && !f.removed
    modifies f, up, f.spool, if f.spool.file == null then {} else {f.spool.file}
    ensures f.Valid() && f.Tied(up) && (f.spool.file == old(f.spool.file) || fresh(f.spool.file))
    ensures up.All() == old(up.All()) && m.call == call && m.before == old(f.Look(up)) && m.after == f.Look(up)
    ensures m.out == out && Lawful(f.rules, m) && Moves(m.before.log, m.after.log, out, Jumps(m))
  {
    ghost var v := f.Look(up);
    var st, e := Success, false;
    if call.Prefetch? {
      st := f.PrefetchCall(up, call.readbytes, call.answer, call.verdict);
      out := [];
    } else {
      st, out, e := f.ReadCall(up, call.mode, call.readbytes, call.answer, call.verdict);
    }
    m := Moment(call, v, f.Look(up), st, out, e);
  }

  /** The outcome of a run, as far as it is promised. */
  ghost predicate Outcome(g: Log, held: bytes, rest: bytes, body: bytes, trace: seq<Moment>) {
    && g.read + rest == body
    && (!g.lost ==> multiset(g.down) + multiset(held) == multiset(g.read))
    && (!g.lost ==> (InOrder(g.hist) <==> NoJumps(trace)))
    && (!g.lost && NoJumps(trace) ==> g.down + held + rest == body)
    && (Identity(g.hist.fed) <==> NoGaps(trace)) && (NoGaps(trace) ==> g.fed <= body)
  }

  lemma OutcomeOf(g: Log, held: bytes, heldEos: bool, rest: bytes, body: bytes, trace: seq<Moment>)
    requires Keeps(g, held, heldEos) && Told(g, trace) && g.read + rest == body
    ensures Outcome(g, held, rest, body, trace)
  {
    KeptInOrder(g, held, heldEos);
    assert g.read <= body;
  }

  /** A new filter in front of the whole body. */
  function NewView(body: seq<bytes>): View { View([], [], false, body, Fresh, None, None, false) }

  /** Between two calls of a run that began with v. */
  ghost predicate Running(f: Filter, up: Upstream, v: View, trace: seq<Moment>, sent: bytes, body: bytes)
    reads f, up, f.spool, f.spool.file
  {
    && f.Valid() && f.Tied(up) && up.All() == body && Told(f.log, trace)
    && Leads(f.rules, v, trace, f.Look(up)) && sent == Answers(trace) == f.log.down
  }

  lemma NextMoment(r: Rules, v: View, trace: seq<Moment>, m: Moment)
    requires Leads(r, v, trace, m.before) && Lawful(r, m) && Told(m.before.log, trace)
    requires Moves(m.before.log, m.after.log, m.out, Jumps(m)) && Answers(trace) == m.before.log.down
    ensures Leads(r, v, trace + [m], m.after) && Told(m.after.log, trace + [m])
    ensures Answers(trace + [m]) == m.after.log.down == Answers(trace) + m.out
  {
    LeadsOn(r, v, trace, m);
    ToldOn(trace, m);
  }

  ghost predicate TraceOf(trace: seq<Moment>, calls: seq<Call>) {
    |trace| <= |calls| && forall k :: 0 <= k < |trace| ==> trace[k].call == calls[k]
  }

  lemma TraceSnoc(trace: seq<Moment>, calls: seq<Call>, m: Moment)
    requires TraceOf(trace, calls) && |trace| < |calls| && m.call == calls[|trace|]
    ensures TraceOf(trace + [m], calls)
  {
  }

  method RunCall(f: Filter, up: Upstream, call: Call, ghost sent: bytes, ghost v: View, ghost body: bytes,
                 ghost trace: seq<Moment>)
    returns (out: bytes, ghost m: Moment)
    requires Running(f, up, v, trace, sent, body) && !f.removed
    modifies f, up, f.spool, if f.spool.file == null then {} else {f.spool.file}
    ensures Running(f, up, v, trace + [m], sent + out, body) && m.call == call
    ensures f.spool.file == old(f.spool.file) || fresh(f.spool.file)
  {
    out, m := OneCall(f, up, call);
    NextMoment(f.rules, v, trace, m);
  }

  /** The calls from call i on, until the filter leaves the chain */
  method RunFrom(f: Filter, up: Upstream, sent: bytes, calls: seq<Call>, i: nat, ghost v: View, ghost body: bytes,
                 ghost trace: seq<Moment>)
    returns (sent': bytes, ghost trace': seq<Moment>)
    requires Running(f, up, v, trace, sent, body) && TraceOf(trace, calls) && |trace| == i
    modifies f, up, f.spool, if f.spool.file == null then {} else {f.spool.file}
    ensures Running(f, up, v, trace', sent', body) && TraceOf(trace', calls) && (|trace'| < |calls| ==> f.removed)
    decreases |calls| - i
  {
    if i == |calls| || f.removed {
      return sent, trace;
    }
    var out;
    ghost var m;
    out, m := RunCall(f, up, calls[i], sent, v, body, trace);
    TraceSnoc(trace, calls, m);
    sent', trace' := RunFrom(f, up, sent + out, calls, i + 1, v, body, trace + [m]);
  }

  /** Any interleaving of prefetches and reads in any mode over any body, as long as the
      filter is in the chain. Every call keeps its law. Unless spooling failed, what the
      reads have returned, the spool and what upstream still has are all of the body; they
      are in order exactly if no read in a mode that passes the spool by got bytes while the
      spool held some. The parser got no more than the limit, and a beginning of the body
      exactly if it was not fed behind bytes that such reads had taken; and as long as it is
      at work, and they took none, all that was read. */
  method Run(rules: Rules, body: seq<bytes>, calls: seq<Call>)
    returns (f: Filter, up: Upstream, sent: bytes, ghost trace: seq<Moment>)
    requires rules.brigade <= FILE_BUCKET_LIMIT + 1
    ensures f.Valid() && f.Tied(up) && f.rules == rules && |f.log.fed| <= rules.limit
    ensures TraceOf(trace, calls) && (|trace| < |calls| ==> f.removed)
    ensures Leads(rules, NewView(body), trace, f.Look(up)) && sent == Answers(trace) == f.log.down
    ensures Outcome(f.log, f.spool.Stream(), Flatten(up.rest), Flatten(body), trace)
    ensures NoPasses(trace) && AtWork(f.Look(up)) ==> f.log.fed == f.log.read
  {
    f := new Filter(rules);
    up := new Upstream(body);
    assert [] + Flatten(body) == Flatten(body);
    sent, trace := RunFrom(f, up, [], calls, 0, NewView(body), Flatten(body), []);
    OutcomeOf(f.log, f.spool.Stream(), f.spool.eos, Flatten(up.rest), Flatten(body), trace);
    if NoPasses(trace) && AtWork(f.Look(up)) {
      ParserGotAll(rules, NewView(body), trace, f.Look(up));
    }
  }

  lemma SpoolCoheres(f: Filter, up: Upstream)
    requires f.Valid() && f.Tied(up)
    ensures Total(f.spool.list) == |f.spool.Stream()|
    ensures !f.log.lost ==> Coherent(f.Look(up))
  {
    TotalIsLength(f.spool.Disk(), f.spool.list);
  }

  /** A read of any size, to which upstream gives at least one bucket if it is asked */
  method ReadSome(f: Filter, up: Upstream, ghost v: View) returns (out: bytes, st: Status, e: bool, ghost v': View)
    requires f.Valid() && f.Tied(up) && !f.removed && !f.log.lost && v == f.Look(up)
    modifies f, up, f.spool
    ensures f.Valid() && f.Tied(up) && v' == f.Look(up) && !f.log.lost && v'.error == v.error
    ensures ToCome(v) == out + ToCome(v')
    ensures st != Success || e || f.removed ==> v'.held == []
    ensures st == Success ==> if e then ToCome(v') == [] else Work(v') < Work(v)
    ensures st != Success ==> v.error == Some(st)
  {
    var n: nat, k: nat, verdict: Status := *, *, *;
    SpoolCoheres(f, up);
    st, out, e := f.ReadCall(up, ReadBytes, n + 1, Take(k + 1), verdict);
    SpoolCoheres(f, up);
    v' := f.Look(up);
    ReadAdvances(f.rules, Moment(Read(ReadBytes, n + 1, Take(k + 1), verdict), v, v', st, out, e));
  }

  /** Reads of any size on, while upstream gives at least one bucket whenever it is asked:
      they end, and have returned all of the spool and the rest of the body, in order and up
      to EOS. They end earlier only with the failure of a prefetch, behind all that it had
      spooled, or when the filter has nothing more to parse and leaves the chain. */
  method Drain(f: Filter, up: Upstream, ghost v: View) returns (sent: bytes, st: Status, ghost v': View)
    requires f.Valid() && f.Tied(up) && !f.removed && !f.log.lost && v == f.Look(up)
    modifies f, up, f.spool
    ensures f.Valid() && f.Tied(up) && v' == f.Look(up)
    ensures ToCome(v) == sent + ToCome(v') && v'.held == []
    ensures st == Success && !f.removed ==> sent == ToCome(v)
    ensures st != Success ==> v.error == Some(st)
    decreases Work(v)
  {
    var e;
    sent, st, e, v' := ReadSome(f, up, v);
    if st == Success && !e && !f.removed {
      ghost var u := v';
      var more;
      more, st, v' := Drain(f, up, u);
      Assoc(sent, more, ToCome(v'));
      sent := sent + more;
    }
  }

  /** The condition is needed: a line that is read behind a prefetch comes in front of it,
      without any failure of the spool. */
  method LinePastSpool(f: Filter, up: Upstream) returns (line: bytes)
    requires f.Valid() && f.Tied(up) && !f.removed && Asking(f.rules, f.Look(up), 1)
    requires |up.rest| > 2 && up.rest[0] != [] && up.rest[1] != []
    requires !f.log.lost && !f.spool.eos && |f.spool.Stream()| + |up.rest[0]| < f.rules.brigade
    modifies f, up, f.spool, if f.spool.file == null then {} else {f.spool.file}
    ensures f.Valid() && line == old(up.rest)[1]
    ensures !f.log.lost && f.log.hist.jumped && !InOrder(f.log.hist)
  {
    ghost var rest := up.rest;
    OneBucket(rest);
    var st := f.PrefetchCall(up, 1, Take(1), Incomplete);
    assert up.rest == rest[1..] && f.spool.Stream() != [] && !f.log.lost;
    OneBucket(up.rest);
    var e;
    st, line, e := f.ReadCall(up, GetLine, 0, Take(1), Incomplete);
    KeptInOrder(f.log, f.spool.Stream(), f.spool.eos);
  }

  /** There is such a filter: a new one, with a parser, and three buckets to come. */
  method LineOvertakes(limit: nat) returns (f: Filter, line: bytes)
    ensures line == [98] && !f.log.lost && !InOrder(f.log.hist)
  {
    f := new Filter(Rules(Request(false, None, true, false, false), 2, limit));
    var up := new Upstream([[97], [98], []]);
    line := LinePastSpool(f, up);
  }

  lemma OneBucket(list: seq<bytes>)
    requires list != []
    ensures Flatten(list[..1]) == list[0]
  {
    assert list[..1] == [list[0]] && list[..1][1..] == [];
  }
}
