/** What the Apache 2 input filter (module/apache2/filter.c) promises of one call, and what
    runs of such calls come to. */
module FilterLaws {
  import opened Bytes
  import opened Brigades
  import opened Spool
  import opened Histories

  /** What the headers say about the body, and whether the filter was given a parser. length
      is None without a Content-Length, and Some(None) when it is not a number. */
  datatype Request =
    Request(isGet: bool, length: Option<Option<int>>, ownParser: bool, hasContentType: bool, hasParser: bool)

  /** The request, and the limits of the spool and of the parser. */
  datatype Rules = Rules(req: Request, brigade: nat, limit: nat)

  type Failure = s: Status | s != Success witness General

  /** What the next filter will do when it is asked: hand over so many buckets, or fail. */
  datatype Answer = Take(k: nat) | Fail(st: Failure)

  /** The mode of a read. The filter looks at the spool in AP_MODE_READBYTES only. */
  datatype Mode = ReadBytes | GetLine | Exhaustive | OtherMode

  predicate PassesThrough(mode: Mode) { mode == GetLine || mode == Exhaustive }

  /** One call from outside, with the parser's verdict on what it will be fed. */
  datatype Call =
    | Prefetch(readbytes: int, answer: Answer, verdict: Status)
    | Read(mode: Mode, readbytes: int, answer: Answer, verdict: Status)

  /** The cast of a Content-Length to an unsigned number. */
  function Unsigned(n: int): int { if n < 0 then n + 0x1_0000_0000_0000_0000 else n }

  /** apreq_filter_init_context */
  function InitialStatus(req: Request, readLimit: nat): Status {
    if req.isGet then NoData
    else if req.length.Some? && req.length.value.None? then BadHeader
    else if req.length.Some? && Unsigned(req.length.value.value) > readLimit then OverLimit
    else if req.ownParser then Incomplete
    else if !req.hasContentType then NoHeader
    else if !req.hasParser then NoParser
    else Incomplete
  }

  predicate LengthFits(req: Request, readLimit: nat) {
    req.length.Some? ==> req.length.value.Some? && Unsigned(req.length.value.value) <= readLimit
  }

  predicate HasParser(req: Request) { req.ownParser || (req.hasContentType && req.hasParser) }

  /** A body is parsed exactly if its length, where it is given, is a number within the
      limit, and there is a parser for it. */
  lemma ParsesExactly(req: Request, readLimit: nat)
    ensures InitialStatus(req, readLimit) == Incomplete <==> !req.isGet && LengthFits(req, readLimit) && HasParser(req)
    ensures InitialStatus(req, readLimit) == NoData <==> req.isGet
    ensures InitialStatus(req, readLimit) == BadHeader <==> !req.isGet && req.length == Some(None)
    ensures InitialStatus(req, readLimit) == OverLimit <==>
              !req.isGet && !LengthFits(req, readLimit) && req.length != Some(None)
    ensures !req.isGet && LengthFits(req, readLimit) && !HasParser(req) ==>
              InitialStatus(req, readLimit) == if req.hasContentType then NoParser else NoHeader
  {
  }

  // ------------------------------------------------------------ the laws of one call

  /** The spool's buckets and what they hold, the rest of the body, what has been read, sent
      and fed, and the filter's status. */
  datatype View =
    View(list: seq<Bucket>, held: bytes, eos: bool, rest: seq<bytes>, log: Log, status: Option<Status>,
         error: Option<Failure>, removed: bool)

  /** The status behind the look at the request. */
  function StatusOf(r: Rules, status: Option<Status>): Status {
    if status.None? then InitialStatus(r.req, r.limit) else status.value
  }

  function Least(k: nat, n: nat): nat { if k < n then k else n }

  /** The parser gets what arrives exactly while it works and the limit is kept. */
  predicate FedBy(fed: bytes, s: Status, data: bytes, limit: nat, verdict: Status, fed': bytes, s': Option<Status>) {
    if s != Incomplete then fed' == fed && s' == Some(s)
    else if |fed| + |data| > limit then fed' == fed && s' == Some(OverLimit)
    else fed' == fed + data && s' == Some(verdict)
  }

  /** What spooling makes of the spool: after EOS nothing more, and no failure within the
      limit. */
  predicate SpoolStep(rv: Status, held: bytes, eos: bool, data: bytes, e: bool, held': bytes, eos': bool, limit: nat) {
    if eos then rv == Eof && held' == held && eos'
    else if rv == Success then held' == held + data && eos' == e
    else (rv == IoError || rv == General) && held' == held && !eos' && |held| + |data| >= limit
  }

  predicate SpoolFails(rv: Status) { rv != Success && rv != Eof }

  /** A prefetch that has got data. */
  ghost predicate Fetched(r: Rules, v: View, data: bytes, e: bool, verdict: Status, v': View, rv: Status) {
    && SpoolStep(rv, v.held, v.eos, data, e, v'.held, v'.eos, r.brigade) && (v.eos ==> v'.list == v.list)
    && v'.log.read == v.log.read + data && v'.log.down == v.log.down && v'.log.lost == (v.log.lost || SpoolFails(rv))
    && if SpoolFails(rv) then v'.log.fed == v.log.fed && v'.status == Some(rv) && v'.error == Some(General)
       else FedBy(v.log.fed, Incomplete, data, r.limit, verdict, v'.log.fed, v'.status) && v'.error == v.error
  }

  /** A prefetch asks upstream: there is something to read, and a parser at work. */
  predicate Asking(r: Rules, v: View, readbytes: int) {
    StatusOf(r, v.status) == Incomplete && readbytes != 0
  }

  /** Upstream has answered a prefetch. */
  ghost predicate FetchLaw(r: Rules, v: View, a: Answer, verdict: Status, v': View, st: Status) {
    match a
    case Fail(e) => v' == v.(status := Some(st), error := Some(e)) && st == General
    case Take(k) =>
      var n := Least(k, |v.rest|);
      var data, e := Flatten(v.rest[..n]), n == |v.rest|;
      && v'.status == Some(st) && v'.removed == v.removed && v'.rest == v.rest[n..]
      && (Fetched(r, v, data, e, verdict, v', if v.eos then Eof else Success)
          || (SpoolFails(st) && Fetched(r, v, data, e, verdict, v', st)))
  }

  /** apreq_filter_prefetch */
  ghost predicate PrefetchLaw(r: Rules, v: View, readbytes: int, a: Answer, verdict: Status, v': View, st: Status) {
    if Asking(r, v, readbytes) then FetchLaw(r, v, a, verdict, v', st)
    else v' == v.(status := Some(st)) && st == StatusOf(r, v.status)
  }

  /** Upstream's answer goes to the reader. */
  ghost predicate Handed(v: View, a: Answer, v': View, st: Status, out: bytes, eos: bool) {
    && v'.list == v.list && v'.held == v.held && v'.eos == v.eos && v'.error == v.error && v'.log.lost == v.log.lost
    && match a
       case Fail(e) => st == e && out == [] && !eos && v'.rest == v.rest && v'.log == v.log
       case Take(k) =>
         var n := Least(k, |v.rest|);
         && st == Success && out == Flatten(v.rest[..n]) && eos == (n == |v.rest|) && v'.rest == v.rest[n..]
         && v'.log.read == v.log.read + out && v'.log.down == v.log.down + out
  }

  /** The first bytes of the spool go to the reader, with EOS when it comes next. */
  ghost predicate FromSpool(v: View, n: nat, v': View, st: Status, out: bytes, eos: bool) {
    && st == Success && v.held == out + v'.held && |out| == Least(n, |v.held|)
    && eos == (v.eos && EosNext(v.list, n)) && v'.eos == (v.eos && !eos) && (v'.list == [] <==> EosNext(v.list, n))
    && v'.log.down == v.log.down + out && v'.log.read == v.log.read && v'.log.fed == v.log.fed
    && v'.log.lost == v.log.lost && v'.rest == v.rest && v'.error == v.error && v'.removed == v.removed
  }

  /** Who answers a read: the spool if it is not empty, then the failure of a prefetch, or
      else upstream. */
  datatype Source = TheSpool | TheFailure(st: Failure) | TheNext

  function SourceOf(r: Rules, v: View): Source {
    if v.list != [] || v.eos then TheSpool
    else if StatusOf(r, v.status) != Incomplete && v.error.Some? then TheFailure(v.error.value)
    else TheNext
  }

  /** A read of a spool that is not empty */
  ghost predicate SpoolLaw(r: Rules, v: View, readbytes: int, v': View, st: Status, out: bytes, eos: bool) {
    && v'.status == Some(StatusOf(r, v.status))
    && if readbytes >= 0 then FromSpool(v, readbytes, v', st, out, eos)
       else v' == v.(status := v'.status) && st == BadArg && out == [] && !eos
  }

  /** A read that upstream answers, and the parser if it is at work */
  ghost predicate TeeLaw(r: Rules, v: View, a: Answer, verdict: Status, v': View, st: Status, out: bytes, eos: bool) {
    var s := StatusOf(r, v.status);
    && Handed(v, a, v', st, out, eos) && v'.removed == (s != Incomplete)
    && if a.Fail? then v'.status == Some(s) else FedBy(v.log.fed, s, out, r.limit, verdict, v'.log.fed, v'.status)
  }

  /** AP_MODE_READBYTES */
  ghost predicate BytesLaw(r: Rules, v: View, readbytes: int, a: Answer, verdict: Status, v': View, st: Status,
                           out: bytes, eos: bool)
  {
    match SourceOf(r, v)
    case TheSpool => SpoolLaw(r, v, readbytes, v', st, out, eos)
    case TheFailure(e) => v' == v.(status := Some(StatusOf(r, v.status))) && st == e && out == [] && !eos
    case TheNext => TeeLaw(r, v, a, verdict, v', st, out, eos)
  }

  /** AP_MODE_GETLINE and AP_MODE_EXHAUSTIVE */
  ghost predicate PassLaw(v: View, a: Answer, v': View, st: Status, out: bytes, eos: bool) {
    Handed(v, a, v', st, out, eos) && v'.log.fed == v.log.fed && v'.status == v.status && v'.removed == v.removed
  }

  ghost predicate ReadLaw(r: Rules, v: View, mode: Mode, readbytes: int, a: Answer, verdict: Status, v': View,
                          st: Status, out: bytes, eos: bool)
  {
    match mode
    case OtherMode => v' == v && st == NotImpl && out == [] && !eos
    case ReadBytes => BytesLaw(r, v, readbytes, a, verdict, v', st, out, eos)
    case _ => PassLaw(v, a, v', st, out, eos)
  }

  // ------------------------------------------------------------ runs

  /** A call, what it met and what it left, and its answer. */
  datatype Moment = Moment(call: Call, before: View, after: View, st: Status, out: bytes, eos: bool)

  ghost predicate Lawful(r: Rules, m: Moment) {
    match m.call
    case Prefetch(n, a, verdict) =>
      PrefetchLaw(r, m.before, n, a, verdict, m.after, m.st) && m.out == [] && !m.eos
    case Read(mode, n, a, verdict) => ReadLaw(r, m.before, mode, n, a, verdict, m.after, m.st, m.out, m.eos)
  }

  /** The moments of a run follow upon each other. */
  ghost predicate Leads(r: Rules, v: View, trace: seq<Moment>, v': View)
    decreases |trace|
  {
    if trace == [] then v' == v
    else
      var m := trace[|trace| - 1];
      m.after == v' && Lawful(r, m) && Leads(r, v, trace[..|trace| - 1], m.before)
  }

  /** What the calls of a run have returned. */
  function Answers(trace: seq<Moment>): bytes
    decreases |trace|
  {
    if trace == [] then [] else Answers(trace[..|trace| - 1]) + trace[|trace| - 1].out
  }

  lemma LeadsOn(r: Rules, v: View, trace: seq<Moment>, m: Moment)
    requires Leads(r, v, trace, m.before) && Lawful(r, m)
    ensures Leads(r, v, trace + [m], m.after) && Answers(trace + [m]) == Answers(trace) + m.out
  {
    var t := trace + [m];
    assert t[..|t| - 1] == trace && t[|t| - 1] == m;
  }

  predicate Passes(m: Moment) { m.call.Read? && PassesThrough(m.call.mode) && m.out != [] }

  /** Bytes went downstream past a spool that holds some. */
  predicate Jumps(m: Moment) { Passes(m) && m.before.held != [] }

  /** The parser was fed behind bytes that it had missed. */
  predicate Gaps(m: Moment) {
    |m.after.log.fed| > |m.before.log.fed| && |m.before.log.fed| < |m.before.log.read|
  }

  predicate NoJumps(ms: seq<Moment>) { forall i :: 0 <= i < |ms| ==> !Jumps(ms[i]) }

  predicate NoGaps(ms: seq<Moment>) { forall i :: 0 <= i < |ms| ==> !Gaps(ms[i]) }

  predicate NoPasses(ms: seq<Moment>) { forall i :: 0 <= i < |ms| ==> !Passes(ms[i]) }

  lemma NoneSnoc(ms: seq<Moment>, m: Moment)
    ensures NoJumps(ms + [m]) <==> NoJumps(ms) && !Jumps(m)
    ensures NoGaps(ms + [m]) <==> NoGaps(ms) && !Gaps(m)
  {
    var all := ms + [m];
    assert all[|ms|] == m;
    assert forall i :: 0 <= i < |ms| ==> all[i] == ms[i];
  }

  /** The parser has not finished or failed. */
  predicate AtWork(v: View) { v.status.None? || v.status == Some(Incomplete) }

  lemma FeedsWhole(r: Rules, m: Moment)
    requires Lawful(r, m) && !Passes(m) && AtWork(m.after)
    ensures AtWork(m.before)
    ensures m.before.log.fed == m.before.log.read ==> m.after.log.fed == m.after.log.read
  {
    assert m.before.log.read + [] == m.before.log.read;
  }

  /** As long as the parser is at work, and no bytes are read in a mode that passes it by, it
      has got all that upstream gave. */
  lemma {:induction false} ParserGotAll(r: Rules, v: View, trace: seq<Moment>, v': View)
    requires Leads(r, v, trace, v') && NoPasses(trace) && v.log.fed == v.log.read && AtWork(v')
    ensures v'.log.fed == v'.log.read
    decreases |trace|
  {
    if trace != [] {
      var m := trace[|trace| - 1];
      FeedsWhole(r, m);
      ParserGotAll(r, v, trace[..|trace| - 1], m.before);
    }
  }

  // ------------------------------------------------------------ reading all there is

  /** What a reader can still get: the spool, and behind it the rest of the body. */
  function ToCome(v: View): bytes { v.held + Flatten(v.rest) }

  /** The spool holds what its buckets hold, and behind an EOS in it there is no body. */
  predicate Coherent(v: View) { Total(v.list) == |v.held| && (v.eos ==> v.rest == []) }

  /** What is left to do until EOS. */
  function Work(v: View): nat {
    2 * |v.held| + (if v.list != [] then 1 else 0) + (if v.eos then 1 else 0) + 2 * |v.rest|
  }

  /** A read of at least one byte, to which upstream gives at least one bucket. */
  predicate Asks(call: Call) {
    call.Read? && call.mode == ReadBytes && call.readbytes > 0 && call.answer.Take? && call.answer.k > 0
  }

  lemma HandedOn(v: View, k: nat, v': View, out: bytes)
    requires Coherent(v) && v.list == []
    requires
      var n := Least(k, |v.rest|);
      out == Flatten(v.rest[..n]) && v'.rest == v.rest[n..] && v'.held == v.held
    ensures ToCome(v) == out + ToCome(v')
  {
    FlattenCut(v.rest, Least(k, |v.rest|));
  }

  lemma SpoolSent(v: View, n: nat, v': View, st: Status, out: bytes, eos: bool)
    requires Coherent(v) && (v.list != [] || v.eos) && n > 0 && FromSpool(v, n, v', st, out, eos)
    requires Total(v'.list) == |v'.held|
    ensures ToCome(v) == out + ToCome(v') && Coherent(v') && Work(v') < Work(v)
    ensures eos ==> ToCome(v') == []
  {
    Assoc(out, v'.held, Flatten(v.rest));
  }

  /** Such a read answers with what comes next and leaves less to do, or reports the failure
      of a prefetch behind all that was spooled. */
  lemma ReadAdvances(r: Rules, m: Moment)
    requires Lawful(r, m) && Asks(m.call) && Coherent(m.before) && Total(m.after.list) == |m.after.held|
    ensures m.st == Success || m.before.error == Some(m.st)
    ensures ToCome(m.before) == m.out + ToCome(m.after) && Coherent(m.after) && m.after.error == m.before.error
    ensures m.st != Success ==> m.before.held == [] && m.out == [] && !m.before.eos
    ensures m.st == Success ==> if m.eos then ToCome(m.after) == [] else Work(m.after) < Work(m.before)
    ensures m.after.log.lost == m.before.log.lost && (m.after.removed ==> m.before.removed || m.after.held == [])
  {
    var v, v' := m.before, m.after;
    assert [] + ToCome(v) == ToCome(v);
    match SourceOf(r, v)
    case TheSpool => SpoolSent(v, m.call.readbytes, v', m.st, m.out, m.eos);
    case TheFailure(_) =>
    case TheNext => HandedOn(v, m.call.answer.k, v', m.out);
  }
}
