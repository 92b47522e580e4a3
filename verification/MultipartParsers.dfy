/** The multipart/form-data parser (library/parser_multipart.c): a nine-state machine over
    two brigades, with a header parser inside and a nested parser for multipart parts. */
module MultipartParsers {
  import opened Bytes
  import opened Brigades
  import opened Delimiters
  import opened HeaderGrammar
  import opened HeaderParsers
  import opened Multipart
  import opened MultipartProgress
  import opened MultipartSteps
  import opened MultipartOutcome
  import opened MultipartHopes

  // ------------------------------------------------------------ the parser

  class MultipartParser {
    const level: nat
    const bdry: bytes
    const inb: Brigade
    const bb: Brigade
    var status: MStatus
    var hdr: HeaderParser
    var info: Option<seq<Entry>>
    var pname: Option<bytes>
    var upload: Param
    var next: MultipartParser?
    ghost var Repr: set<object>

    /** The objects of this parser itself; a nested parser owns the rest of Repr. */
    ghost function Own(): set<object>
      reads this, hdr
    {
      {this, inb, bb, hdr, hdr.bb}
    }

    /** What holds of this parser itself. */
    ghost predicate Shell()
      reads this, bb, hdr, hdr.bb
    {
      && this in Repr && hdr in Repr && Own() <= Repr
      && inb != bb && hdr.bb != inb && hdr.bb != bb && hdr.Valid()
      && 1 <= level <= MAX_LEVEL && bdry != []
      && (status == MfdHeader && info.Some? ==> hdr.status != Complete && hdr.status != Failed)
      && (status == MfdPostHeader || status == MfdParam || status == MfdUpload ==> info.Some?)
      && (status == MfdParam ==> pname.Some?)
      && (status == MfdUpload ==> upload.upload.Some?)
      && !bb.eos
    }

    ghost predicate Valid()
      reads this, Repr
      ensures Valid() ==> this in Repr
      decreases Repr
    {
      && this in Repr && hdr in Repr && Own() <= Repr && Shell()
      && (status == MfdMixed ==>
            && next != null && next in Repr && next.Repr <= Repr && next.Repr !! Own()
            && next.level == level + 1 && next.Valid())
    }

    /** The parser itself, without what it holds in inb. */
    ghost function Core(): MState
      reads this, bb, hdr
    {
      MState(status, level, bdry, [], false, bb.Stream(), hdr.h, info, pname, upload, None)
    }

    /** The parser without its bucket boundaries. */
    ghost function Abs(): MState
      reads this, Repr
      requires Valid()
      decreases Repr
    {
      Core().(inb := inb.Stream(), eos := inb.eos, next := if status == MfdMixed then Some(next.Abs()) else None)
    }

    /** create_multipart_context, once the boundary is known. */
    constructor (b: bytes, lvl: nat, name: Option<bytes>)
      requires b != [] && 1 <= lvl <= MAX_LEVEL
      ensures Valid() && fresh(Repr) && level == lvl && status == MfdInit
      ensures Abs() == Fresh(b, name, lvl)
    {
      level, bdry, status, info, pname, next := lvl, b, MfdInit, None, name, null;
      upload := Param([], [], None, [], Ascii, false);
      inb := new Brigade();
      bb := new Brigade();
      hdr := new HeaderParser();
      new;
      Repr := Own();
    }

    /** split_on_bdry(ctx->bb, ctx->in, pattern, d) */
    method Search(pattern: bool, d: bytes) returns (st: Status, ghost n: nat)
      requires Valid() && d != []
      modifies inb`list, bb
      ensures Valid() && Searched(old(Abs()), Abs(), d, n, st)
    {
      ghost var m := Abs();
      st, n := SplitOnBdry(bb, inb, pattern, d);
      SearchedIs(m, d, n, st);
    }

    /** MFD_INIT: look for the boundary, and return any preamble to the caller. */
    method DoInit(back: Brigade) returns (done: bool, st: Status, ghost n: nat)
      requires Valid() && status == MfdInit && back !in Repr && !back.eos
      modifies this`status, inb`list, bb, back
      ensures Valid() && InitDone(old(Abs()), Abs(), n, old(back.Stream()), back.Stream(), done, st) && !back.eos
    {
      st, n := Search(false, Dashed(bdry));
      done := st != Success;
      if st == Success {
        ReturnPreamble(back);
      }
    }

    /** The boundary has been found; what lies in front of it goes back to the caller. */
    method ReturnPreamble(back: Brigade)
      requires Valid() && status == MfdInit && back !in Repr && !back.eos
      modifies this`status, bb, back
      ensures Valid() && !back.eos && back.Stream() == old(back.Stream()) + old(bb.Stream())
      ensures Abs() == old(Abs()).(status := MfdNextline, acc := [])
    {
      status := MfdNextline;
      back.Concat(bb);
    }

    /** The line behind a boundary is complete: two dashes end the message, anything else
        starts a part. */
    method EndLine(back: Brigade) returns (done: bool)
      requires Valid() && status == MfdNextline && back !in Repr && !back.eos
      modifies this`status, this`info, inb, bb, back
      ensures Valid()
      ensures LineDone(old(Abs()), Abs(), old(bb.Stream()), old(inb.Stream()), old(back.Stream()), back.Stream(), back.eos, done)
    {
      var line := bb.Stream();
      done := |line| >= 2 && line[..2] == DASHES;
      if done {
        back.Concat(inb);
        status := MfdComplete;
      } else {
        bb.Cleanup();
        status := MfdHeader;
        info := None;
      }
    }

    /** MFD_NEXTLINE: read the rest of the delimiter line. */
    method DoNextline(back: Brigade) returns (done: bool, st: Status, ghost found: Status, ghost n: nat)
      requires Valid() && status == MfdNextline && back !in Repr && !back.eos
      modifies this`status, this`info, inb, bb, back
      ensures Valid()
      ensures NextlineDone(old(Abs()), Abs(), found, n, old(back.Stream()), back.Stream(), back.eos, done, st)
    {
      st, n := Search(false, CRLF);
      found := st;
      if st == Success {
        done := EndLine(back);
      } else {
        done := true;
        if st == Eof {
          st := Success;
          status := MfdComplete;
        }
      }
    }

    /** A new part: a fresh table, and the header parser starts over. */
    method StartHeader()
      requires Valid() && status == MfdHeader
      modifies this`info, this`hdr, this`Repr
      ensures Valid() && fresh(Repr - old(Repr)) && old(Repr) <= Repr && info.Some?
      ensures old(info).Some? ==> hdr == old(hdr)
      ensures old(info).None? ==> fresh(hdr) && fresh(hdr.bb)
      ensures
        var m := old(Abs());
        Abs() == m.(info := info, hdr := if m.info.Some? then m.hdr else Init)
      ensures info.value == if old(info).Some? then old(info).value else []
    {
      if info == None {
        hdr := new HeaderParser();
        info := Some([]);
        Repr := Repr + {hdr, hdr.bb};
      }
    }

    /** apreq_parser_run on the header parser, and what its answer makes of this one. */
    method RunHeader() returns (st: Status)
      requires Valid() && status == MfdHeader && info.Some?
      modifies this`status, this`info, inb, hdr, hdr.bb
      ensures Valid() && HeaderDone(old(Abs()), Abs(), st != Success, st)
    {
      var t := new Table<Entry>();
      t.rows := info.value;
      st := hdr.Parse(t, inb);
      info := Some(t.rows);
      status := if st == Success then MfdPostHeader else if st == Incomplete then MfdHeader else MfdError;
    }

    /** MFD_HEADER */
    method DoHeader() returns (done: bool, st: Status)
      requires Valid() && status == MfdHeader
      modifies this`status, this`info, this`hdr, this`Repr, inb, hdr, hdr.bb
      ensures Valid() && fresh(Repr - old(Repr)) && old(Repr) <= Repr
      ensures HeaderDone(old(Abs()), Abs(), done, st)
    {
      StartHeader();
      st := RunHeader();
      done := st != Success;
    }

    /** MFD_PARAM: a form field, complete with its delimiter. */
    method DoParam(t: Table<Param>) returns (done: bool, st: Status, ghost n: nat)
      requires Valid() && status == MfdParam && t !in Repr
      modifies this`status, this`pname, inb`list, bb, t
      ensures Valid() && ParamDone(old(Abs()), Abs(), n, old(t.rows), t.rows, done, st)
    {
      ghost var m := Abs();
      st, n := Search(true, Delim(bdry));
      ParamIsDone(m, Abs(), n, st, t.rows);
      if st == Success {
        AddParam(t);
      } else if st != Incomplete {
        status := MfdError;
      }
      done := st != Success;
    }

    /** The form field is complete: a row, and on to the next line. */
    method AddParam(t: Table<Param>)
      requires Valid() && status == MfdParam && t !in Repr
      modifies this`status, this`pname, bb, t
      ensures Valid() && Abs() == FieldAdded(old(Abs())) && t.rows == old(t.rows) + [FieldRow(old(Abs()))]
    {
      var value := bb.Stream();
      var charset := Charsets.CharsetDivine(value);
      t.rows := t.rows + [Param(pname.value, value, None, info.value, charset, true)];
      status := MfdNextline;
      pname := None;
      bb.Cleanup();
    }

    /** MFD_UPLOAD: file contents, moved to the upload brigade as they arrive. */
    method DoUpload(t: Table<Param>) returns (done: bool, st: Status, ghost n: nat)
      requires Valid() && status == MfdUpload && t !in Repr
      modifies this`status, this`upload, inb`list, bb, t
      ensures Valid() && UploadDone(old(Abs()), Abs(), n, old(t.rows), t.rows, done, st)
    {
      ghost var m := Abs();
      st, n := Search(true, Delim(bdry));
      UploadIsDone(m, Abs(), n, st, t.rows);
      done := st != Success;
      if st == Success {
        AddUpload(t);
      } else if st == Incomplete {
        Collect();
      } else {
        status := MfdError;
      }
    }

    /** The file is complete: a row, and on to the next line. */
    method AddUpload(t: Table<Param>)
      requires Valid() && status == MfdUpload && t !in Repr
      modifies this`status, this`upload, bb, t
      ensures Valid() && Abs() == Collected(old(Abs())).(status := MfdNextline)
      ensures t.rows == old(t.rows) + [Collected(old(Abs())).upload]
    {
      Collect();
      t.rows := t.rows + [upload];
      status := MfdNextline;
    }

    /** What the search has passed over goes to the upload brigade. */
    method Collect()
      requires Valid() && status == MfdUpload
      modifies this`upload, bb
      ensures Valid()
      ensures
        Abs() == Collected(old(Abs()))
    {
      upload := upload.(upload := Some(upload.upload.value + bb.Stream()));
      bb.Cleanup();
    }

    /** The part has no body: return the CRLF to the front. */
    method Reopen() returns (st: Status)
      requires Valid() && status == MfdPostHeader
      modifies inb`list
      ensures Valid() && StartOutcome(Dashed(bdry), old(inb.Stream()), inb.eos, st)
      ensures Abs() == old(Abs()).(inb := Reopened(old(inb.Stream()), st))
    {
      st := StartString(inb, Dashed(bdry));
      if st == Success {
        FlattenConcat([CRLF], inb.list);
        FlattenOne(CRLF);
        inb.list := [CRLF] + inb.list;
      }
    }

    /** The part is a multipart message of its own: pass control to a new parser. */
    method EnterNested(k: Kind, ghost m: MState)
      requires Valid() && Abs() == m && status == MfdPostHeader && k.Nested? && level < MAX_LEVEL && k.bdry != []
      modifies this`status, this`next, this`Repr
      ensures Valid() && fresh(Repr - old(Repr)) && old(Repr) <= Repr
      ensures Abs() == m.(status := MfdMixed, next := Some(Fresh(k.bdry, Some(k.pname), level + 1)))
    {
      var p := new MultipartParser(k.bdry, level + 1, Some(k.pname));
      Adopt(p, m, Fresh(k.bdry, Some(k.pname), level + 1));
    }

    /** The nested parser is new, or may have grown. */
    ghost method Rejoin(m: MState, q: MState)
      requires Shell() && status == MfdMixed && next != null && next.Valid() && next.Repr !! Own()
      requires next.level == level + 1 && m.next.Some? && Core() == m.(inb := [], eos := false, next := None)
      requires next.Abs() == q
      modifies this`Repr
      ensures Repr == old(Repr) + next.Repr
      ensures Valid() && Abs() == m.(inb := inb.Stream(), eos := inb.eos, next := Some(q))
    {
      Repr := Repr + next.Repr;
    }

    /** ctx->next_parser = p */
    method Adopt(p: MultipartParser, ghost m: MState, ghost q: MState)
      requires Valid() && p.Valid() && p.Repr !! Repr && p.level == level + 1
      requires Abs() == m && p.Abs() == q
      modifies this`status, this`next, this`Repr
      ensures Valid() && Repr == old(Repr) + p.Repr
      ensures Abs() == m.(status := MfdMixed, next := Some(q))
    {
      next, status := p, MfdMixed;
      Rejoin(m.(status := MfdMixed, next := Some(q)), q);
    }

    /** Set up the state for a form field or a file. */
    method EnterLeaf(k: Kind)
      requires Valid() && status == MfdPostHeader && !k.Nested?
      modifies this`status, this`pname, this`upload
      ensures Valid() && Abs() == Entered(old(Abs()), k, old(inb.Stream()))
    {
      if k.Field? {
        pname := Some(k.name);
        status := MfdParam;
      } else if k.Upload? {
        upload := Param(k.name, k.filename, Some([]), info.value, Ascii, true);
        status := MfdUpload;
      } else {
        status := MfdError;
      }
    }

    /** Set up the state for any kind of part. */
    method Enter(k: Kind)
      requires Valid() && status == MfdPostHeader && (k.Nested? ==> level < MAX_LEVEL && k.bdry != [])
      modifies this`status, this`pname, this`upload, this`next, this`Repr
      ensures Valid() && fresh(Repr - old(Repr)) && old(Repr) <= Repr
      ensures Abs() == Entered(old(Abs()), k, old(inb.Stream()))
    {
      if k.Nested? {
        ghost var m := Abs();
        NestedIsEntered(m, k);
        EnterNested(k, m);
      } else {
        EnterLeaf(k);
      }
    }

    /** MFD_POST_HEADER: put a missing CRLF back and decide what kind of part follows. */
    method DoPostHeader() returns (done: bool, st: Status)
      requires Valid() && status == MfdPostHeader
      modifies this`status, this`pname, this`upload, this`next, this`Repr, inb`list
      ensures Valid() && fresh(Repr - old(Repr)) && old(Repr) <= Repr
      ensures StartOutcome(Dashed(bdry), old(inb.Stream()), inb.eos, st) && done == (st == Incomplete)
      ensures PostHeaderDone(old(Abs()), Abs(), st)
    {
      ghost var m := Abs();
      st := Reopen();
      done := st == Incomplete;
      if !done {
        var k := Kinded();
        ghost var S := inb.Stream();
        Enter(k);
        EnteredIsDone(m, k, S, Abs(), st);
      }
    }

    /** Look the part's headers up and classify it. */
    method Kinded() returns (k: Kind)
      requires Valid() && status == MfdPostHeader
      ensures KindIs(k, Abs()) && (k.Nested? ==> level < MAX_LEVEL && k.bdry != [])
    {
      k := Classify(info.value, pname, level);
      NestedHasRoom(info.value, pname, level);
    }

    // ---------------------------------------------------- nested messages and the loop

    /** apreq_parser_run on the nested parser; its leftovers come back to ctx->in. */
    method RunNested(t: Table<Param>, ghost ih: Hope) returns (st: Status, ghost ih': Hope)
      requires Valid() && status == MfdMixed && t !in Repr
      requires Started(ih, next.Abs(), t.rows, inb.Stream(), inb.eos)
      modifies Repr, t
      decreases MAX_LEVEL - level, 0
      ensures Valid() && fresh(Repr - old(Repr)) && old(Repr) <= Repr && status == MfdMixed
      ensures NestedRan(ih, ih', old(Abs()), Abs(), old(t.rows), t.rows, st)
    {
      ghost var m, q, rows := Abs(), next.Abs(), t.rows;
      st, ih' := next.Parse(t, inb, ih);
      NestedRanIs(ih, ih', m, q, next.Abs(), inb.Stream(), inb.eos, rows, t.rows, st);
      Rejoin(m, next.Abs());
    }

    /** What the outer parser makes of the nested parser's answer. */
    method Settle(st: Status, back: Brigade)
      requires Valid() && status == MfdMixed && back !in Repr && !back.eos
      modifies this`status, this`pname, inb, back
      ensures Valid()
      ensures Settled(old(Abs()), Abs(), old(back.Stream()), back.Stream(), back.eos, st)
    {
      if st == Incomplete {
        GiveBack(back);
      } else {
        Leave(st);
      }
    }

    /** The nested parser wants more: what is left in ctx->in goes back to the caller. */
    method GiveBack(back: Brigade)
      requires Valid() && status == MfdMixed && back !in Repr && !back.eos
      modifies inb, back
      ensures Valid() && Abs() == old(Abs()).(inb := [], eos := false)
      ensures back.Stream() == old(back.Stream()) + old(inb.Stream()) && back.eos == old(inb.eos)
    {
      back.Concat(inb);
    }

    /** The nested parser is done: look for the outer boundary again, unless it has failed. */
    method Leave(st: Status)
      requires Valid() && status == MfdMixed
      modifies this`status, this`pname
      ensures Valid()
      ensures Abs() == if st == Success then old(Abs()).(status := MfdInit, pname := None, next := None)
                       else old(Abs()).(status := MfdError, next := None)
    {
      if st == Success {
        status := MfdInit;
        pname := None;
      } else {
        status := MfdError;
      }
    }

    /** MFD_MIXED */
    method DoMixed(t: Table<Param>, back: Brigade, ghost h: Hope) returns (done: bool, st: Status, ghost h': Hope)
      requires Valid() && status == MfdMixed && t !in Repr && back !in Repr && !back.eos
      requires Live(h, Abs(), t.rows) && (h.on ==> back.Stream() == [])
      modifies Repr, t, back
      decreases MAX_LEVEL - level, 1, 1
      ensures Valid() && fresh(Repr - old(Repr)) && old(Repr) <= Repr
      ensures Turned(h, h', old(Abs()), Abs(), old(t.rows), t.rows, old(back.Stream()), back.Stream(), back.eos, done, st)
    {
      ghost var m, rows, b := Abs(), t.rows, back.Stream();
      MixedStarts(h, m, rows);
      ghost var m1, ih;
      st, m1, ih := RunAndSettle(t, back, InnerHope(h, m, rows));
      done := st != Success;
      h' := if done then Rejoined(h, ih) else Advanced(h);
      MixedTurn(h, m, m1, ih, rows, t.rows, Abs(), b, back.Stream(), back.eos, st);
    }

    /** The nested parser runs, and its answer is settled. */
    method RunAndSettle(t: Table<Param>, back: Brigade, ghost ih: Hope)
      returns (st: Status, ghost m1: MState, ghost ih': Hope)
      requires Valid() && status == MfdMixed && t !in Repr && back !in Repr && !back.eos
      requires Started(ih, next.Abs(), t.rows, inb.Stream(), inb.eos)
      modifies Repr, t, back
      decreases MAX_LEVEL - level, 1, 0
      ensures Valid() && fresh(Repr - old(Repr)) && old(Repr) <= Repr
      ensures NestedRan(ih, ih', old(Abs()), m1, old(t.rows), t.rows, st)
      ensures Settled(m1, Abs(), old(back.Stream()), back.Stream(), back.eos, st)
    {
      st, ih' := RunNested(t, ih);
      m1 := Abs();
      Settle(st, back);
    }

    /** MFD_INIT and MFD_NEXTLINE */
    method DelimiterTurn(t: Table<Param>, back: Brigade, ghost h: Hope) returns (done: bool, st: Status)
      requires Valid() && t !in Repr && back !in Repr && !back.eos && (status == MfdInit || status == MfdNextline)
      requires Live(h, Abs(), t.rows) && (h.on ==> back.Stream() == [])
      modifies this`status, this`info, inb, bb, back
      ensures Valid()
      ensures Turned(h, h, old(Abs()), Abs(), t.rows, t.rows, old(back.Stream()), back.Stream(), back.eos, done, st)
    {
      ghost var m, b, n := Abs(), back.Stream(), 0;
      if status == MfdInit {
        done, st, n := DoInit(back);
        InitTurn(h, m, Abs(), n, b, back.Stream(), t.rows, done, st);
      } else {
        ghost var found;
        done, st, found, n := DoNextline(back);
        NextlineTurn(h, m, Abs(), found, n, b, back.Stream(), back.eos, t.rows, done, st);
      }
    }

    /** MFD_HEADER and MFD_POST_HEADER */
    method HeadersTurn(t: Table<Param>, ghost b: bytes, ghost h: Hope) returns (done: bool, st: Status, ghost h': Hope)
      requires Valid() && t !in Repr && (status == MfdHeader || status == MfdPostHeader)
      requires Live(h, Abs(), t.rows) && (h.on ==> b == [])
      modifies this, inb, hdr, hdr.bb
      ensures Valid() && fresh(Repr - old(Repr)) && old(Repr) <= Repr
      ensures Turned(h, h', old(Abs()), Abs(), t.rows, t.rows, b, b, false, done, st)
    {
      ghost var m := Abs();
      h' := h;
      if status == MfdHeader {
        done, st := DoHeader();
        HeaderTurn(h, m, Abs(), t.rows, b, done, st);
      } else {
        done, st := DoPostHeader();
        PostHeaderTurn(h, m, Abs(), t.rows, b, st);
        if !done { h' := Descended(h); }
      }
    }

    /** MFD_PARAM and MFD_UPLOAD */
    method LeafTurn(t: Table<Param>, ghost b: bytes, ghost h: Hope) returns (done: bool, st: Status, ghost h': Hope)
      requires Valid() && t !in Repr && (status == MfdParam || status == MfdUpload)
      requires Live(h, Abs(), t.rows) && (h.on ==> b == [])
      modifies this`status, this`pname, this`upload, inb`list, bb, t
      ensures Valid()
      ensures Turned(h, h', old(Abs()), Abs(), old(t.rows), t.rows, b, b, false, done, st)
    {
      ghost var m, rows, n := Abs(), t.rows, 0;
      if status == MfdParam {
        done, st, n := DoParam(t);
        ParamTurn(h, m, Abs(), n, rows, t.rows, b, done, st);
      } else {
        done, st, n := DoUpload(t);
        UploadTurn(h, m, Abs(), n, rows, t.rows, b, done, st);
      }
      h' := if done then h else Advanced(h);
    }

    /** The states of a part's body, and the others */
    method BodyTurn(t: Table<Param>, back: Brigade, ghost h: Hope) returns (done: bool, st: Status, ghost h': Hope)
      requires Valid() && t !in Repr && back !in Repr && !back.eos
      requires status == MfdParam || status == MfdUpload || status == MfdMixed || status == MfdComplete || status == MfdError
      requires Live(h, Abs(), t.rows) && (h.on ==> back.Stream() == [])
      modifies Repr, t, back
      decreases MAX_LEVEL - level, 1, 2
      ensures Valid() && fresh(Repr - old(Repr)) && old(Repr) <= Repr
      ensures Turned(h, h', old(Abs()), Abs(), old(t.rows), t.rows, old(back.Stream()), back.Stream(), back.eos, done, st)
    {
      if status == MfdParam || status == MfdUpload {
        done, st, h' := LeafTurn(t, back.Stream(), h);
      } else if status == MfdMixed {
        done, st, h' := DoMixed(t, back, h);
      } else {
        ErrorFollows(Abs(), Abs(), t.rows);
        done, st, h' := true, General, h;
      }
    }

    /** One pass through the switch. */
    method Turn(t: Table<Param>, back: Brigade, ghost h: Hope) returns (done: bool, st: Status, ghost h': Hope)
      requires Valid() && t !in Repr && back !in Repr && !back.eos
      requires Live(h, Abs(), t.rows) && (h.on ==> back.Stream() == [])
      modifies Repr, t, back
      decreases MAX_LEVEL - level, 2
      ensures Valid() && fresh(Repr - old(Repr)) && old(Repr) <= Repr
      ensures Turned(h, h', old(Abs()), Abs(), old(t.rows), t.rows, old(back.Stream()), back.Stream(), back.eos, done, st)
    {
      h' := h;
      if status == MfdInit || status == MfdNextline {
        done, st := DelimiterTurn(t, back, h);
      } else if status == MfdHeader || status == MfdPostHeader {
        done, st, h' := HeadersTurn(t, back.Stream(), h);
      } else {
        done, st, h' := BodyTurn(t, back, h);
      }
    }

    /** APR_BRIGADE_CONCAT(ctx->in, bb) */
    method Absorb(back: Brigade)
      requires Valid() && back !in Repr
      modifies inb, back
      ensures Valid() && back.Stream() == [] && !back.eos
      ensures Abs() == Fed(old(Abs()), old(back.Stream()), old(back.eos))
    {
      inb.Concat(back);
    }

    /** What a call brings joins what the parser holds. */
    method TakeIn(back: Brigade, ghost h: Hope, ghost rows: seq<Param>)
      requires Valid() && back !in Repr && Started(h, Abs(), rows, back.Stream(), back.eos)
      requires status != MfdComplete && status != MfdError
      modifies inb, back
      ensures Valid() && back.Stream() == [] && !back.eos && Live(h, Abs(), rows)
      ensures Abs() == Fed(old(Abs()), old(back.Stream()), old(back.eos))
      ensures Weight(Abs()) <= old(Weight(Abs()) + |back.Stream()|)
    {
      ghost var m, x, e := Abs(), back.Stream(), back.eos;
      Absorb(back);
      StartedIsLive(h, m, rows, x, e, Abs());
    }

    /** apreq_parse_multipart on a parser that has its context. */
    method Parse(t: Table<Param>, back: Brigade, ghost h: Hope) returns (st: Status, ghost h': Hope)
      requires Valid() && t !in Repr && back !in Repr
      requires Started(h, Abs(), t.rows, back.Stream(), back.eos)
      modifies Repr, t, back
      decreases MAX_LEVEL - level, 4
      ensures Valid() && fresh(Repr - old(Repr)) && old(Repr) <= Repr
      ensures SameHope(h, h') && old(t.rows) <= t.rows
      ensures Weight(Abs()) + |back.Stream()| <= old(Weight(Abs()) + |back.Stream()|)
      ensures Kept(h', Abs(), t.rows, back.Stream(), back.eos, st)
      ensures old(status) != MfdComplete ==>
                FollowsAll(Fed(old(Abs()), old(back.Stream()), old(back.eos)), Abs(), old(t.rows), t.rows, true, st)
    {
      if status == MfdError {
        ErrorFollows(Fed(Abs(), back.Stream(), back.eos), Abs(), t.rows);
        return General, h;
      } else if status == MfdComplete {
        return Success, h;
      }
      TakeIn(back, h, t.rows);
      st, h' := Loop(t, back, h);
    }

    /** mfd_parse_brigade: the switch, as long as it goes on. */
    method Loop(t: Table<Param>, back: Brigade, ghost h: Hope) returns (st: Status, ghost h': Hope)
      requires Valid() && t !in Repr && back !in Repr && !back.eos
      requires Live(h, Abs(), t.rows) && (h.on ==> back.Stream() == [])
      modifies Repr, t, back
      decreases MAX_LEVEL - level, 3
      ensures Valid() && fresh(Repr - old(Repr)) && old(Repr) <= Repr
      ensures SameHope(h, h') && old(t.rows) <= t.rows
      ensures Weight(Abs()) + |back.Stream()| <= old(Weight(Abs()) + |back.Stream()|)
      ensures Kept(h', Abs(), t.rows, back.Stream(), back.eos, st)
      ensures FollowsAll(old(Abs()), Abs(), old(t.rows), t.rows, true, st)
    {
      h', st := h, General;
      ghost var m0, rows0, w := Abs(), t.rows, Weight(Abs()) + |back.Stream()|;
      NothingYet(m0, t.rows);
      var done := false;
      while !done
        invariant Valid() && fresh(Repr - old(Repr)) && old(Repr) <= Repr && t !in Repr && back !in Repr
        invariant Underway(h, h', m0, Abs(), rows0, t.rows, w, back.Stream(), back.eos, done, st)
        decreases if done then 0 else 1, Weight(Abs()), Rank(status)
      {
        ghost var h1, m1, rows1, b := h', Abs(), t.rows, back.Stream();
        done, st, h' := Turn(t, back, h');
        UnderwayOn(h, h1, h', m0, m1, Abs(), rows0, rows1, t.rows, w, b, back.Stream(), back.eos, done, st);
      }
    }
  }
}
