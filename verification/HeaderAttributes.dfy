/** apreq_header_attribute (library/util.c): find name=value in a header string. */
module HeaderAttributes {
  import opened Bytes

  predicate EndsHeader(c: byte) { c == 0 || c == CR || c == LF }

  /** The value found, or why there is none. */
  datatype Attr = Attr(st: Status, val: bytes)

  datatype Scan = Scan(st: Status, start: nat, end: nat, stop: nat, token: bool, done: bool)

  const NoScan := Scan(BadChar, 0, 0, 0, false, true)

  // ------------------------------------------------------------ the scans

  /** look_for_end_name: the name without surrounding blanks, and where it stops. */
  function ScanName(h: bytes, start: nat, i: nat, tail: nat, token: bool): (r: Scan)
    requires start + tail <= i <= |h|
    ensures r.st == Success ==> start <= r.start <= r.end <= r.stop <= |h| && i <= r.stop
    ensures r.st == Success ==> (r.done <==> EndsHeader(At(h, r.stop)))
    decreases |h| - i
  {
    var c := At(h, i);
    if EndsHeader(c) then Scan(Success, start, i - tail, i, token, true)
    else if c == EQUALS || c == SEMI || c == COMMA then Scan(Success, start, i - tail, i, token, false)
    else if IsBlank(c) then
      if i == start then ScanName(h, start + 1, i + 1, tail, token) else ScanName(h, start, i + 1, tail + 1, token)
    else if IsCntrl(c) then NoScan
    else if tail > 0 then NoScan.(st := BadAttr)
    else ScanName(h, start, i + 1, 0, token && IsToken(c))
  }

  function SkipBlanks(h: bytes, i: nat): (r: nat)
    requires i <= |h|
    ensures i <= r <= |h|
    decreases |h| - i
  {
    if IsBlank(At(h, i)) then SkipBlanks(h, i + 1) else i
  }

  /** look_for_end_quote: the position of the closing quote. */
  function ScanQuote(h: bytes, i: nat): (r: Scan)
    requires i <= |h|
    ensures r.st == Success ==> i <= r.stop < |h|
    decreases |h| - i
  {
    var c := At(h, i);
    if EndsHeader(c) then NoScan.(st := BadSeq)
    else if c == QUOTE then Scan(Success, 0, 0, i, true, false)
    else if c == BACKSLASH then ScanQuote(h, if At(h, i + 1) != 0 then i + 2 else i + 1)
    else if IsCntrl(c) then NoScan
    else ScanQuote(h, i + 1)
  }

  /** look_for_after_quote: only blanks may stand before the next separator. */
  function ScanAfter(h: bytes, i: nat): (r: Scan)
    requires i <= |h|
    ensures r.st == Success ==> i <= r.stop <= |h| && (r.done <==> EndsHeader(At(h, r.stop)))
    decreases |h| - i
  {
    var c := At(h, i);
    if EndsHeader(c) then Scan(Success, 0, 0, i, true, true)
    else if c == SEMI || c == COMMA then Scan(Success, 0, 0, i, true, false)
    else if IsBlank(c) then ScanAfter(h, i + 1)
    else if IsCntrl(c) then NoScan
    else NoScan.(st := BadSeq)
  }

  /** look_for_end_value: the unquoted value without surrounding blanks. */
  function ScanValue(h: bytes, start: nat, i: nat, tail: nat): (r: Scan)
    requires start + tail <= i <= |h|
    ensures r.st == Success ==> start <= r.start <= r.end <= r.stop <= |h| && i <= r.stop
    ensures r.st == Success ==> (r.done <==> EndsHeader(At(h, r.stop)))
    decreases |h| - i
  {
    var c := At(h, i);
    if EndsHeader(c) then Scan(Success, start, i - tail, i, true, true)
    else if c == SEMI || c == COMMA then Scan(Success, start, i - tail, i, true, false)
    else if IsBlank(c) then
      if i == start then ScanValue(h, start + 1, i + 1, tail) else ScanValue(h, start, i + 1, tail + 1)
    else if IsCntrl(c) then NoScan
    else ScanValue(h, start, i + 1, 0)
  }

  datatype Piece = Piece(st: Status, val: bytes, stop: nat, done: bool)

  /** The value behind the '=' at position v. */
  function ReadValue(h: bytes, v: nat): (p: Piece)
    requires v <= |h|
    ensures p.st == Success ==> v <= p.stop <= |h| && (p.done <==> EndsHeader(At(h, p.stop)))
  {
    var i := SkipBlanks(h, v);
    if At(h, i) == QUOTE then
      var q := ScanQuote(h, i + 1);
      if q.st != Success then Piece(q.st, [], 0, true)
      else
        var a := ScanAfter(h, q.stop + 1);
        Piece(a.st, h[i + 1..q.stop], a.stop, a.done)
    else
      var s := ScanValue(h, i, i, 0);
      if s.st != Success then Piece(s.st, [], 0, true) else Piece(Success, h[s.start..s.end], s.stop, s.done)
  }

  /** One turn of the do loop, and the turns after it. */
  function AttributeFrom(h: bytes, hdr: nat, name: bytes): Attr
    requires hdr <= |h|
    decreases |h| - hdr
  {
    var n := ScanName(h, hdr, hdr, 0, true);
    if n.st != Success then Attr(n.st, [])
    else if At(h, n.stop) == EQUALS && n.start == n.end then Attr(BadAttr, [])
    else if At(h, n.stop) == EQUALS && !n.token then Attr(BadChar, [])
    else
      var p := if At(h, n.stop) == EQUALS then ReadValue(h, n.stop + 1) else Piece(Success, [], n.stop, n.done);
      if p.st != Success then Attr(p.st, [])
      else if SameNoCase(h[n.start..n.end], name) then Attr(Success, p.val)
      else if p.done then Attr(NoAttr, [])
      else AttributeFrom(h, p.stop + 1, name)
  }

  /** apreq_header_attribute */
  function Attribute(h: bytes, name: bytes): Attr {
    if name == [] then Attr(NoAttr, []) else AttributeFrom(h, 0, name)
  }

  // ------------------------------------------------------------ the loops

  method FindName(h: bytes, hdr: nat) returns (r: Scan)
    requires hdr <= |h|
    ensures r == ScanName(h, hdr, hdr, 0, true)
  {
    var start: nat, i: nat, tail: nat, token := hdr, hdr, 0, true;
    while true
      invariant start + tail <= i <= |h|
      invariant ScanName(h, start, i, tail, token) == ScanName(h, hdr, hdr, 0, true)
      decreases |h| - i
    {
      var c := At(h, i);
      if EndsHeader(c) || c == EQUALS || c == SEMI || c == COMMA {
        return Scan(Success, start, i - tail, i, token, EndsHeader(c));
      } else if IsBlank(c) {
        if i == start { start := start + 1; } else { tail := tail + 1; }
      } else if IsCntrl(c) {
        return NoScan;
      } else if tail > 0 {
        return NoScan.(st := BadAttr);
      } else {
        token := token && IsToken(c);
      }
      i := i + 1;
    }
  }

  method FindQuote(h: bytes, p: nat) returns (r: Scan)
    requires p <= |h|
    ensures r == ScanQuote(h, p)
  {
    var i := p;
    while true
      invariant 0 <= i <= |h| && ScanQuote(h, i) == ScanQuote(h, p)
      decreases |h| - i
    {
      var c := At(h, i);
      if EndsHeader(c) {
        return NoScan.(st := BadSeq);
      } else if c == QUOTE {
        return Scan(Success, 0, 0, i, true, false);
      } else if c == BACKSLASH {
        i := if At(h, i + 1) != 0 then i + 2 else i + 1;
      } else if IsCntrl(c) {
        return NoScan;
      } else {
        i := i + 1;
      }
    }
  }

  method FindAfter(h: bytes, p: nat) returns (r: Scan)
    requires p <= |h|
    ensures r == ScanAfter(h, p)
  {
    var i := p;
    while IsBlank(At(h, i))
      invariant 0 <= i <= |h| && ScanAfter(h, i) == ScanAfter(h, p)
      decreases |h| - i
    {
      i := i + 1;
    }
    var c := At(h, i);
    if EndsHeader(c) || c == SEMI || c == COMMA {
      return Scan(Success, 0, 0, i, true, EndsHeader(c));
    }
    return if IsCntrl(c) then NoScan else NoScan.(st := BadSeq);
  }

  method FindValue(h: bytes, p: nat) returns (r: Scan)
    requires p <= |h|
    ensures r == ScanValue(h, p, p, 0)
  {
    var start: nat, i: nat, tail: nat := p, p, 0;
    while true
      invariant start + tail <= i <= |h|
      invariant ScanValue(h, start, i, tail) == ScanValue(h, p, p, 0)
      decreases |h| - i
    {
      var c := At(h, i);
      if EndsHeader(c) || c == SEMI || c == COMMA {
        return Scan(Success, start, i - tail, i, true, EndsHeader(c));
      } else if IsBlank(c) {
        if i == start { start := start + 1; } else { tail := tail + 1; }
      } else if IsCntrl(c) {
        return NoScan;
      } else {
        tail := 0;
      }
      i := i + 1;
    }
  }

  method FetchValue(h: bytes, p: nat) returns (r: Piece)
    requires p <= |h|
    ensures r == ReadValue(h, p)
  {
    var v := p;
    while IsBlank(At(h, v))
      invariant 0 <= v <= |h| && SkipBlanks(h, v) == SkipBlanks(h, p)
      decreases |h| - v
    {
      v := v + 1;
    }
    if At(h, v) == QUOTE {
      var q := FindQuote(h, v + 1);
      if q.st != Success {
        return Piece(q.st, [], 0, true);
      }
      var a := FindAfter(h, q.stop + 1);
      return Piece(a.st, h[v + 1..q.stop], a.stop, a.done);
    }
    var s := FindValue(h, v);
    if s.st != Success {
      return Piece(s.st, [], 0, true);
    }
    return Piece(Success, h[s.start..s.end], s.stop, s.done);
  }

  /** apreq_header_attribute: the do loop over the attributes of hdr. */
  method HeaderAttribute(h: bytes, name: bytes) returns (r: Attr)
    ensures r == Attribute(h, name)
  {
    if name == [] {
      return Attr(NoAttr, []);
    }
    var hdr := 0;
    while true
      invariant 0 <= hdr <= |h| && AttributeFrom(h, hdr, name) == AttributeFrom(h, 0, name)
      decreases |h| - hdr
    {
      var n := FindName(h, hdr);
      if n.st != Success {
        return Attr(n.st, []);
      }
      var p := Piece(Success, [], n.stop, n.done);
      if At(h, n.stop) == EQUALS {
        if n.start == n.end {
          return Attr(BadAttr, []);
        } else if !n.token {
          return Attr(BadChar, []);
        }
        p := FetchValue(h, n.stop + 1);
        if p.st != Success {
          return Attr(p.st, []);
        }
      }
      if SameNoCase(h[n.start..n.end], name) {
        return Attr(Success, p.val);
      }
      if p.done {
        return Attr(NoAttr, []);
      }
      hdr := p.stop + 1;
    }
  }
}
