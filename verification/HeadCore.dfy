/** The scanners and the header-block parser shared by the heads. */
module HeadCore {
  import opened Bytes
  import opened HeadSpec
  import opened HeadSlots
  import HeadProtocol
  import Swar

  /** The token table, built by sweeping all 256 byte values. */
  method BuildTokenTable() returns (t: array<byte>)
    ensures t.Length == 256 && fresh(t)
    ensures forall b: byte :: t[b] != 0 <==> IsTchar(b)
  {
    t := new byte[256](_ => 0);
    var b := 0;
    while b < 256
      invariant 0 <= b <= 256
      invariant forall i: byte :: i < b ==> (t[i] != 0 <==> IsTchar(i))
    {
      t[b] := if b in {0x21, 0x23, 0x24, 0x25, 0x26, 0x27, 0x2A, 0x2B, 0x2D, 0x2E, 0x5E, 0x5F, 0x60, 0x7C, 0x7E}
                 || 0x30 <= b <= 0x39 || 0x41 <= b <= 0x5A || 0x61 <= b <= 0x7A then 1 else 0;
      b := b + 1;
    }
  }

  function WrappingSub(b: byte, c: byte): byte {
    if b >= c then b - c else b - c + 0x100
  }

  predicate IsPrintableAscii(b: byte) {
    WrappingSub(b, 0x20) < 0x5F
  }

  method ExpectByte(buf: seq<byte>, pos: nat, ch: byte) returns (r: Result<nat>)
    requires pos <= |buf|
    ensures r == if pos == |buf| then Err(Partial) else if buf[pos] == ch then Ok(pos + 1) else Err(Malformed)
  {
    if pos == |buf| {
      return Err(Partial);
    }
    r := if buf[pos] == ch then Ok(pos + 1) else Err(Malformed);
  }

  /** The slow-sender gate. */
  method IsComplete(buf: seq<byte>, lastLen: nat) returns (r: Result<()>)
    ensures r == Gate(buf, GateStart(lastLen), 0)
  {
    var pos := if lastLen < 3 then 0 else lastLen - 3;
    var retCnt := 0;
    while true
      invariant 0 <= retCnt <= 1
      invariant Gate(buf, GateStart(lastLen), 0) == Gate(buf, pos, retCnt)
      decreases |buf| - pos
    {
      if pos >= |buf| {
        return Err(Partial);
      }
      var b := buf[pos];
      if b == CR {
        pos := pos + 1;
        if pos == |buf| {
          return Err(Partial);
        }
        if buf[pos] != LF {
          return Err(Malformed);
        }
        pos := pos + 1;
        retCnt := retCnt + 1;
      } else if b == LF {
        pos := pos + 1;
        retCnt := retCnt + 1;
      } else {
        pos := pos + 1;
        retCnt := 0;
      }
      if retCnt == 2 {
        return Ok(());
      }
    }
  }

  method ParseToken(buf: seq<byte>, pos: nat, nextChar: byte) returns (r: Result<nat>)
    requires pos <= |buf|
    ensures r == ScanToken(buf, pos, nextChar)
  {
    var p := pos;
    while true
      invariant pos <= p <= |buf|
      invariant forall i :: pos <= i < p ==> Accepts(Token(nextChar), buf[i])
      decreases |buf| - p
    {
      if p == |buf| {
        SkipIs(Token(nextChar), buf, pos, p);
        return Err(Partial);
      }
      if buf[p] == nextChar {
        break;
      }
      if !IsTchar(buf[p]) {
        SkipIs(Token(nextChar), buf, pos, p);
        return Err(Malformed);
      }
      p := p + 1;
    }
    SkipIs(Token(nextChar), buf, pos, p);
    return Ok(p);
  }

  method CleanWord(buf: seq<byte>, p: nat) returns (clean: bool)
    requires p + 8 <= |buf|
    ensures clean <==> forall i :: p <= i < p + 8 ==> 0x20 <= buf[i] <= 0x7E
  {
    var a := buf[p..p + 8];
    clean := Swar.AllPrintable(a);
    forall i | p <= i < p + 8 ensures buf[i] == a[i - p] {
    }
    forall i | 0 <= i < 8 ensures a[i] == buf[p + i] {
    }
  }

  /** Sixteen, then eight bytes at a time while a word test proves them printable. */
  method PrescanPrintable(buf: seq<byte>, pos: nat) returns (p: nat)
    requires pos <= |buf|
    ensures pos <= p <= |buf|
    ensures forall i :: pos <= i < p ==> Accepts(Text, buf[i])
  {
    p := pos;
    while p + 16 <= |buf|
      invariant pos <= p <= |buf|
      invariant forall i :: pos <= i < p ==> 0x20 <= buf[i] <= 0x7E
    {
      var clean := CleanWord(buf, p);
      if !clean {
        break;
      }
      clean := CleanWord(buf, p + 8);
      if !clean {
        p := p + 8;
        break;
      }
      p := p + 16;
    }
    while p + 8 <= |buf|
      invariant pos <= p <= |buf|
      invariant forall i :: pos <= i < p ==> 0x20 <= buf[i] <= 0x7E
    {
      var clean := CleanWord(buf, p);
      if !clean {
        break;
      }
      p := p + 8;
    }
  }

  /** The accelerated line scan: exactly the plain one. */
  method GetTokenToEol(buf: seq<byte>, pos: nat) returns (r: Result<(nat, nat)>)
    requires pos <= |buf|
    ensures r == ScanEol(buf, pos)
  {
    var p := PrescanPrintable(buf, pos);
    while true
      invariant pos <= p <= |buf|
      invariant forall i :: pos <= i < p ==> Accepts(Text, buf[i])
      decreases |buf| - p
    {
      if p == |buf| {
        SkipIs(Text, buf, pos, p);
        return Err(Partial);
      }
      var b := buf[p];
      if !IsPrintableAscii(b) && ((b < 0x20 && b != HT) || b == DEL) {
        SkipIs(Text, buf, pos, p);
        if b == CR {
          if p + 1 == |buf| {
            return Err(Partial);
          }
          if buf[p + 1] == LF {
            return Ok((p, p + 2));
          }
          return Err(Malformed);
        } else if b == LF {
          return Ok((p, p + 1));
        } else {
          return Err(Malformed);
        }
      }
      p := p + 1;
    }
  }

  function ParseHttpVersion(buf: seq<byte>, pos: nat): (r: Result<(nat, nat)>)
    requires pos <= |buf|
    ensures r == Version(buf, pos)
  {
    if |buf| - pos < 9 then Err(Partial)
    else
      var w := buf[pos..pos + 9];
      assert w[..7] == buf[pos..pos + 7];
      if w[..7] != PREFIX || !IsDigit(w[7]) then Err(Malformed)
      else Ok((Digit(w[7]), pos + 8))
  }

  method Rtrim(buf: seq<byte>, start: nat, len: nat) returns (r: nat)
    requires start + len <= |buf|
    ensures r == RTrim(buf, start, start + len) - start
  {
    var end := start + len;
    while end > start && (buf[end - 1] == SP || buf[end - 1] == HT)
      invariant start <= end <= start + len
      invariant forall i :: end <= i < start + len ==> IsBlank(buf[i])
    {
      end := end - 1;
    }
    RTrimIs(buf, start, start + len, end);
    r := end - start;
  }

  method SkipBlanks(buf: seq<byte>, pos0: nat) returns (r: Result<nat>)
    requires pos0 <= |buf|
    ensures r == SkipTo(Blanks, buf, pos0)
  {
    var pos := pos0;
    while true
      invariant pos0 <= pos <= |buf|
      invariant forall i :: pos0 <= i < pos ==> Accepts(Blanks, buf[i])
      decreases |buf| - pos
    {
      if pos == |buf| {
        SkipIs(Blanks, buf, pos0, pos);
        return Err(Partial);
      }
      if buf[pos] != SP && buf[pos] != HT {
        SkipIs(Blanks, buf, pos0, pos);
        return Ok(pos);
      }
      pos := pos + 1;
    }
  }

  /** The value half of a header line, behind the name that has just been written. */
  method ParseValue(buf: seq<byte>, pos: nat, n: nat, sink: RawSink, ghost name: Write, ghost slots0: seq<PhrHeader>,
                    ghost trace0: seq<Write>)
    returns (r: Result<nat>)
    requires pos <= |buf| && sink.Valid() && n < sink.cap
    requires sink.slots[..] == ApplyWrite(slots0, name) && sink.trace == trace0 + [name]
    modifies sink.slots, sink`trace
    ensures r == ScanValue(buf, pos, n, name).res
    ensures sink.slots[..] == Apply(slots0, ScanValue(buf, pos, n, name).log)
    ensures sink.trace == trace0 + ScanValue(buf, pos, n, name).log
  {
    hide Apply, ScanEol;
    ApplySingle(slots0, name);
    var eol := GetTokenToEol(buf, pos);
    match eol {
      case Err(err) =>
        return Err(err);
      case Ok((e, p)) =>
        var vl := Rtrim(buf, pos, e - pos);
        ApplyPair(slots0, name, Value(n, Span(pos, vl)));
        sink.SetValue(n, Span(pos, vl));
        assert trace0 + [name] + [Value(n, Span(pos, vl))] == trace0 + [name, Value(n, Span(pos, vl))];
        return Ok(p);
    }
  }

  /** One header line, or one continuation line. */
  method ParseLine(buf: seq<byte>, pos0: nat, n: nat, sink: RawSink) returns (r: Result<nat>)
    requires pos0 < |buf| && sink.Valid() && n < sink.cap
    modifies sink.slots, sink`trace
    ensures r == HeaderLine(buf, pos0, n).res
    ensures sink.slots[..] == Apply(old(sink.slots[..]), HeaderLine(buf, pos0, n).log)
    ensures sink.trace == old(sink.trace) + HeaderLine(buf, pos0, n).log
  {
    hide Apply, ScanValue, ScanEol;
    ApplyNone(sink.slots[..]);
    var b := buf[pos0];
    ghost var slots0, trace0 := sink.slots[..], sink.trace;
    if n != 0 && (b == SP || b == HT) {
      sink.SetName(n, None);
      r := ParseValue(buf, pos0, n, sink, Name(n, None), slots0, trace0);
    } else {
      var token := ParseToken(buf, pos0, COLON);
      if token.Err? {
        return Err(token.error);
      }
      var c := token.value;
      var name := Name(n, Some(Span(pos0, c - pos0)));
      ApplySingle(slots0, name);
      sink.SetName(n, Some(Span(pos0, c - pos0)));
      if c == pos0 {
        return Err(Malformed);
      }
      var start := SkipBlanks(buf, c + 1);
      if start.Err? {
        return Err(start.error);
      }
      r := ParseValue(buf, start.value, n, sink, name, slots0, trace0);
    }
  }

  /** What has been established when the block is left. */
  ghost predicate Parsed(spec: LineRun, slots: seq<PhrHeader>, slots0: seq<PhrHeader>, r: Result<nat>, n: nat) {
    spec.res == r && slots == Apply(slots0, spec.log) && Completed(spec.log) == n
  }

  /** One round of the loop: the blank line, the capacity, or another header. */
  method ParseNext(buf: seq<byte>, pos: nat, n: nat, sink: RawSink, ghost spec: LineRun, ghost log: seq<Write>,
                   ghost slots0: seq<PhrHeader>, ghost trace0: seq<Write>)
    returns (stop: bool, r: Result<nat>, ghost log': seq<Write>)
    requires sink.Valid() && Parsing(spec, sink.slots[..], slots0, buf, pos, n, sink.cap, log)
    requires sink.trace == trace0 + log
    modifies sink.slots, sink`trace
    ensures stop ==> Parsed(spec, sink.slots[..], slots0, r, n) && sink.trace == trace0 + spec.log
    ensures !stop ==>
              && r.Ok? && pos < r.value && sink.trace == trace0 + log'
              && Parsing(spec, sink.slots[..], slots0, buf, r.value, n + 1, sink.cap, log')
  {
    hide Headers, HeaderLine, Apply;
    HeadersStop(buf, pos, n, sink.cap, log);
    stop, log' := true, log;
    if pos == |buf| {
      return true, Err(Partial), log;
    }
    var b := buf[pos];
    if b == CR {
      r := ExpectByte(buf, pos + 1, LF);
      return;
    } else if b == LF {
      return true, Ok(pos + 1), log;
    }
    if n == sink.cap {
      return true, Err(Malformed), log;
    }
    ghost var line := HeaderLine(buf, pos, n);
    HeadersUnfold(buf, pos, n, sink.cap, log);
    r := ParseLine(buf, pos, n, sink);
    ApplyMore(slots0, log, line.log);
    assert trace0 + log + line.log == trace0 + (log + line.log);
    log' := log + line.log;
    stop := r.Err?;
  }

  /** The header block. `count` is overwritten as headers complete, and keeps the completed
      prefix when the block fails. */
  method ParseHeaders(buf: seq<byte>, pos0: nat, sink: RawSink, count0: nat) returns (r: Result<nat>, count: nat)
    requires pos0 <= |buf| && sink.Valid()
    modifies sink.slots, sink`trace
    ensures var spec := Headers(buf, pos0, 0, sink.cap, []);
            && r == spec.res
            && count == (if Completed(spec.log) == 0 then count0 else Completed(spec.log))
            && sink.slots[..] == Apply(old(sink.slots[..]), spec.log)
            && sink.trace == old(sink.trace) + spec.log
    ensures old(sink.trace) == [] ==> HeadProtocol.Follows(buf, sink.trace, 0, sink.cap, 0)
  {
    hide Headers, HeadProtocol.Follows, Apply;
    var pos, n := pos0, 0;
    count := count0;
    ghost var slots0, trace0, spec := sink.slots[..], sink.trace, Headers(buf, pos0, 0, sink.cap, []);
    ghost var log := ParsingStarts(buf, pos0, sink.cap, slots0);
    while true
      invariant Parsing(spec, sink.slots[..], slots0, buf, pos, n, sink.cap, log)
      invariant sink.trace == trace0 + log
      invariant count == (if n == 0 then count0 else n)
      decreases |buf| - pos
    {
      var stop;
      stop, r, log := ParseNext(buf, pos, n, sink, spec, log, slots0, trace0);
      if stop {
        HeadProtocol.HeadersFollow(buf, pos0, sink.cap, trace0);
        return;
      }
      pos := r.value;
      n := n + 1;
      count := n;
    }
  }
}
