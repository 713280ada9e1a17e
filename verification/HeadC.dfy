/** The C head parsers, in both builds: with and without the 16-byte vector scan. */
module HeadC {
  import opened Bytes
  import opened HeadSpec
  import opened HeadSlots
  import opened HeadFfi

  // The vector scan.

  /** Byte ranges, low and high ends included. */
  type Ranges = seq<(byte, byte)>

  predicate InRanges(ranges: Ranges, b: byte) {
    exists k :: 0 <= k < |ranges| && ranges[k].0 <= b <= ranges[k].1
  }

  /** `_mm_cmpestri` on a block: the index of its first byte in some range, or its length. */
  function CmpEstri(ranges: Ranges, block: seq<byte>, i: nat): (r: nat)
    requires i <= |block|
    ensures i <= r <= |block|
    ensures forall j :: i <= j < r ==> !InRanges(ranges, block[j])
    ensures r < |block| ==> InRanges(ranges, block[r])
    decreases |block| - i
  {
    if i < |block| && !InRanges(ranges, block[i]) then CmpEstri(ranges, block, i + 1) else i
  }

  /** Skip whole 16-byte blocks up to the first byte in a range; without vectors, skip nothing. */
  method FindCharFast(buf: seq<byte>, pos: nat, ranges: Ranges, sse: bool) returns (p: nat, found: bool)
    requires pos <= |buf|
    ensures pos <= p <= |buf|
    ensures forall i :: pos <= i < p ==> !InRanges(ranges, buf[i])
    ensures found ==> p < |buf| && InRanges(ranges, buf[p])
  {
    p, found := pos, false;
    if sse && |buf| - p >= 16 {
      var left: nat := (|buf| - p) / 16 * 16;
      while left != 0
        invariant pos <= p && p + left <= |buf| && left % 16 == 0
        invariant forall i :: pos <= i < p ==> !InRanges(ranges, buf[i])
      {
        var block := buf[p..p + 16];
        var r := CmpEstri(ranges, block, 0);
        forall i | p <= i < p + r ensures !InRanges(ranges, buf[i]) {
          assert buf[i] == block[i - p];
        }
        if r != 16 {
          assert buf[p + r] == block[r];
          p := p + r;
          found := true;
          break;
        }
        p := p + 16;
        left := left - 16;
      }
    }
  }

  const TEXT_RANGES: Ranges := [(0x00, 0x08), (0x0A, 0x1F), (0x7F, 0x7F)]
  const TARGET_RANGES: Ranges := [(0x00, 0x20), (0x7F, 0x7F)]
  const TOKEN_RANGES: Ranges :=
    [(0x00, 0x20), (0x22, 0x22), (0x28, 0x29), (0x2C, 0x2C), (0x2F, 0x2F), (0x3A, 0x40), (0x5B, 0x5D), (0x7B, 0xFF)]

  /** The line scan's ranges hold exactly the bytes that end a line of text. */
  lemma TextRangesExact(b: byte)
    ensures InRanges(TEXT_RANGES, b) <==> !Accepts(Text, b)
  {
    if !Accepts(Text, b) {
      var k := if b <= 0x08 then 0 else if b <= 0x1F then 1 else 2;
      assert TEXT_RANGES[k].0 <= b <= TEXT_RANGES[k].1;
    }
  }

  /** A byte the target scan skips is one the plain scan accepts; in particular never its space. */
  lemma TargetRangesSound(b: byte)
    ensures !InRanges(TARGET_RANGES, b) ==> Accepts(Target, b)
  {
    if !Accepts(Target, b) {
      var k := if b <= 0x20 then 0 else 1;
      assert TARGET_RANGES[k].0 <= b <= TARGET_RANGES[k].1;
    }
  }

  /** A byte the token scan skips is a token byte, and neither delimiter. */
  lemma TokenRangesSound(b: byte, stop: byte)
    requires stop == SP || stop == COLON
    ensures !InRanges(TOKEN_RANGES, b) ==> Accepts(Token(stop), b)
  {
    if !Accepts(Token(stop), b) {
      var k := if b <= 0x20 then 0 else if b <= 0x22 then 1 else if b <= 0x29 then 2 else if b <= 0x2C then 3
               else if b <= 0x2F then 4 else if b <= 0x40 then 5 else if b <= 0x5D then 6 else 7;
      assert TOKEN_RANGES[k].0 <= b <= TOKEN_RANGES[k].1;
    }
  }

  // The token table, 32 entries a row; the upper half is zero.
  const ROW_20: seq<int> :=
    [0, 1, 0, 1, 1, 1, 1, 1, 0, 0, 1, 1, 0, 1, 1, 0, 1, 1, 1, 1, 1, 1, 1, 1, 1, 1, 0, 0, 0, 0, 0, 0]
  const ROW_40: seq<int> :=
    [0, 1, 1, 1, 1, 1, 1, 1, 1, 1, 1, 1, 1, 1, 1, 1, 1, 1, 1, 1, 1, 1, 1, 1, 1, 1, 1, 0, 0, 0, 1, 1]
  const ROW_60: seq<int> :=
    [1, 1, 1, 1, 1, 1, 1, 1, 1, 1, 1, 1, 1, 1, 1, 1, 1, 1, 1, 1, 1, 1, 1, 1, 1, 1, 1, 0, 1, 0, 1, 0]

  function TokenCharMap(b: byte): int {
    if b < 0x20 then 0
    else if b < 0x40 then ROW_20[b - 0x20]
    else if b < 0x60 then ROW_40[b - 0x40]
    else if b < 0x80 then ROW_60[b - 0x60]
    else 0
  }

  /** The table is RFC 7230 `tchar`. */
  lemma TokenCharMapExact(b: byte)
    ensures TokenCharMap(b) != 0 <==> IsTchar(b)
  {
  }

  // Scanners. A result is a position, or nothing with the return code to give.

  method ExpectChar(buf: seq<byte>, pos: nat, ch: byte) returns (p: Option<nat>, ret: int)
    requires pos <= |buf|
    ensures p.Some? <==> pos < |buf| && buf[pos] == ch
    ensures p.Some? ==> p.value == pos + 1
    ensures p.None? ==> ret == if pos == |buf| then -2 else -1
  {
    if pos == |buf| {
      return None, -2;
    }
    if buf[pos] != ch {
      return None, -1;
    }
    return Some(pos + 1), 0;
  }

  /** The pointer and code C gives for a scan. */
  ghost predicate Gives(p: Option<nat>, ret: int, r: Result<nat>) {
    match r
    case Ok(q) => p == Some(q)
    case Err(_) => p == None && ret == Code(r)
  }

  /** Up to eight bytes checked in a row; the position of the first that is not printable. */
  method UnrolledEight(buf: seq<byte>, pos: nat) returns (p: nat, clean: bool)
    requires pos + 8 <= |buf|
    ensures pos <= p <= pos + 8 && (clean <==> p == pos + 8)
    ensures forall i :: pos <= i < p ==> 0x20 <= buf[i] < 0x7F
    ensures !clean ==> !(0x20 <= buf[p] < 0x7F)
  {
    p := pos;
    while p < pos + 8
      invariant pos <= p <= pos + 8
      invariant forall i :: pos <= i < p ==> 0x20 <= buf[i] < 0x7F
    {
      if !(0x20 <= buf[p] < 0x7F) {
        return p, false;
      }
      p := p + 1;
    }
    return p, true;
  }

  /** The scan for the control byte that ends a line of text, in either build. `found` is
      the jump to `FOUND_CTL`; otherwise the input ran out. */
  method FindCtl(buf: seq<byte>, pos: nat, sse: bool) returns (p: nat, found: bool)
    requires pos <= |buf|
    ensures p == Skip(Text, buf, pos) && (found <==> p < |buf|)
  {
    p, found := pos, false;
    if sse {
      p, found := FindCharFast(buf, pos, TEXT_RANGES, sse);
      forall i | pos <= i < p ensures Accepts(Text, buf[i]) {
        TextRangesExact(buf[i]);
      }
      if found {
        TextRangesExact(buf[p]);
        SkipIs(Text, buf, pos, p);
        return;
      }
    } else {
      while |buf| - p >= 8
        invariant pos <= p <= |buf|
        invariant forall i :: pos <= i < p ==> Accepts(Text, buf[i])
      {
        var clean;
        p, clean := UnrolledEight(buf, p);
        if !clean {
          if (buf[p] < 0x20 && buf[p] != HT) || buf[p] == DEL {
            SkipIs(Text, buf, pos, p);
            return p, true;
          }
          p := p + 1;
        }
      }
    }
    while true
      invariant pos <= p <= |buf|
      invariant forall i :: pos <= i < p ==> Accepts(Text, buf[i])
      decreases |buf| - p
    {
      if p == |buf| {
        SkipIs(Text, buf, pos, p);
        return p, false;
      }
      if !(0x20 <= buf[p] < 0x7F) && ((buf[p] < 0x20 && buf[p] != HT) || buf[p] == DEL) {
        SkipIs(Text, buf, pos, p);
        return p, true;
      }
      p := p + 1;
    }
  }

  method GetTokenToEol(buf: seq<byte>, pos: nat, sse: bool) returns (p: Option<nat>, tokenLen: nat, ret: int)
    requires pos <= |buf|
    ensures match ScanEol(buf, pos)
            case Ok((e, q)) => p == Some(q) && tokenLen == e - pos
            case Err(err) => p == None && ret == Code(Err(err))
  {
    var e, found := FindCtl(buf, pos, sse);
    tokenLen := 0;
    if !found {
      return None, 0, -2;
    }
    if buf[e] == CR {
      p, ret := ExpectChar(buf, e + 1, LF);
      if p.Some? {
        tokenLen := p.value - 2 - pos;
      }
    } else if buf[e] == LF {
      p, tokenLen, ret := Some(e + 1), e - pos, 0;
    } else {
      p, ret := None, -1;
    }
  }

  /** C's `is_complete`, reduced to whether it returns null. */
  method IsComplete(buf: seq<byte>, lastLen: nat) returns (complete: bool, ret: int)
    requires lastLen <= |buf|
    ensures match Gate(buf, GateStart(lastLen), 0)
            case Ok(_) => complete
            case Err(err) => !complete && ret == Code(Err(err))
  {
    var p := if lastLen < 3 then 0 else lastLen - 3;
    var retCnt := 0;
    while true
      invariant p <= |buf| && 0 <= retCnt <= 1
      invariant Gate(buf, GateStart(lastLen), 0) == Gate(buf, p, retCnt)
      decreases |buf| - p
    {
      if p == |buf| {
        return false, -2;
      }
      if buf[p] == CR {
        p := p + 1;
        var q;
        q, ret := ExpectChar(buf, p, LF);
        if q.None? {
          return false, ret;
        }
        p := q.value;
        retCnt := retCnt + 1;
      } else if buf[p] == LF {
        p := p + 1;
        retCnt := retCnt + 1;
      } else {
        p := p + 1;
        retCnt := 0;
      }
      if retCnt == 2 {
        return true, 0;
      }
    }
  }

  method ParseToken(buf: seq<byte>, pos: nat, nextChar: byte, sse: bool) returns (p: Option<nat>, ret: int)
    requires pos <= |buf| && (nextChar == SP || nextChar == COLON)
    ensures Gives(p, ret, ScanToken(buf, pos, nextChar))
  {
    var q, found := FindCharFast(buf, pos, TOKEN_RANGES, sse);
    forall i | pos <= i < q ensures Accepts(Token(nextChar), buf[i]) {
      TokenRangesSound(buf[i], nextChar);
    }
    if !found && q == |buf| {
      SkipIs(Token(nextChar), buf, pos, q);
      return None, -2;
    }
    while true
      invariant pos <= q < |buf|
      invariant forall i :: pos <= i < q ==> Accepts(Token(nextChar), buf[i])
      decreases |buf| - q
    {
      TokenCharMapExact(buf[q]);
      if buf[q] == nextChar {
        break;
      } else if TokenCharMap(buf[q]) == 0 {
        SkipIs(Token(nextChar), buf, pos, q);
        return None, -1;
      }
      q := q + 1;
      if q == |buf| {
        SkipIs(Token(nextChar), buf, pos, q);
        return None, -2;
      }
    }
    SkipIs(Token(nextChar), buf, pos, q);
    return Some(q), 0;
  }

  /** `ADVANCE_TOKEN`. */
  method AdvanceToken(buf: seq<byte>, pos: nat, sse: bool) returns (p: Option<nat>, ret: int)
    requires pos <= |buf|
    ensures Gives(p, ret, ScanTarget(buf, pos))
  {
    var q, found := FindCharFast(buf, pos, TARGET_RANGES, sse);
    forall i | pos <= i < q ensures Accepts(Target, buf[i]) {
      TargetRangesSound(buf[i]);
    }
    if !found && q == |buf| {
      SkipIs(Target, buf, pos, q);
      return None, -2;
    }
    while true
      invariant pos <= q < |buf|
      invariant forall i :: pos <= i < q ==> Accepts(Target, buf[i])
      decreases |buf| - q
    {
      if buf[q] == SP {
        break;
      } else if !(0x20 <= buf[q] < 0x7F) {
        if buf[q] < 0x20 || buf[q] == DEL {
          SkipIs(Target, buf, pos, q);
          return None, -1;
        }
      }
      q := q + 1;
      if q == |buf| {
        SkipIs(Target, buf, pos, q);
        return None, -2;
      }
    }
    SkipIs(Target, buf, pos, q);
    return Some(q), 0;
  }

  /** Past the byte at `pos` and any spaces behind it. */
  method SkipSpaces(buf: seq<byte>, pos: nat) returns (p: Option<nat>, ret: int)
    requires pos < |buf|
    ensures Gives(p, ret, SkipTo(Spaces, buf, pos + 1))
  {
    var q := pos;
    while true
      invariant pos <= q < |buf|
      invariant forall i :: pos + 1 <= i <= q ==> Accepts(Spaces, buf[i])
      decreases |buf| - q
    {
      q := q + 1;
      if q == |buf| {
        SkipIs(Spaces, buf, pos + 1, q);
        return None, -2;
      }
      if buf[q] != SP {
        break;
      }
    }
    SkipIs(Spaces, buf, pos + 1, q);
    return Some(q), 0;
  }

  /** `minor` is the version written through the pointer, or nothing. */
  method ParseHttpVersion(buf: seq<byte>, pos: nat) returns (p: Option<nat>, minor: Option<nat>, ret: int)
    requires pos <= |buf|
    ensures match Version(buf, pos)
            case Ok((v, q)) => p == Some(q) && minor == Some(v)
            case Err(err) => p == None && minor == None && ret == Code(Err(err))
  {
    if |buf| - pos < 9 {
      return None, None, -2;
    }
    var i := 0;
    while i < 7
      invariant 0 <= i <= 7
      invariant forall j :: 0 <= j < i ==> buf[pos + j] == PREFIX[j]
    {
      if buf[pos + i] != PREFIX[i] {
        assert buf[pos..pos + 7][i] == buf[pos + i];
        return None, None, -1;
      }
      i := i + 1;
    }
    assert buf[pos..pos + 7] == PREFIX;
    if !IsDigit(buf[pos + 7]) {
      return None, None, -1;
    }
    return Some(pos + 8), Some(Digit(buf[pos + 7])), 0;
  }

  /** Drop trailing blanks: `value_end` walks back to the last other byte. */
  method TrimEnd(buf: seq<byte>, start: nat, end: nat) returns (e: nat)
    requires start <= end <= |buf|
    ensures e == RTrim(buf, start, end)
  {
    e := end;
    while e != start
      invariant start <= e <= end
      invariant forall i :: e <= i < end ==> IsBlank(buf[i])
    {
      var c := buf[e - 1];
      if !(c == SP || c == HT) {
        break;
      }
      e := e - 1;
    }
    RTrimIs(buf, start, end, e);
  }

  method SkipBlanks(buf: seq<byte>, pos: nat) returns (p: Option<nat>, ret: int)
    requires pos <= |buf|
    ensures Gives(p, ret, SkipTo(Blanks, buf, pos))
  {
    var q := pos;
    while true
      invariant pos <= q <= |buf|
      invariant forall i :: pos <= i < q ==> Accepts(Blanks, buf[i])
      decreases |buf| - q
    {
      if q == |buf| {
        SkipIs(Blanks, buf, pos, q);
        return None, -2;
      }
      if !(buf[q] == SP || buf[q] == HT) {
        SkipIs(Blanks, buf, pos, q);
        return Some(q), 0;
      }
      q := q + 1;
    }
  }

  /** `headers[n].name = name; headers[n].name_len = len`. */
  method StoreName(headers: array<PhrHeader>, n: nat, name: Ptr, len: nat)
    requires n < headers.Length && ((name == Null && len == 0) || name.At?)
    modifies headers
    ensures headers[..] ==
              ApplyWrite(old(headers[..]), Name(n, if name == Null then None else Some(Span(name.off, len))))
    ensures headers[n].nameLen == len
  {
    headers[n] := headers[n].(name := name, nameLen := len);
  }

  /** `headers[n].value = value; headers[n].value_len = len`. */
  method StoreValue(headers: array<PhrHeader>, n: nat, value: nat, len: nat)
    requires n < headers.Length
    modifies headers
    ensures headers[..] == ApplyWrite(old(headers[..]), Value(n, Span(value, len)))
  {
    headers[n] := headers[n].(value := At(value), valueLen := len);
  }

  /** The value half of the loop body of `parse_headers`. */
  method ParseValue(buf: seq<byte>, pos: nat, n: nat, headers: array<PhrHeader>, sse: bool, ghost name: Write,
                    ghost slots0: seq<PhrHeader>)
    returns (p: Option<nat>, ret: int)
    requires pos <= |buf| && n < headers.Length
    requires headers[..] == ApplyWrite(slots0, name)
    modifies headers
    ensures Gives(p, ret, ScanValue(buf, pos, n, name).res)
    ensures headers[..] == Apply(slots0, ScanValue(buf, pos, n, name).log)
  {
    ApplySingle(slots0, name);
    var len;
    p, len, ret := GetTokenToEol(buf, pos, sse);
    if p.None? {
      return;
    }
    var end := TrimEnd(buf, pos, pos + len);
    ApplyPair(slots0, name, Value(n, Span(pos, end - pos)));
    StoreValue(headers, n, pos, end - pos);
  }

  /** One header or continuation line of `parse_headers`, written to slot `n`. */
  method ParseLine(buf: seq<byte>, pos: nat, n: nat, headers: array<PhrHeader>, sse: bool)
    returns (p: Option<nat>, ret: int)
    requires pos < |buf| && n < headers.Length
    modifies headers
    ensures Gives(p, ret, HeaderLine(buf, pos, n).res)
    ensures headers[..] == Apply(old(headers[..]), HeaderLine(buf, pos, n).log)
  {
    hide Apply, ScanValue, ScanEol;
    ApplyNone(headers[..]);
    ghost var slots0 := headers[..];
    if !(n != 0 && (buf[pos] == SP || buf[pos] == HT)) {
      p, ret := ParseToken(buf, pos, COLON, sse);
      if p.None? {
        return;
      }
      var c := p.value;
      ghost var name := Name(n, Some(Span(pos, c - pos)));
      ApplySingle(slots0, name);
      StoreName(headers, n, At(pos), c - pos);
      if headers[n].nameLen == 0 {
        return None, -1;
      }
      p, ret := SkipBlanks(buf, c + 1);
      if p.None? {
        return;
      }
      p, ret := ParseValue(buf, p.value, n, headers, sse, name, slots0);
    } else {
      StoreName(headers, n, Null, 0);
      p, ret := ParseValue(buf, pos, n, headers, sse, Name(n, None), slots0);
    }
  }

  /** One round of the loop, with the increment of `*num_headers` behind it. */
  method ParseNext(buf: seq<byte>, pos: nat, numHeaders: Count, headers: array<PhrHeader>, max: nat, sse: bool,
                   ghost n: nat, ghost spec: LineRun, ghost log: seq<Write>, ghost slots0: seq<PhrHeader>)
    returns (stop: bool, p: Option<nat>, ret: int, ghost log': seq<Write>)
    requires numHeaders.n == n && max <= headers.Length && Parsing(spec, headers[..], slots0, buf, pos, n, max, log)
    modifies headers, numHeaders
    ensures numHeaders.n == if stop then n else n + 1
    ensures stop ==> Gives(p, ret, spec.res) && headers[..] == Apply(slots0, spec.log) && Completed(spec.log) == n
    ensures !stop ==> p.Some? && pos < p.value && Parsing(spec, headers[..], slots0, buf, p.value, n + 1, max, log')
  {
    hide Headers, HeaderLine, Apply;
    HeadersStop(buf, pos, n, max, log);
    stop, log' := true, log;
    if pos == |buf| {
      return true, None, -2, log;
    }
    if buf[pos] == CR {
      p, ret := ExpectChar(buf, pos + 1, LF);
      return;
    } else if buf[pos] == LF {
      return true, Some(pos + 1), 0, log;
    }
    if numHeaders.n == max {
      return true, None, -1, log;
    }
    ghost var line := HeaderLine(buf, pos, n);
    HeadersUnfold(buf, pos, n, max, log);
    p, ret := ParseLine(buf, pos, numHeaders.n, headers, sse);
    ApplyMore(slots0, log, line.log);
    log' := log + line.log;
    stop := p.None?;
    if p.Some? {
      numHeaders.n := numHeaders.n + 1;
    }
  }

  /** The loop of `parse_headers`. */
  method ParseLines(buf: seq<byte>, pos0: nat, headers: array<PhrHeader>, numHeaders: Count, max: nat, sse: bool,
                    ghost spec: LineRun, ghost log0: seq<Write>, ghost slots0: seq<PhrHeader>)
    returns (p: Option<nat>, ret: int)
    requires max <= headers.Length && Parsing(spec, headers[..], slots0, buf, pos0, numHeaders.n, max, log0)
    modifies headers, numHeaders
    ensures Gives(p, ret, spec.res) && numHeaders.n == Completed(spec.log) && headers[..] == Apply(slots0, spec.log)
  {
    var pos := pos0;
    ghost var log, n := log0, numHeaders.n;
    while true
      invariant numHeaders.n == n && Parsing(spec, headers[..], slots0, buf, pos, n, max, log)
      decreases |buf| - pos
    {
      var stop;
      stop, p, ret, log := ParseNext(buf, pos, numHeaders, headers, max, sse, n, spec, log, slots0);
      if stop {
        return;
      }
      pos, n := p.value, n + 1;
    }
  }

  method ParseHeaders(buf: seq<byte>, pos: nat, headers: array<PhrHeader>, numHeaders: Count, max: nat, sse: bool)
    returns (p: Option<nat>, ret: int)
    requires pos <= |buf| && numHeaders.n == 0 && max <= headers.Length
    modifies headers, numHeaders
    ensures var spec := Headers(buf, pos, 0, max, []);
            && Gives(p, ret, spec.res)
            && numHeaders.n == Completed(spec.log)
            && headers[..] == Apply(old(headers[..]), spec.log)
  {
    ghost var log := ParsingStarts(buf, pos, max, headers[..]);
    p, ret := ParseLines(buf, pos, headers, numHeaders, max, sse, Headers(buf, pos, 0, max, []), log, headers[..]);
  }

  // Request heads.

  method SkipLeadingLine(buf: seq<byte>) returns (p: Option<nat>, ret: int)
    ensures Gives(p, ret, SkipEmptyLine(buf))
  {
    if |buf| == 0 {
      return None, -2;
    }
    if buf[0] == CR {
      p, ret := ExpectChar(buf, 1, LF);
    } else if buf[0] == LF {
      return Some(1), 0;
    } else {
      return Some(0), 0;
    }
  }

  /** The version, the end of the request line, the headers. */
  method ParseVersionOn(buf: seq<byte>, pos: nat, out: RequestOut, headers: array<PhrHeader>, numHeaders: Count,
                        max: nat, sse: bool, ghost h: HeadRun)
    returns (p: Option<nat>, ret: int)
    requires pos <= |buf| && numHeaders.n == 0 && max <= headers.Length
    requires h.log == [] && h.version == None && out.Publishes(h)
    modifies out, headers, numHeaders
    ensures var run := RequestVersion(buf, pos, max, h);
            && Gives(p, ret, run.res)
            && out.Publishes(run)
            && numHeaders.n == Completed(run.log)
            && headers[..] == Apply(old(headers[..]), run.log)
  {
    ApplyNone(headers[..]);
    var minor;
    p, minor, ret := ParseHttpVersion(buf, pos);
    if p.None? {
      return;
    }
    out.minorVersion := minor.value;
    if buf[p.value] == CR {
      p, ret := ExpectChar(buf, p.value + 1, LF);
      if p.None? {
        return;
      }
    } else if buf[p.value] == LF {
      p := Some(p.value + 1);
    } else {
      return None, -1;
    }
    p, ret := ParseHeaders(buf, p.value, headers, numHeaders, max, sse);
  }

  /** The method and the spaces behind it. */
  method ReadMethod(buf: seq<byte>, pos: nat, out: RequestOut, sse: bool) returns (p: Option<nat>, ret: int)
    requires pos <= |buf| && IsPublished(out.method', out.methodLen, None)
    modifies out`method', out`methodLen
    ensures Gives(p, ret, Word(Token(SP), buf, pos).1)
    ensures IsPublished(out.method', out.methodLen, Word(Token(SP), buf, pos).0)
  {
    p, ret := ParseToken(buf, pos, SP, sse);
    if p.None? {
      return;
    }
    out.method', out.methodLen := At(pos), p.value - pos;
    p, ret := SkipSpaces(buf, p.value);
  }

  /** The request target and the spaces behind it. */
  method ReadPath(buf: seq<byte>, pos: nat, out: RequestOut, sse: bool) returns (p: Option<nat>, ret: int)
    requires pos <= |buf| && IsPublished(out.path, out.pathLen, None)
    modifies out`path, out`pathLen
    ensures Gives(p, ret, Word(Target, buf, pos).1) && IsPublished(out.path, out.pathLen, Word(Target, buf, pos).0)
  {
    p, ret := AdvanceToken(buf, pos, sse);
    if p.None? {
      return;
    }
    out.path, out.pathLen := At(pos), p.value - pos;
    p, ret := SkipSpaces(buf, p.value);
  }

  /** From the request target on. */
  method ParseTargetOn(buf: seq<byte>, pos: nat, out: RequestOut, headers: array<PhrHeader>, numHeaders: Count,
                       max: nat, sse: bool, ghost h: HeadRun)
    returns (p: Option<nat>, ret: int)
    requires pos <= |buf| && numHeaders.n == 0 && max <= headers.Length
    requires h.log == [] && h.method'.Some? && h.path == None && h.version == None && out.Publishes(h)
    modifies out, headers, numHeaders
    ensures var run := RequestTarget(buf, pos, max, h);
            && Gives(p, ret, run.res)
            && out.Publishes(run)
            && numHeaders.n == Completed(run.log)
            && headers[..] == Apply(old(headers[..]), run.log)
  {
    ApplyNone(headers[..]);
    p, ret := ReadPath(buf, pos, out, sse);
    if p.None? {
      return;
    }
    if out.methodLen == 0 || out.pathLen == 0 {
      return None, -1;
    }
    p, ret := ParseVersionOn(buf, p.value, out, headers, numHeaders, max, sse, h.(path := Word(Target, buf, pos).0));
  }

  method ParseRequest(buf: seq<byte>, out: RequestOut, headers: array<PhrHeader>, numHeaders: Count, max: nat,
                      sse: bool)
    returns (p: Option<nat>, ret: int)
    requires numHeaders.n == 0 && max <= headers.Length && out.Publishes(NOTHING)
    modifies out, headers, numHeaders
    ensures var run := HeadSpec.ParseRequest(buf, max);
            && Gives(p, ret, run.res)
            && out.Publishes(run)
            && numHeaders.n == Completed(run.log)
            && headers[..] == Apply(old(headers[..]), run.log)
  {
    ApplyNone(headers[..]);
    p, ret := SkipLeadingLine(buf);
    if p.None? {
      return;
    }
    ghost var word := Word(Token(SP), buf, p.value);
    p, ret := ReadMethod(buf, p.value, out, sse);
    if p.None? {
      return;
    }
    p, ret := ParseTargetOn(buf, p.value, out, headers, numHeaders, max, sse, NOTHING.(method' := word.0));
  }

  /** `phr_parse_request` of the C library. */
  method PhrParseRequest(buf: seq<byte>, out: RequestOut, headers: array<PhrHeader>, numHeaders: Count, lastLen: nat,
                         sse: bool)
    returns (ret: int)
    requires numHeaders.n <= headers.Length && lastLen <= |buf|
    modifies out, headers, numHeaders
    ensures var h := Gated(Request, buf, old(numHeaders.n), lastLen);
            && ret == Code(h.res)
            && out.Publishes(h)
            && numHeaders.n == Completed(h.log)
            && headers[..] == Apply(old(headers[..]), h.log)
  {
    var max := numHeaders.n;
    out.method', out.methodLen, out.path, out.pathLen, out.minorVersion := Null, 0, Null, 0, -1;
    numHeaders.n := 0;
    ApplyNone(headers[..]);
    if lastLen != 0 {
      var complete;
      complete, ret := IsComplete(buf, lastLen);
      if !complete {
        return;
      }
    }
    var p;
    p, ret := ParseRequest(buf, out, headers, numHeaders, max, sse);
    if p.Some? {
      ret := p.value;
    }
  }

  // Response heads.

  /** The space behind the version and any further ones. */
  method SkipVersionSpaces(buf: seq<byte>, pos: nat) returns (p: Option<nat>, ret: int)
    requires pos < |buf|
    ensures Gives(p, ret, if buf[pos] != SP then Err(Malformed) else SkipTo(Spaces, buf, pos + 1))
  {
    if buf[pos] != SP {
      return None, -1;
    }
    p, ret := SkipSpaces(buf, pos);
  }

  /** `PARSE_INT_3`: the status is written after each digit. */
  method ParseInt3(buf: seq<byte>, pos: nat, out: ResponseOut) returns (p: Option<nat>, ret: int)
    requires pos <= |buf| && out.status == 0
    modifies out`status
    ensures Gives(p, ret, Status(buf, pos).0)
    ensures out.status == match Status(buf, pos).1 case None => 0 case Some(v) => v
  {
    if |buf| - pos < 4 {
      return None, -2;
    }
    if !IsDigit(buf[pos]) {
      return None, -1;
    }
    var res := 100 * Digit(buf[pos]);
    out.status := res;
    if !IsDigit(buf[pos + 1]) {
      return None, -1;
    }
    res := 10 * Digit(buf[pos + 1]);
    out.status := out.status + res;
    if !IsDigit(buf[pos + 2]) {
      return None, -1;
    }
    res := Digit(buf[pos + 2]);
    out.status := out.status + res;
    return Some(pos + 3), 0;
  }

  /** The reason phrase. The loop over its leading spaces has no bound of its own: it stops
      at the line break at the latest, before the length can pass zero. */
  method ReadReason(buf: seq<byte>, pos: nat, out: ResponseOut, sse: bool) returns (p: Option<nat>, ret: int)
    requires pos <= |buf| && IsPublished(out.reason, out.reasonLen, None)
    modifies out`reason, out`reasonLen
    ensures Gives(p, ret, Reason(buf, pos).1) && IsPublished(out.reason, out.reasonLen, Reason(buf, pos).0)
  {
    var len;
    p, len, ret := GetTokenToEol(buf, pos, sse);
    if p.None? {
      return;
    }
    out.reason, out.reasonLen := At(pos), len;
    if len == 0 {
      return;
    }
    if buf[pos] != SP {
      return None, -1;
    }
    SpacesEndInLine(buf, pos, pos + len);
    var s := pos;
    while true
      invariant pos <= s < pos + len && out.reason == At(s) && out.reasonLen == pos + len - s
      invariant forall i :: pos <= i <= s ==> Accepts(Spaces, buf[i])
      decreases |buf| - s
    {
      s := s + 1;
      out.reason := At(s);
      out.reasonLen := out.reasonLen - 1;
      if buf[s] != SP {
        break;
      }
    }
    SkipIs(Spaces, buf, pos, s);
  }

  /** From the reason phrase on. */
  method ParseReasonOn(buf: seq<byte>, pos: nat, out: ResponseOut, headers: array<PhrHeader>, numHeaders: Count,
                       max: nat, sse: bool, ghost h: HeadRun)
    returns (p: Option<nat>, ret: int)
    requires pos <= |buf| && numHeaders.n == 0 && max <= headers.Length
    requires h.log == [] && h.reason == None && out.Publishes(h)
    modifies out, headers, numHeaders
    ensures var run := ResponseReason(buf, pos, max, h);
            && Gives(p, ret, run.res)
            && out.Publishes(run)
            && numHeaders.n == Completed(run.log)
            && headers[..] == Apply(old(headers[..]), run.log)
  {
    ApplyNone(headers[..]);
    p, ret := ReadReason(buf, pos, out, sse);
    if p.None? {
      return;
    }
    p, ret := ParseHeaders(buf, p.value, headers, numHeaders, max, sse);
  }

  method ParseResponse(buf: seq<byte>, out: ResponseOut, headers: array<PhrHeader>, numHeaders: Count, max: nat,
                       sse: bool)
    returns (p: Option<nat>, ret: int)
    requires numHeaders.n == 0 && max <= headers.Length && out.Publishes(NOTHING)
    modifies out, headers, numHeaders
    ensures var run := HeadSpec.ParseResponse(buf, max);
            && Gives(p, ret, run.res)
            && out.Publishes(run)
            && numHeaders.n == Completed(run.log)
            && headers[..] == Apply(old(headers[..]), run.log)
  {
    ApplyNone(headers[..]);
    var minor;
    p, minor, ret := ParseHttpVersion(buf, 0);
    if p.None? {
      return;
    }
    out.minorVersion := minor.value;
    p, ret := SkipVersionSpaces(buf, p.value);
    if p.None? {
      return;
    }
    ghost var status := Status(buf, p.value).1;
    p, ret := ParseInt3(buf, p.value, out);
    if p.None? {
      return;
    }
    p, ret := ParseReasonOn(buf, p.value, out, headers, numHeaders, max, sse,
                            NOTHING.(version := minor, status := status));
  }

  /** `phr_parse_response` of the C library. */
  method PhrParseResponse(buf: seq<byte>, out: ResponseOut, headers: array<PhrHeader>, numHeaders: Count, lastLen: nat,
                          sse: bool)
    returns (ret: int)
    requires numHeaders.n <= headers.Length && lastLen <= |buf|
    modifies out, headers, numHeaders
    ensures var h := Gated(Response, buf, old(numHeaders.n), lastLen);
            && ret == Code(h.res)
            && out.Publishes(h)
            && numHeaders.n == Completed(h.log)
            && headers[..] == Apply(old(headers[..]), h.log)
  {
    var max := numHeaders.n;
    out.minorVersion, out.status, out.reason, out.reasonLen := -1, 0, Null, 0;
    numHeaders.n := 0;
    ApplyNone(headers[..]);
    if lastLen != 0 {
      var complete;
      complete, ret := IsComplete(buf, lastLen);
      if !complete {
        return;
      }
    }
    var p;
    p, ret := ParseResponse(buf, out, headers, numHeaders, max, sse);
    if p.Some? {
      ret := p.value;
    }
  }

  /** `phr_parse_headers` of the C library. */
  method PhrParseHeaders(buf: seq<byte>, headers: array<PhrHeader>, numHeaders: Count, lastLen: nat, sse: bool)
    returns (ret: int)
    requires numHeaders.n <= headers.Length && lastLen <= |buf|
    modifies headers, numHeaders
    ensures var h := Gated(Block, buf, old(numHeaders.n), lastLen);
            && ret == Code(h.res)
            && numHeaders.n == Completed(h.log)
            && headers[..] == Apply(old(headers[..]), h.log)
  {
    var max := numHeaders.n;
    numHeaders.n := 0;
    ApplyNone(headers[..]);
    if lastLen != 0 {
      var complete;
      complete, ret := IsComplete(buf, lastLen);
      if !complete {
        return;
      }
    }
    var p;
    p, ret := ParseHeaders(buf, 0, headers, numHeaders, max, sse);
    if p.Some? {
      ret := p.value;
    }
  }
}
