/** The chunked decoder as a fold of one transition per byte. */
module ChunkedSpec {
  import opened Bytes
  import opened ByteMachine

  // The values of the decoder's `_state` field.
  const ST_SIZE := 0
  const ST_EXT := 1
  const ST_EXPECT_LF := 2
  const ST_DATA := 3
  const ST_DATA_CR := 4
  const ST_DATA_LF := 5
  const ST_TRAIL_HEAD := 6
  const ST_TRAIL_MID := 7
  type State = s: int | 0 <= s <= 7

  const MAX_HEX := 16
  const OVERHEAD_FLOOR := 100 * 1024

  /** The part of the decoder record that steers parsing. */
  datatype Core = Core(st: State, left: u64, hex: nat)

  const START: Core := Core(ST_SIZE, 0, 0)

  function HexVal(b: byte): (v: Option<nat>)
    ensures v.Some? ==> v.value < 16
  {
    if 0x30 <= b <= 0x39 then Some(b - 0x30)
    else if 0x41 <= b <= 0x46 then Some(b - 0x41 + 10)
    else if 0x61 <= b <= 0x66 then Some(b - 0x61 + 10)
    else None
  }

  /** The bytes that may follow the digits of a chunk size. */
  predicate SizeTerminator(b: byte) {
    b == SP || b == HT || b == SEMICOLON || b == LF || b == CR
  }

  function StepExt(q: Core, b: byte): StepResult<Core> {
    if b == CR then Go(q.(st := ST_EXPECT_LF), false)
    else if b == LF then Fail(q)
    else Go(q, false)
  }

  function Step(q: Core, b: byte, trailer: bool): StepResult<Core> {
    if q.st == ST_SIZE then
      match HexVal(b)
      case Some(v) =>
        if q.hex == MAX_HEX then Fail(q)
        else Go(Core(ST_SIZE, Wrap(Wrap(q.left * 16) + v), q.hex + 1), false)
      case None =>
        if q.hex == 0 || !SizeTerminator(b) then Fail(q)
        else StepExt(Core(ST_EXT, q.left, 0), b)
    else if q.st == ST_EXT then
      StepExt(q, b)
    else if q.st == ST_EXPECT_LF then
      if b != LF then Fail(q)
      else if q.left != 0 then Go(q.(st := ST_DATA), false)
      else if trailer then Go(q.(st := ST_TRAIL_HEAD), false)
      else Done(q)
    else if q.st == ST_DATA then
      if q.left <= 1 then Go(q.(st := ST_DATA_CR, left := 0), true)
      else Go(q.(left := q.left - 1), true)
    else if q.st == ST_DATA_CR then
      if b != CR then Fail(q) else Go(q.(st := ST_DATA_LF), false)
    else if q.st == ST_DATA_LF then
      if b != LF then Fail(q) else Go(q.(st := ST_SIZE), false)
    else if q.st == ST_TRAIL_HEAD then
      if b == CR then Go(q, false)
      else if b == LF then Done(q)
      else Go(q.(st := ST_TRAIL_MID), false)
    else
      if b == LF then Go(q.(st := ST_TRAIL_HEAD), false) else Go(q, false)
  }

  /** A chunk whose data is already complete waits for its CR: the decoder moves on
      without reading. Only a caller-made record can ask for this. */
  function Normalize(q: Core): Core {
    if q.st == ST_DATA && q.left == 0 then q.(st := ST_DATA_CR) else q
  }

  function Delta(trailer: bool): Machine<Core> {
    (q: Core, b: byte) => Step(q, b, trailer)
  }

  /** Payload bytes are consumed in bulk exactly as one by one. */
  lemma {:induction false} DataLeads(q: Core, x: seq<byte>, t: bool)
    requires q.st == ST_DATA && |x| <= q.left
    ensures Leads(Delta(t), Normalize(q), x, Normalize(q.(left := q.left - |x|)), x)
    decreases |x|
  {
    if x != [] {
      var q' := q.(left := q.left - 1);
      assert Delta(t)(q, x[0]) == Go(Normalize(q'), true);
      if x[1..] != [] {
        DataLeads(q', x[1..], t);
      }
      assert x == [x[0]] + x[1..];
    }
  }

  lemma Joins(s: seq<byte>, i: nat, n: nat)
    requires i + n <= |s|
    ensures s[..i] + s[i..i + n] == s[..i + n]
  {
  }

  lemma AdvanceData(q0: Core, s: seq<byte>, t: bool, q: Core, src: nat, out: seq<byte>, n: nat)
    requires Reached(Delta(t), q0, s, Normalize(q), src, out)
    requires q.st == ST_DATA && n <= q.left && src + n <= |s|
    ensures Reached(Delta(t), q0, s, Normalize(q.(left := q.left - n)), src + n, out + s[src..src + n])
  {
    hide Run;
    var x, y := s[..src], s[src..src + n];
    DataLeads(q, y, t);
    LeadsThen(Delta(t), q0, x, Normalize(q), out, y);
    Joins(s, src, n);
  }

  // One byte from each state, in the terms the decoders use.

  lemma AdvanceSize(q0: Core, s: seq<byte>, t: bool, left: u64, hex: nat, src: nat, out: seq<byte>)
    requires Reached(Delta(t), q0, s, Core(ST_SIZE, left, hex), src, out) && src < |s|
    ensures HexVal(s[src]).Some? && hex != MAX_HEX ==>
              Reached(Delta(t), q0, s, Core(ST_SIZE, Wrap(Wrap(left * 16) + HexVal(s[src]).value), hex + 1),
                      src + 1, out)
    ensures (if HexVal(s[src]).Some? then hex == MAX_HEX else hex == 0 || !SizeTerminator(s[src])) ==>
              Run(Delta(t), q0, s) == RunResult(Core(ST_SIZE, left, hex), out, src, Reject)
  {
    hide Run;
    Advance(Delta(t), q0, s, Core(ST_SIZE, left, hex), src, out);
    assert out + [] == out;
  }

  /** The byte `b` ends the chunk size read so far, and is read again as an extension byte. */
  predicate Terminates(q: Core, b: byte, left: u64, hex: nat) {
    q.st == ST_SIZE && q.left == left && q.hex != 0 && hex == 0 && SizeTerminator(b)
  }

  lemma AdvanceExt(q0: Core, s: seq<byte>, t: bool, q: Core, left: u64, hex: nat, src: nat, out: seq<byte>)
    requires Reached(Delta(t), q0, s, q, src, out) && src < |s|
    requires q == Core(ST_EXT, left, hex) || Terminates(q, s[src], left, hex)
    ensures s[src] == CR ==> Reached(Delta(t), q0, s, Core(ST_EXPECT_LF, left, hex), src + 1, out)
    ensures s[src] == LF ==> Run(Delta(t), q0, s) == RunResult(Core(ST_EXT, left, hex), out, src, Reject)
    ensures s[src] != CR && s[src] != LF ==> Reached(Delta(t), q0, s, Core(ST_EXT, left, hex), src + 1, out)
  {
    hide Run;
    Advance(Delta(t), q0, s, q, src, out);
    assert out + [] == out;
    assert Delta(t)(q, s[src]) == StepExt(Core(ST_EXT, left, hex), s[src]);
  }

  lemma AdvanceExpectLf(q0: Core, s: seq<byte>, t: bool, left: u64, hex: nat, src: nat, out: seq<byte>)
    requires Reached(Delta(t), q0, s, Core(ST_EXPECT_LF, left, hex), src, out) && src < |s|
    ensures s[src] != LF ==> Run(Delta(t), q0, s) == RunResult(Core(ST_EXPECT_LF, left, hex), out, src, Reject)
    ensures s[src] == LF && left != 0 ==> Reached(Delta(t), q0, s, Core(ST_DATA, left, hex), src + 1, out)
    ensures s[src] == LF && left == 0 && t ==> Reached(Delta(t), q0, s, Core(ST_TRAIL_HEAD, left, hex), src + 1, out)
    ensures s[src] == LF && left == 0 && !t ==>
              Run(Delta(t), q0, s) == RunResult(Core(ST_EXPECT_LF, left, hex), out, src + 1, Complete)
  {
    hide Run;
    Advance(Delta(t), q0, s, Core(ST_EXPECT_LF, left, hex), src, out);
    assert out + [] == out;
  }

  lemma AdvanceDataCr(q0: Core, s: seq<byte>, t: bool, left: u64, hex: nat, src: nat, out: seq<byte>)
    requires Reached(Delta(t), q0, s, Core(ST_DATA_CR, left, hex), src, out) && src < |s|
    ensures if s[src] == CR then Reached(Delta(t), q0, s, Core(ST_DATA_LF, left, hex), src + 1, out)
            else Run(Delta(t), q0, s) == RunResult(Core(ST_DATA_CR, left, hex), out, src, Reject)
  {
    hide Run;
    Advance(Delta(t), q0, s, Core(ST_DATA_CR, left, hex), src, out);
    assert out + [] == out;
  }

  lemma AdvanceDataLf(q0: Core, s: seq<byte>, t: bool, left: u64, hex: nat, src: nat, out: seq<byte>)
    requires Reached(Delta(t), q0, s, Core(ST_DATA_LF, left, hex), src, out) && src < |s|
    ensures if s[src] == LF then Reached(Delta(t), q0, s, Core(ST_SIZE, left, hex), src + 1, out)
            else Run(Delta(t), q0, s) == RunResult(Core(ST_DATA_LF, left, hex), out, src, Reject)
  {
    hide Run;
    Advance(Delta(t), q0, s, Core(ST_DATA_LF, left, hex), src, out);
    assert out + [] == out;
  }

  lemma AdvanceTrailHead(q0: Core, s: seq<byte>, t: bool, left: u64, hex: nat, src: nat, out: seq<byte>)
    requires Reached(Delta(t), q0, s, Core(ST_TRAIL_HEAD, left, hex), src, out) && src < |s|
    ensures s[src] == CR ==> Reached(Delta(t), q0, s, Core(ST_TRAIL_HEAD, left, hex), src + 1, out)
    ensures s[src] == LF ==> Run(Delta(t), q0, s) == RunResult(Core(ST_TRAIL_HEAD, left, hex), out, src + 1, Complete)
    ensures s[src] != CR && s[src] != LF ==> Reached(Delta(t), q0, s, Core(ST_TRAIL_MID, left, hex), src + 1, out)
  {
    hide Run;
    Advance(Delta(t), q0, s, Core(ST_TRAIL_HEAD, left, hex), src, out);
    assert out + [] == out;
  }

  lemma AdvanceTrailMid(q0: Core, s: seq<byte>, t: bool, left: u64, hex: nat, src: nat, out: seq<byte>)
    requires Reached(Delta(t), q0, s, Core(ST_TRAIL_MID, left, hex), src, out) && src < |s|
    ensures Reached(Delta(t), q0, s, Core(if s[src] == LF then ST_TRAIL_HEAD else ST_TRAIL_MID, left, hex), src + 1,
                    out)
  {
    hide Run;
    Advance(Delta(t), q0, s, Core(ST_TRAIL_MID, left, hex), src, out);
    assert out + [] == out;
  }

  lemma OutOfInput(q0: Core, s: seq<byte>, t: bool, q: Core, src: nat, out: seq<byte>)
    requires src == |s| && Reached(Delta(t), q0, s, q, src, out)
    ensures Run(Delta(t), q0, s) == RunResult(q, out, src, NeedMore)
  {
    ReachedAll(Delta(t), q0, s, q, out);
  }

  /** The whole decoder record. */
  datatype Dec = Dec(core: Core, trailer: bool, read: u64, overhead: u64)

  /** What one call does: the record it leaves, its verdict, the payload it delivers and
      the bytes it consumed. */
  datatype CallResult = CallResult(dec: Dec, status: Result<nat>, out: seq<byte>, used: nat)

  /** The accounting rule: framing of at least 100 KiB with payload under a quarter. */
  predicate TooMuchOverhead(read: u64, overhead: u64) {
    overhead >= OVERHEAD_FLOOR && Wrap(read - overhead) < read / 4
  }

  /** How a call that was given `n` bytes, stopped after `used` of them and delivered
      `payload` leaves the record, and the verdict it returns. */
  function Settle(d: Dec, n: nat, q: Core, used: nat, payload: nat, end: End): (Dec, Result<nat>)
    requires payload <= used <= n
  {
    var d' := d.(core := q, read := Wrap(d.read + n));
    match end
    case Complete => (d', Ok(n - used))
    case Reject => (d', Err(Malformed))
    case NeedMore =>
      var d'' := d'.(overhead := Wrap(d.overhead + (n - payload)));
      (d'', Err(if TooMuchOverhead(d''.read, d''.overhead) then Malformed else Partial))
  }

  function Call(d: Dec, s: seq<byte>): CallResult {
    var r := Run(Delta(d.trailer), Normalize(d.core), s);
    var (d', status) := Settle(d, |s|, r.q, r.used, |r.out|, r.end);
    CallResult(d', status, r.out, r.used)
  }

  /** A record a call can be resumed from without a silent move. */
  ghost predicate Settled(q: Core) {
    Normalize(q) == q
  }

  /** The next byte is payload exactly when the record is in data. */
  lemma NextByte(d: Dec, b: byte)
    requires Settled(d.core)
    ensures Call(d, [b]).out == if d.core.st == ST_DATA then [b] else []
  {
    RunOne(Delta(d.trailer), d.core, b);
  }

  /** The caller's buffer after a call: payload, then the bytes not consumed, then whatever
      the buffer already held at its very end. */
  function BufferAfter(s: seq<byte>, out: seq<byte>, used: nat): seq<byte>
    requires |out| <= used <= |s|
  {
    out + s[used..] + s[|out| + |s| - used..]
  }
}
