/** Facts about every record a sequence of calls can leave. */
module ChunkedLedger {
  import opened Bytes
  import opened ByteMachine
  import opened ChunkedSpec
  import opened ChunkedDelivery

  function Pow16(n: nat): (p: nat)
    ensures p > 0
  {
    if n == 0 then 1 else 16 * Pow16(n - 1)
  }

  lemma Pow16Next(n: nat)
    ensures Pow16(n + 1) == 16 * Pow16(n)
  {
  }

  lemma Pow16Word()
    ensures Pow16(16) == U64
  {
    assert Pow16(4) == 0x1_0000;
    assert Pow16(8) == 0x1_0000_0000;
    assert Pow16(12) == 0x1_0000_0000_0000;
  }

  lemma {:induction false} Pow16Grows(m: nat, n: nat)
    requires m <= n
    ensures Pow16(m) <= Pow16(n)
    decreases n
  {
    if m < n {
      Pow16Grows(m, n - 1);
    }
  }

  /** The invariant of reachable states. */
  ghost predicate Sound(q: Core) {
    && q.hex <= MAX_HEX
    && (q.st == ST_SIZE ==> q.left < Pow16(q.hex))
    && (q.st != ST_SIZE ==> q.hex == 0)
    && (q.st == ST_DATA ==> q.left > 0)
    && (q.st >= ST_DATA_CR ==> q.left == 0)
  }

  /** Adding a digit never wraps around: the machine word holds the exact size. */
  lemma DigitNeverWraps(q: Core, v: nat)
    requires Sound(q) && q.st == ST_SIZE && q.hex < MAX_HEX && v < 16
    ensures Wrap(Wrap(q.left * 16) + v) == q.left * 16 + v < Pow16(q.hex + 1)
  {
    hide Pow16;
    Pow16Word();
    Pow16Next(q.hex);
    Pow16Grows(q.hex + 1, 16);
  }

  lemma SizeStepSound(q: Core, b: byte, t: bool)
    requires Sound(q) && q.st == ST_SIZE
    ensures Sound(Step(q, b, t).next)
  {
    hide Wrap, Pow16;
    if HexVal(b).Some? && q.hex < MAX_HEX {
      DigitNeverWraps(q, HexVal(b).value);
    }
  }

  lemma StepSound(q: Core, b: byte, t: bool)
    requires Sound(q)
    ensures Sound(Step(q, b, t).next)
  {
    if q.st == ST_SIZE {
      SizeStepSound(q, b, t);
    } else {
      var q' := Step(q, b, t).next;
      assert q'.hex == 0 && (q'.st == ST_SIZE ==> q'.left == 0);
    }
  }

  lemma {:induction false} RunSound(q: Core, s: seq<byte>, t: bool)
    requires Sound(q)
    ensures Sound(Run(Delta(t), q, s).q)
    decreases |s|
  {
    if s != [] {
      StepSound(q, s[0], t);
      if Delta(t)(q, s[0]).Go? {
        RunSound(Delta(t)(q, s[0]).next, s[1..], t);
      }
    }
  }

  /** A record put through any calls at all, whatever their verdicts. */
  function AfterCalls(d: Dec, pieces: seq<seq<byte>>): Dec
    decreases |pieces|
  {
    if pieces == [] then d else AfterCalls(Call(d, pieces[0]).dec, pieces[1..])
  }

  function Zeroed(t: bool): Dec {
    Dec(START, t, 0, 0)
  }

  lemma {:induction false} AlwaysSound(d: Dec, pieces: seq<seq<byte>>)
    requires Sound(d.core)
    ensures Sound(AfterCalls(d, pieces).core)
    decreases |pieces|
  {
    if pieces != [] {
      RunSound(Normalize(d.core), pieces[0], d.trailer);
      AlwaysSound(Call(d, pieces[0]).dec, pieces[1..]);
    }
  }

  lemma ReachableSound(t: bool, pieces: seq<seq<byte>>)
    ensures Sound(AfterCalls(Zeroed(t), pieces).core)
  {
    assert Sound(START);
    AlwaysSound(Zeroed(t), pieces);
  }

  ghost predicate AllHex(d: seq<byte>) {
    forall i :: 0 <= i < |d| ==> HexVal(d[i]).Some?
  }

  /** The number a digit string denotes, continuing from `acc`. */
  function Accumulate(acc: nat, d: seq<byte>): nat
    requires forall i :: 0 <= i < |d| ==> HexVal(d[i]).Some?
    decreases |d|
  {
    if d == [] then acc else Accumulate(acc * 16 + HexVal(d[0]).value, d[1..])
  }

  function HexValue(d: seq<byte>): nat
    requires forall i :: 0 <= i < |d| ==> HexVal(d[i]).Some?
  {
    Accumulate(0, d)
  }

  lemma {:induction false} AccumulateLast(acc: nat, d: seq<byte>, b: byte)
    requires AllHex(d) && HexVal(b).Some?
    ensures AllHex(d + [b]) && Accumulate(acc, d + [b]) == Accumulate(acc, d) * 16 + HexVal(b).value
    decreases |d|
  {
    if d == [] {
      assert d + [b] == [b];
      assert [b][1..] == [];
    } else {
      assert (d + [b])[0] == d[0] && (d + [b])[1..] == d[1..] + [b];
      AccumulateLast(acc * 16 + HexVal(d[0]).value, d[1..], b);
    }
  }

  /** While a size is being read, `left` is the number written by the last `hex` bytes. */
  ghost predicate HoldsDigits(q: Core, s: seq<byte>) {
    q.st == ST_SIZE ==> q.hex <= |s| && AllHex(s[|s| - q.hex..]) && q.left == HexValue(s[|s| - q.hex..])
  }

  lemma StepHoldsDigits(q: Core, s: seq<byte>, b: byte, t: bool)
    requires Sound(q) && HoldsDigits(q, s) && Step(q, b, t).Go?
    ensures HoldsDigits(Step(q, b, t).next, s + [b])
  {
    hide Wrap, Pow16;
    var q' := Step(q, b, t).next;
    if q'.st == ST_SIZE && q.st == ST_SIZE {
      var d := s[|s| - q.hex..];
      DigitNeverWraps(q, HexVal(b).value);
      AccumulateLast(0, d, b);
      assert (s + [b])[|s| + 1 - q'.hex..] == d + [b];
    } else if q'.st == ST_SIZE {
      assert (s + [b])[|s + [b]|..] == [];
    }
  }

  lemma TakeMore(x: seq<byte>, s: seq<byte>, n: nat)
    requires 0 < n <= |s|
    ensures x + [s[0]] + s[1..][..n - 1] == x + s[..n]
  {
  }

  lemma DigitsCarryOn(q: Core, x: seq<byte>, b: byte, t: bool)
    requires Sound(q) && HoldsDigits(q, x)
    ensures !Step(q, b, t).Go? ==> HoldsDigits(Step(q, b, t).next, x)
    ensures Step(q, b, t).Done? ==> Step(q, b, t).next.st != ST_SIZE
    ensures Step(q, b, t).Go? ==> HoldsDigits(Step(q, b, t).next, x + [b])
  {
    if Step(q, b, t).Go? {
      StepHoldsDigits(q, x, b, t);
    }
  }

  /** The bytes one run consumes, refused byte excluded, extend what the record remembers. */
  lemma {:induction false} RunHoldsDigits(q: Core, x: seq<byte>, s: seq<byte>, t: bool)
    requires Sound(q) && HoldsDigits(q, x)
    ensures var r := Run(Delta(t), q, s); HoldsDigits(r.q, x + s[..r.used])
    decreases |s|
  {
    if s == [] {
      assert x + s[..0] == x;
    } else {
      DigitsCarryOn(q, x, s[0], t);
      StepSound(q, s[0], t);
      var r := Run(Delta(t), q, s);
      if Step(q, s[0], t).Go? {
        var q', rest := Step(q, s[0], t).next, s[1..];
        RunHoldsDigits(q', x + [s[0]], rest, t);
        TakeMore(x, s, r.used);
      } else if Step(q, s[0], t).Fail? {
        assert x + s[..0] == x;
      }
    }
  }

  /** The bytes consumed by calls made one after another, whatever their verdicts. */
  function Consumed(d: Dec, pieces: seq<seq<byte>>): seq<byte>
    decreases |pieces|
  {
    if pieces == [] then []
    else pieces[0][..Call(d, pieces[0]).used] + Consumed(Call(d, pieces[0]).dec, pieces[1..])
  }

  lemma CallHoldsDigits(d: Dec, x: seq<byte>, s: seq<byte>)
    requires Sound(d.core) && HoldsDigits(d.core, x)
    ensures var r := Call(d, s); Sound(r.dec.core) && r.used <= |s| && HoldsDigits(r.dec.core, x + s[..r.used])
  {
    assert Normalize(d.core) == d.core;
    RunSound(d.core, s, d.trailer);
    RunHoldsDigits(d.core, x, s, d.trailer);
  }

  lemma {:induction false} CallsHoldDigits(d: Dec, x: seq<byte>, pieces: seq<seq<byte>>)
    requires Sound(d.core) && HoldsDigits(d.core, x)
    ensures HoldsDigits(AfterCalls(d, pieces).core, x + Consumed(d, pieces))
    decreases |pieces|
  {
    hide Call, Sound, HoldsDigits;
    if pieces == [] {
      assert x + [] == x;
    } else {
      var r := Call(d, pieces[0]);
      CallHoldsDigits(d, x, pieces[0]);
      var y := pieces[0][..r.used];
      CallsHoldDigits(r.dec, x + y, pieces[1..]);
      assert x + y + Consumed(r.dec, pieces[1..]) == x + (y + Consumed(r.dec, pieces[1..]));
    }
  }

  /** In every reachable record that is reading a size, `left` is the number written by the
      last bytes consumed, over all the calls so far and whatever their verdicts. */
  lemma SizeIsItsDigits(t: bool, pieces: seq<seq<byte>>)
    ensures HoldsDigits(AfterCalls(Zeroed(t), pieces).core, Consumed(Zeroed(t), pieces))
  {
    CallsHoldDigits(Zeroed(t), [], pieces);
    assert [] + Consumed(Zeroed(t), pieces) == Consumed(Zeroed(t), pieces);
  }

  /** A call that asks for more has read everything, and its record tells whether the next
      byte will be payload. */
  lemma LookaheadTruth(d: Dec, s: seq<byte>, b: byte)
    requires Call(d, s).status == Err(Partial)
    ensures Call(d, s).used == |s| && Settled(Call(d, s).dec.core)
    ensures var d' := Call(d, s).dec;
            Call(d', [b]).out == if d'.core.st == ST_DATA then [b] else []
  {
    RunSettled(Normalize(d.core), s, d.trailer);
    var d' := Call(d, s).dec;
    NextByte(d', b);
  }

  /** The totals of a single call from a zeroed record are exact. */
  lemma ExactTotals(t: bool, s: seq<byte>)
    requires |s| < U64
    ensures var r := Call(Zeroed(t), s);
            && r.dec.read == |s|
            && (Unfinished(Zeroed(t), s) ==> r.dec.overhead == |s| - |r.out|)
  {
  }

  /** The rule fires exactly when at least 100 KiB of framing came with payload below a
      quarter of the total. */
  lemma RuleExact(t: bool, s: seq<byte>)
    requires |s| < U64
    ensures var payload := |Call(Zeroed(t), s).out|;
            RuleFires(Zeroed(t), s) <==>
            Unfinished(Zeroed(t), s) && |s| - payload >= 102400 && payload < |s| / 4
  {
    ExactTotals(t, s);
  }

  /** The condition of the accounting rule on everything fed so far: at least 100 KiB of
      framing, and payload below a quarter of the total. */
  ghost predicate Wasteful(t: bool, s: seq<byte>) {
    var payload := |Call(Zeroed(t), s).out|;
    |s| - payload >= 102400 && payload < |s| / 4
  }

  lemma {:induction false} ConcatPrefix(pieces: seq<seq<byte>>, i: nat)
    requires 0 < i <= |pieces|
    ensures Concat(pieces[..i]) <= Concat(pieces)
    decreases i
  {
    ConcatFirst(pieces, i);
    if i == 1 {
      assert pieces[1..][..0] == [];
    } else {
      ConcatPrefix(pieces[1..], i - 1);
    }
  }

  lemma UnfinishedPrefix(t: bool, a: seq<byte>, s: seq<byte>)
    requires a <= s && Unfinished(Zeroed(t), s)
    ensures Unfinished(Zeroed(t), a)
  {
    assert s == a + s[|a|..];
    RunSplit(Delta(t), START, a, s[|a|..]);
  }

  lemma RuleOnPrefix(t: bool, pieces: seq<seq<byte>>, i: nat)
    requires 0 < i <= |pieces| && |Concat(pieces)| < U64 && Unfinished(Zeroed(t), Concat(pieces))
    ensures RuleFires(Zeroed(t), Concat(pieces[..i])) <==> Wasteful(t, Concat(pieces[..i]))
  {
    ConcatPrefix(pieces, i);
    UnfinishedPrefix(t, Concat(pieces[..i]), Concat(pieces));
    RuleExact(t, Concat(pieces[..i]));
  }

  /** The rule over any run of calls: feeding a message that does not end is refused if and
      only if after some piece the rule's condition held of everything fed up to there. */
  lemma RuleOverCalls(t: bool, pieces: seq<seq<byte>>)
    requires pieces != [] && |Concat(pieces)| < U64 && Unfinished(Zeroed(t), Concat(pieces))
    ensures Feed(Zeroed(t), pieces).status == Err(Malformed) <==>
            exists i :: 0 < i <= |pieces| && Wasteful(t, Concat(pieces[..i]))
  {
    var d := Zeroed(t);
    forall i | 0 < i <= |pieces|
      ensures RuleFires(d, Concat(pieces[..i])) <==> Wasteful(t, Concat(pieces[..i]))
    {
      RuleOnPrefix(t, pieces, i);
    }
    assert pieces[..|pieces|] == pieces;
    if RuleFiresEarly(d, pieces) {
      EarlyRuleRefuses(d, pieces);
      var i :| 0 < i < |pieces| && RuleFires(d, Concat(pieces[..i]));
      assert Wasteful(t, Concat(pieces[..i]));
    } else {
      DeliveryInvariance(d, pieces);
      assert RuleFires(d, Concat(pieces)) <==> Wasteful(t, Concat(pieces[..|pieces|]));
    }
  }

  /** The totals over any run of calls that ends with its bytes used up, refused by the rule
      at its last call or not. */
  lemma TotalsOverCalls(t: bool, pieces: seq<seq<byte>>)
    requires pieces != [] && |Concat(pieces)| < U64
    requires Unfinished(Zeroed(t), Concat(pieces)) && !RuleFiresEarly(Zeroed(t), pieces)
    ensures var f := Feed(Zeroed(t), pieces);
            && f.dec.read == |Concat(pieces)|
            && f.dec.overhead == |Concat(pieces)| - |f.out|
  {
    DeliveryInvariance(Zeroed(t), pieces);
    ExactTotals(t, Concat(pieces));
  }

  /** Over any run of calls that all ask for more, the totals account for every byte fed,
      and framing beyond 100 KiB is at most three times the payload (and rounding). */
  lemma Conservation(t: bool, pieces: seq<seq<byte>>)
    requires pieces != [] && |Concat(pieces)| < U64
    requires Feed(Zeroed(t), pieces).status == Err(Partial)
    ensures var f := Feed(Zeroed(t), pieces);
            && f.dec.read == |Concat(pieces)|
            && f.dec.read == f.dec.overhead + |f.out|
            && (f.dec.overhead < 102400 || f.dec.overhead <= 3 * |f.out| + 3)
  {
    var d, s := Zeroed(t), Concat(pieces);
    if RuleFiresEarly(d, pieces) {
      EarlyRuleRefuses(d, pieces);
    }
    DeliveryInvariance(d, pieces);
    ExactTotals(t, s);
    RuleExact(t, s);
  }
}
