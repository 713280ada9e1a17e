/** What the gate against slow senders decides, in bytes. */
module HeadGate {
  import opened Bytes
  import opened HeadSpec
  import opened HeadStreaming

  /** A line break ends at `k`: a line feed at `e`, or a carriage return there and a line feed. */
  ghost predicate BreakBytes(buf: seq<byte>, e: nat, k: nat) {
    || (k == e + 1 <= |buf| && buf[e] == 0x0A)
    || (k == e + 2 <= |buf| && buf[e] == 0x0D && buf[e + 1] == 0x0A)
  }

  /** A line feed at `e` and a line break behind it. */
  ghost predicate DoubleBreak(buf: seq<byte>, e: nat, k: nat) {
    e < |buf| && buf[e] == 0x0A && BreakBytes(buf, e + 1, k)
  }

  /** Every carriage return from `lo` to `hi` has its line feed there. */
  ghost predicate CleanCr(buf: seq<byte>, lo: nat, hi: nat) {
    hi <= |buf| && forall i :: lo <= i < hi && buf[i] == 0x0D ==> i + 1 < hi && buf[i + 1] == 0x0A
  }

  /** A carriage return with another byte behind it. */
  predicate BareCr(buf: seq<byte>, i: nat) {
    i + 1 < |buf| && buf[i] == 0x0D && buf[i + 1] != 0x0A
  }

  /** Two line breaks in a row from `p` on, with no bare carriage return before their end. */
  ghost predicate SeesEnd(buf: seq<byte>, p: nat) {
    exists e: nat, k: nat :: p <= e && DoubleBreak(buf, e, k) && CleanCr(buf, p, k)
  }

  /** Two line breaks in a row from `p` on end at `i` at the latest. */
  ghost predicate EndsBy(buf: seq<byte>, p: nat, i: nat) {
    exists e: nat, k: nat :: p <= e && DoubleBreak(buf, e, k) && k <= i
  }

  /** A bare carriage return from `p` on, before any two line breaks in a row. */
  ghost predicate SeesBareCr(buf: seq<byte>, p: nat) {
    exists i: nat :: p <= i && BareCr(buf, i) && !EndsBy(buf, p, i)
  }

  lemma BreakIsBytes(buf: seq<byte>, e: nat)
    requires e < |buf|
    ensures forall k: nat :: Break(buf, e) == Ok(k) <==> BreakBytes(buf, e, k)
    ensures Break(buf, e) == Err(Malformed) <==> BareCr(buf, e) || (buf[e] != 0x0A && buf[e] != 0x0D)
  {
  }

  /** Where the gate stopped, having just seen `count` line breaks before `p`. */
  lemma {:induction false} GateSaw(buf: seq<byte>, p: nat, count: nat) returns (e: nat, k: nat)
    requires count <= 1 && (count == 1 ==> 0 < p <= |buf| && buf[p - 1] == 0x0A)
    ensures Gate(buf, p, count).Ok? ==> p <= e + count && DoubleBreak(buf, e, k) && CleanCr(buf, p, k)
    ensures Gate(buf, p, count) == Err(Malformed) ==>
              && p <= k && BareCr(buf, k)
              && forall e': nat, k': nat :: p <= e' + count && DoubleBreak(buf, e', k') ==> k' > k
    ensures Gate(buf, p, count) == Err(Partial) ==> forall i :: p <= i ==> !BareCr(buf, i)
    decreases |buf| - p
  {
    e, k := 0, 0;
    if p < |buf| && (buf[p] == CR || buf[p] == LF) {
      BreakIsBytes(buf, p);
      match Break(buf, p)
      case Err(_) => k := p;
      case Ok(q) =>
        if count == 1 {
          e, k := p - 1, q;
        } else {
          e, k := GateSaw(buf, q, 1);
        }
    } else if p < |buf| {
      e, k := GateSaw(buf, p + 1, 0);
    }
  }

  lemma CleanIsNotBare(buf: seq<byte>, p: nat, k: nat, i: nat)
    requires CleanCr(buf, p, k) && p <= i < k
    ensures !BareCr(buf, i)
  {
  }

  lemma EndPasses(buf: seq<byte>, p: nat, e: nat, k: nat)
    requires p <= e && DoubleBreak(buf, e, k) && CleanCr(buf, p, k)
    ensures Gate(buf, p, 0).Ok?
  {
    BreakIsBytes(buf, e + 1);
    GatePasses(buf, p, 0, e, k);
  }

  /** The gate passes exactly when it sees the end of a head, refuses exactly when it sees a bare
      carriage return before that, and otherwise waits. */
  lemma GateExact(buf: seq<byte>, p: nat)
    ensures Gate(buf, p, 0).Ok? <==> SeesEnd(buf, p)
    ensures Gate(buf, p, 0) == Err(Malformed) <==> SeesBareCr(buf, p)
    ensures Gate(buf, p, 0) == Err(Partial) <==> !SeesEnd(buf, p) && !SeesBareCr(buf, p)
  {
    hide Gate, BareCr, BreakBytes;
    var e, k := GateSaw(buf, p, 0);
    if SeesEnd(buf, p) {
      var e', k' :| p <= e' && DoubleBreak(buf, e', k') && CleanCr(buf, p, k');
      EndPasses(buf, p, e', k');
    }
    match Gate(buf, p, 0)
    case Ok(_) =>
      if SeesBareCr(buf, p) {
        var i :| p <= i && BareCr(buf, i) && !EndsBy(buf, p, i);
        assert EndsBy(buf, p, k);
        CleanIsNotBare(buf, p, k, i);
      }
    case Err(Malformed) => assert !EndsBy(buf, p, k);
    case Err(Partial) =>
  }

  /** Where the gate starts to look: three bytes before the end of the previous attempt. */
  function LooksFrom(lastLen: nat): nat {
    if lastLen < 3 then 0 else lastLen - 3
  }

  /** The gate lets an attempt through. */
  ghost predicate Passes(buf: seq<byte>, lastLen: nat) {
    lastLen == 0 || SeesEnd(buf, LooksFrom(lastLen))
  }

  /** An attempt that passes the gate is a cold parse. One that does not publishes nothing and
      waits, or is refused for a bare carriage return. */
  lemma GatedExact(kind: Kind, buf: seq<byte>, max: nat, lastLen: nat)
    ensures Gated(kind, buf, max, lastLen) ==
            if Passes(buf, lastLen) then Parse(kind, buf, max)
            else HeadRun(Err(if SeesBareCr(buf, LooksFrom(lastLen)) then Malformed else Partial),
                         None, None, None, None, None, [])
  {
    hide Parse, Gate, SeesEnd, SeesBareCr;
    GateExact(buf, LooksFrom(lastLen));
  }
}
