/** Folding a one-byte transition over a byte string, with early completion and refusal. */
module ByteMachine {
  import opened Bytes

  /** What one byte does: consume it and go on, consume it and finish, or refuse it. */
  datatype StepResult<+Q> =
    | Go(next: Q, emit: bool)
    | Done(next: Q)
    | Fail(next: Q)

  type Machine<!Q> = (Q, byte) -> StepResult<Q>

  datatype End = NeedMore | Complete | Reject

  /** The outcome of reading a byte string: the state reached, the payload, how many
      bytes were consumed and why reading stopped. */
  datatype RunResult<+Q> = RunResult(q: Q, out: seq<byte>, used: nat, end: End)

  function Emit(emit: bool, b: byte): seq<byte> {
    if emit then [b] else []
  }

  function Then<Q>(a: RunResult<Q>, b: RunResult<Q>): RunResult<Q> {
    RunResult(b.q, a.out + b.out, a.used + b.used, b.end)
  }

  function Run<Q>(m: Machine<Q>, q: Q, s: seq<byte>): (r: RunResult<Q>)
    ensures |r.out| <= r.used <= |s|
    ensures r.end.NeedMore? ==> r.used == |s|
    decreases |s|
  {
    if s == [] then RunResult(q, [], 0, NeedMore)
    else match m(q, s[0])
      case Fail(q') => RunResult(q', [], 0, Reject)
      case Done(q') => RunResult(q', [], 1, Complete)
      case Go(q', emit) => Then(RunResult(q', Emit(emit, s[0]), 1, NeedMore), Run(m, q', s[1..]))
  }

  lemma ThenAssociative<Q>(a: RunResult<Q>, b: RunResult<Q>, c: RunResult<Q>)
    ensures Then(Then(a, b), c) == Then(a, Then(b, c))
  {
    assert (a.out + b.out) + c.out == a.out + (b.out + c.out);
  }

  /** Reading a concatenation is reading its first part and, if that asked for more,
      its second part from where the first stopped. */
  lemma {:induction false} RunSplit<Q>(m: Machine<Q>, q: Q, a: seq<byte>, b: seq<byte>)
    ensures Run(m, q, a + b) ==
            if Run(m, q, a).end.NeedMore? then Then(Run(m, q, a), Run(m, Run(m, q, a).q, b))
            else Run(m, q, a)
    decreases |a|
  {
    if a == [] {
      assert a + b == b;
    } else {
      assert (a + b)[0] == a[0] && (a + b)[1..] == a[1..] + b;
      if m(q, a[0]).Go? {
        var q' := m(q, a[0]).next;
        RunSplit(m, q', a[1..], b);
        var first := RunResult(q', Emit(m(q, a[0]).emit, a[0]), 1, NeedMore);
        var rest := Run(m, q', a[1..]);
        ThenAssociative(first, rest, Run(m, rest.q, b));
      }
    }
  }

  /** Reading `x` from `q` consumes all of it, leads to `q'`, wants more, and delivers `out`. */
  ghost predicate Leads<Q>(m: Machine<Q>, q: Q, x: seq<byte>, q': Q, out: seq<byte>) {
    Run(m, q, x) == RunResult(q', out, |x|, NeedMore)
  }

  lemma LeadsNothing<Q>(m: Machine<Q>, q: Q)
    ensures Leads(m, q, [], q, [])
  {
  }

  lemma LeadsThen<Q>(m: Machine<Q>, q: Q, x: seq<byte>, q': Q, out: seq<byte>, y: seq<byte>)
    requires Leads(m, q, x, q', out)
    ensures Run(m, q, x + y) == Then(RunResult(q', out, |x|, NeedMore), Run(m, q', y))
  {
    RunSplit(m, q, x, y);
  }

  lemma RunOne<Q>(m: Machine<Q>, q: Q, b: byte)
    ensures Run(m, q, [b]) ==
            match m(q, b)
            case Fail(q') => RunResult(q', [], 0, Reject)
            case Done(q') => RunResult(q', [], 1, Complete)
            case Go(q', emit) => RunResult(q', Emit(emit, b), 1, NeedMore)
  {
    assert [b][1..] == [];
  }

  lemma LeadsOneMore<Q>(m: Machine<Q>, q0: Q, x: seq<byte>, q: Q, out: seq<byte>, b: byte, y: seq<byte>)
    requires Leads(m, q0, x, q, out)
    ensures match m(q, b)
            case Go(q', emit) => Leads(m, q0, x + [b], q', out + Emit(emit, b))
            case Done(q') => Run(m, q0, x + [b] + y) == RunResult(q', out, |x| + 1, Complete)
            case Fail(q') => Run(m, q0, x + [b] + y) == RunResult(q', out, |x|, Reject)
  {
    RunOne(m, q, b);
    LeadsThen(m, q0, x, q, out, [b]);
    assert out + [] == out;
    RunSplit(m, q0, x + [b], y);
  }

  /** Reading the first `src` bytes of `s` from `q0` leads to `q` and has delivered `out`. */
  ghost predicate Reached<Q>(m: Machine<Q>, q0: Q, s: seq<byte>, q: Q, src: nat, out: seq<byte>) {
    src <= |s| && Leads(m, q0, s[..src], q, out)
  }

  lemma ReachedFirst<Q>(m: Machine<Q>, q: Q, s: seq<byte>)
    ensures Reached(m, q, s, q, 0, [])
  {
    assert s[..0] == [];
  }

  lemma CutAt(s: seq<byte>, i: nat)
    requires i < |s|
    ensures s[..i] + [s[i]] == s[..i + 1] && s[..i] + [s[i]] + s[i + 1..] == s
  {
  }

  lemma Advance<Q>(m: Machine<Q>, q0: Q, s: seq<byte>, q: Q, src: nat, out: seq<byte>)
    requires Reached(m, q0, s, q, src, out)
    requires src < |s|
    ensures match m(q, s[src])
            case Go(q', emit) => Reached(m, q0, s, q', src + 1, out + Emit(emit, s[src]))
            case Done(q') => Run(m, q0, s) == RunResult(q', out, src + 1, Complete)
            case Fail(q') => Run(m, q0, s) == RunResult(q', out, src, Reject)
  {
    hide Run;
    CutAt(s, src);
    LeadsOneMore(m, q0, s[..src], q, out, s[src], s[src + 1..]);
  }

  lemma ReachedAll<Q>(m: Machine<Q>, q0: Q, s: seq<byte>, q: Q, out: seq<byte>)
    requires Reached(m, q0, s, q, |s|, out)
    ensures Run(m, q0, s) == RunResult(q, out, |s|, NeedMore)
  {
    assert s[..|s|] == s;
  }
}
