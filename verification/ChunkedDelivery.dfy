/** How a message is cut into calls does not matter, except through the accounting rule. */
module ChunkedDelivery {
  import opened Bytes
  import opened ByteMachine
  import opened ChunkedSpec

  // Every state a call leaves is settled.

  lemma {:induction false} RunSettled(q: Core, s: seq<byte>, t: bool)
    requires Settled(q)
    ensures Settled(Run(Delta(t), q, s).q)
    decreases |s|
  {
    if s != [] {
      if Delta(t)(q, s[0]).Go? {
        RunSettled(Delta(t)(q, s[0]).next, s[1..], t);
      }
    }
  }

  /** Accounting for two parts one after the other is accounting for both at once. */
  lemma SettleTwice(d: Dec, n: nat, q: Core, payload: nat, n': nat, q': Core, used': nat, payload': nat, end: End)
    requires payload <= n && payload' <= used' <= n'
    ensures var d1 := Settle(d, n, q, n, payload, NeedMore).0;
            var two := Settle(d1, n', q', used', payload', end);
            var one := Settle(d, n + n', q', n + used', payload + payload', end);
            && two.1 == one.1
            && two.0.core == one.0.core && two.0.read == one.0.read
            && (end.NeedMore? ==> two.0 == one.0)
  {
    hide Wrap;
    WrapAdds(d.read + n, n');
    WrapAdds(d.overhead + (n - payload), n' - payload');
    assert d.read + n + n' == d.read + (n + n');
    assert d.overhead + (n - payload) + (n' - payload') == d.overhead + ((n + n') - (payload + payload'));
  }

  /** The bytes ran out before the message completed or was refused by the grammar. */
  ghost predicate Unfinished(d: Dec, s: seq<byte>) {
    Run(Delta(d.trailer), Normalize(d.core), s).end.NeedMore?
  }

  /** The same for every call whose bytes run out, including one the accounting rule refuses. */
  lemma SplitUnfinished(d: Dec, a: seq<byte>, b: seq<byte>)
    requires Unfinished(d, a)
    ensures var one, first := Call(d, a + b), Call(d, a);
            var second := Call(first.dec, b);
            && second.status == one.status
            && first.out + second.out == one.out
            && |a| + second.used == one.used
            && second.dec.core == one.dec.core
            && second.dec.read == one.dec.read
            && (Unfinished(d, a + b) ==> second.dec == one.dec)
            && (Unfinished(d, a + b) <==> Unfinished(first.dec, b))
  {
    hide Run, Wrap;
    var m, q := Delta(d.trailer), Normalize(d.core);
    var r, first := Run(m, q, a), Call(d, a);
    RunSettled(q, a, d.trailer);
    RunSplit(m, q, a, b);
    var r' := Run(m, r.q, b);
    assert Run(m, q, a + b) == Then(r, r') && Run(Delta(first.dec.trailer), Normalize(first.dec.core), b) == r';
    SettleTwice(d, |a|, r.q, |r.out|, |b|, r'.q, r'.used, |r'.out|, r'.end);
    assert Settle(d, |a|, r.q, |a|, |r.out|, NeedMore).0 == first.dec;
  }

  /** A call on `a` that asks for more, followed by a call on `b`, is one call on `a + b`:
      same verdict and leftover, same payload, same state. */
  lemma SplitInvariance(d: Dec, a: seq<byte>, b: seq<byte>)
    requires Call(d, a).status == Err(Partial)
    ensures var one, first := Call(d, a + b), Call(d, a);
            var second := Call(first.dec, b);
            && second.status == one.status
            && first.out + second.out == one.out
            && |a| + second.used == one.used
            && second.dec.core == one.dec.core
            && second.dec.read == one.dec.read
            && (Unfinished(d, a + b) ==> second.dec == one.dec)
  {
    SplitUnfinished(d, a, b);
  }

  /** The accounting rule, and nothing else, refuses a call on `s`. */
  ghost predicate RuleFires(d: Dec, s: seq<byte>) {
    Unfinished(d, s) && Call(d, s).status == Err(Malformed)
  }

  function Concat(pieces: seq<seq<byte>>): seq<byte> {
    if pieces == [] then [] else pieces[0] + Concat(pieces[1..])
  }

  /** A caller that feeds piece after piece while the decoder asks for more. Its leftover
      counts the pieces it never fed. */
  function Feed(d: Dec, pieces: seq<seq<byte>>): CallResult
    requires pieces != []
    decreases |pieces|
  {
    var r := Call(d, pieces[0]);
    if |pieces| == 1 then r
    else match r.status
      case Ok(k) => r.(status := Ok(k + |Concat(pieces[1..])|))
      case Err(Malformed) => r
      case Err(Partial) =>
        var rest := Feed(r.dec, pieces[1..]);
        CallResult(rest.dec, rest.status, r.out + rest.out, |pieces[0]| + rest.used)
  }

  /** The rule refuses what has been fed after some piece that is not the last. */
  ghost predicate RuleFiresEarly(d: Dec, pieces: seq<seq<byte>>) {
    exists i :: 0 < i < |pieces| && RuleFires(d, Concat(pieces[..i]))
  }

  lemma ConcatFirst(pieces: seq<seq<byte>>, i: nat)
    requires 0 < i <= |pieces|
    ensures Concat(pieces[..i]) == pieces[0] + Concat(pieces[1..][..i - 1])
  {
    assert pieces[..i][1..] == pieces[1..][..i - 1];
  }

  /** Whether the rule fires early is a matter of the first piece or of the others after it. */
  lemma RuleFiresLater(d: Dec, pieces: seq<seq<byte>>)
    requires |pieces| > 1 && Unfinished(d, pieces[0]) && !RuleFires(d, pieces[0])
    ensures RuleFiresEarly(d, pieces) <==> RuleFiresEarly(Call(d, pieces[0]).dec, pieces[1..])
  {
    hide Run, Settle, Call;
    var d', rest := Call(d, pieces[0]).dec, pieces[1..];
    forall i | 0 < i < |rest| ensures RuleFires(d', Concat(rest[..i])) <==> RuleFires(d, Concat(pieces[..i + 1])) {
      ConcatFirst(pieces, i + 1);
      SplitUnfinished(d, pieces[0], Concat(rest[..i]));
    }
    if RuleFiresEarly(d, pieces) {
      var i :| 0 < i < |pieces| && RuleFires(d, Concat(pieces[..i]));
      ConcatFirst(pieces, i);
      assert Concat(rest[..0]) == [] && pieces[0] + [] == pieces[0];
      assert RuleFires(d', Concat(rest[..i - 1]));
    }
    if RuleFiresEarly(d', rest) {
      var i :| 0 < i < |rest| && RuleFires(d', Concat(rest[..i]));
      assert RuleFires(d, Concat(pieces[..i + 1]));
    }
  }

  lemma UnfinishedVerdict(d: Dec, s: seq<byte>)
    requires Unfinished(d, s)
    ensures Call(d, s).status.Err? && (Call(d, s).status == Err(Partial) <==> !RuleFires(d, s))
  {
  }

  /** A call that did not run out of bytes does the same with more behind them. */
  lemma EndsAnyway(d: Dec, a: seq<byte>, b: seq<byte>)
    requires !Unfinished(d, a)
    ensures !Unfinished(d, a + b)
    ensures var r, one := Call(d, a), Call(d, a + b);
            && one.out == r.out && one.used == r.used && one.dec.core == r.dec.core
            && one.status == (match r.status case Ok(k) => Ok(k + |b|) case Err(e) => Err(e))
            && r.status != Err(Partial)
  {
    hide Run, Wrap;
    RunSplit(Delta(d.trailer), Normalize(d.core), a, b);
  }

  /** However a message is cut, feeding the pieces gives the verdict, leftover, payload and
      state of one call on the whole, unless the accounting rule fires before the last piece. */
  lemma {:induction false} DeliveryInvariance(d: Dec, pieces: seq<seq<byte>>)
    requires pieces != [] && !RuleFiresEarly(d, pieces)
    ensures var fed, one := Feed(d, pieces), Call(d, Concat(pieces));
            && fed.status == one.status && fed.out == one.out && fed.used == one.used
            && fed.dec.core == one.dec.core
            && (Unfinished(d, Concat(pieces)) ==> fed.dec == one.dec)
    decreases |pieces|
  {
    hide Run, Settle, Call;
    var p, rest := pieces[0], pieces[1..];
    assert Concat(pieces) == p + Concat(rest);
    if rest == [] {
      assert Concat(pieces) == p;
    } else {
      assert pieces[..1] == [p] && Concat([p]) == p by {
        ConcatFirst(pieces, 1);
        assert p + [] == p;
      }
      if Unfinished(d, p) {
        assert !RuleFires(d, p);
        UnfinishedVerdict(d, p);
        RuleFiresLater(d, pieces);
        SplitInvariance(d, p, Concat(rest));
        SplitUnfinished(d, p, Concat(rest));
        DeliveryInvariance(Call(d, p).dec, rest);
      } else {
        EndsAnyway(d, p, Concat(rest));
      }
    }
  }

  /** The other half: when the rule fires early the feed is refused, so delivery changes the
      verdict exactly when the whole message would not have been refused as well. */
  lemma {:induction false} EarlyRuleRefuses(d: Dec, pieces: seq<seq<byte>>)
    requires pieces != [] && RuleFiresEarly(d, pieces)
    ensures Feed(d, pieces).status == Err(Malformed)
    decreases |pieces|
  {
    hide Run, Settle;
    var p, rest := pieces[0], pieces[1..];
    var i :| 0 < i < |pieces| && RuleFires(d, Concat(pieces[..i]));
    ConcatFirst(pieces, i);
    var tail := Concat(rest[..i - 1]);
    RunSplit(Delta(d.trailer), Normalize(d.core), p, tail);
    if !RuleFires(d, p) {
      assert Unfinished(d, p);
      UnfinishedVerdict(d, p);
      RuleFiresLater(d, pieces);
      EarlyRuleRefuses(Call(d, p).dec, rest);
    }
  }

  lemma DeliveryMatters(d: Dec, pieces: seq<seq<byte>>)
    requires pieces != []
    ensures Feed(d, pieces).status != Call(d, Concat(pieces)).status <==>
            RuleFiresEarly(d, pieces) && Call(d, Concat(pieces)).status != Err(Malformed)
  {
    if RuleFiresEarly(d, pieces) {
      EarlyRuleRefuses(d, pieces);
    } else {
      DeliveryInvariance(d, pieces);
    }
  }
}
