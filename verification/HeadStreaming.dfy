/** The gate against slow senders never changes the outcome of a head that parses. */
module HeadStreaming {
  import opened Bytes
  import opened HeadSpec
  import opened HeadFinality
  import opened HeadSlots

  /** In `buf[lo..hi]` every carriage return is followed by a line feed. */
  ghost predicate NoBareCr(buf: seq<byte>, lo: nat, hi: nat) {
    hi <= |buf| && forall i :: lo <= i < hi && buf[i] == CR ==> i + 1 < hi && buf[i + 1] == LF
  }

  lemma NoBareCrJoins(buf: seq<byte>, lo: nat, mid: nat, hi: nat)
    requires mid <= hi && NoBareCr(buf, lo, mid) && NoBareCr(buf, mid, hi)
    ensures NoBareCr(buf, lo, hi)
  {
  }

  lemma SkippedNoCr(c: Class, buf: seq<byte>, p: nat)
    requires p <= |buf|
    ensures NoBareCr(buf, p, Skip(c, buf, p))
  {
  }

  lemma EolNoBareCr(buf: seq<byte>, p: nat)
    requires p <= |buf| && ScanEol(buf, p).Ok?
    ensures NoBareCr(buf, p, ScanEol(buf, p).value.1) && buf[ScanEol(buf, p).value.1 - 1] == LF
  {
  }

  /** A word or a field name, its one delimiter and the blanks behind it. */
  lemma DelimitedNoCr(c: Class, stop: byte, c': Class, buf: seq<byte>, p: nat)
    requires p <= |buf| && ScanUntil(c, stop, buf, p).Ok? && stop != CR
    ensures ScanUntil(c, stop, buf, p).value < |buf|
    ensures var e := ScanUntil(c, stop, buf, p).value;
            NoBareCr(buf, p, Skip(c', buf, e + 1))
  {
    var e := ScanUntil(c, stop, buf, p).value;
    SkippedNoCr(c, buf, p);
    SkippedNoCr(c', buf, e + 1);
  }

  lemma LineNoBareCr(buf: seq<byte>, p: nat, n: nat)
    requires p < |buf| && HeaderLine(buf, p, n).res.Ok?
    ensures NoBareCr(buf, p, HeaderLine(buf, p, n).res.value) && buf[HeaderLine(buf, p, n).res.value - 1] == LF
  {
    hide Skip, ScanEol, NoBareCr;
    if n != 0 && IsBlank(buf[p]) {
      EolNoBareCr(buf, p);
    } else {
      var (_, start) := FieldName(buf, p);
      DelimitedNoCr(Token(COLON), COLON, Blanks, buf, p);
      EolNoBareCr(buf, start.value);
      NoBareCrJoins(buf, p, start.value, NamedLine(buf, p, n).res.value);
    }
  }

  /** A line feed at `e`, then a line break that ends at `k`. */
  ghost predicate TwoBreaks(buf: seq<byte>, e: nat, k: nat) {
    e + 1 < |buf| && buf[e] == LF && Break(buf, e + 1) == Ok(k)
  }

  /** A block behind a line feed, or with a header in it, ends with two line breaks. */
  lemma {:induction false} BlockShape(buf: seq<byte>, p: nat, n: nat, max: nat, log: seq<Write>) returns (e: nat)
    requires p < |buf| && Headers(buf, p, n, max, log).res.Ok?
    requires (p > 0 && buf[p - 1] == LF) || (buf[p] != CR && buf[p] != LF)
    ensures p <= e + 1
    ensures TwoBreaks(buf, e, Headers(buf, p, n, max, log).res.value)
    ensures NoBareCr(buf, p, Headers(buf, p, n, max, log).res.value)
    decreases |buf| - p
  {
    hide HeaderLine;
    if buf[p] == CR || buf[p] == LF {
      e := p - 1;
    } else {
      HeadersUnfold(buf, p, n, max, log);
      LineNoBareCr(buf, p, n);
      var line := HeaderLine(buf, p, n);
      e := BlockShape(buf, line.res.value, n + 1, max, log + line.log);
      NoBareCrJoins(buf, p, line.res.value, Headers(buf, p, n, max, log).res.value);
    }
  }

  lemma WordNoCr(c: Class, buf: seq<byte>, p: nat)
    requires p <= |buf| && Word(c, buf, p).1.Ok?
    ensures NoBareCr(buf, p, Word(c, buf, p).1.value)
  {
    DelimitedNoCr(c, SP, Spaces, buf, p);
  }

  lemma VersionNoCr(buf: seq<byte>, p: nat)
    requires p <= |buf| && Version(buf, p).Ok?
    ensures NoBareCr(buf, p, p + 8)
  {
    forall i | p <= i < p + 7 ensures buf[i] != CR {
      assert buf[i] == buf[p..p + 7][i - p] == PREFIX[i - p];
    }
  }

  lemma RequestVersionShape(buf: seq<byte>, p: nat, max: nat, h: HeadRun) returns (e: nat)
    requires p <= |buf| && RequestVersion(buf, p, max, h).res.Ok?
    ensures TwoBreaks(buf, e, RequestVersion(buf, p, max, h).res.value)
    ensures NoBareCr(buf, p, RequestVersion(buf, p, max, h).res.value)
  {
    hide Headers;
    var q := Version(buf, p).value.1;
    var q' := Break(buf, q).value;
    var k := RequestVersion(buf, p, max, h).res.value;
    VersionNoCr(buf, p);
    e := BlockShape(buf, q', 0, max, []);
    NoBareCrJoins(buf, q, q', k);
    NoBareCrJoins(buf, p, q, k);
  }

  lemma RequestShape(buf: seq<byte>, max: nat) returns (e: nat)
    requires ParseRequest(buf, max).res.Ok?
    ensures TwoBreaks(buf, e, ParseRequest(buf, max).res.value)
    ensures NoBareCr(buf, 0, ParseRequest(buf, max).res.value)
  {
    var p := SkipEmptyLine(buf).value;
    var (method', next) := Word(Token(SP), buf, p);
    var (path, next') := Word(Target, buf, next.value);
    var h := NOTHING.(method' := method');
    var k := ParseRequest(buf, max).res.value;
    assert k == RequestTarget(buf, next.value, max, h).res.value;
    WordNoCr(Token(SP), buf, p);
    WordNoCr(Target, buf, next.value);
    e := RequestVersionShape(buf, next'.value, max, h.(path := path));
    NoBareCrJoins(buf, 0, p, next.value);
    NoBareCrJoins(buf, 0, next.value, next'.value);
    NoBareCrJoins(buf, 0, next'.value, k);
  }

  lemma ReasonShape(buf: seq<byte>, p: nat, max: nat, h: HeadRun) returns (e: nat)
    requires p <= |buf| && ResponseReason(buf, p, max, h).res.Ok?
    ensures TwoBreaks(buf, e, ResponseReason(buf, p, max, h).res.value)
    ensures NoBareCr(buf, p, ResponseReason(buf, p, max, h).res.value)
  {
    hide Headers;
    var (_, next) := Reason(buf, p);
    EolNoBareCr(buf, p);
    e := BlockShape(buf, next.value, 0, max, []);
    NoBareCrJoins(buf, p, next.value, ResponseReason(buf, p, max, h).res.value);
  }

  lemma StatusShape(buf: seq<byte>, p: nat, max: nat, h: HeadRun) returns (e: nat)
    requires p <= |buf| && ResponseStatus(buf, p, max, h).res.Ok?
    ensures TwoBreaks(buf, e, ResponseStatus(buf, p, max, h).res.value)
    ensures NoBareCr(buf, p, ResponseStatus(buf, p, max, h).res.value)
  {
    hide ResponseReason;
    var (next, status) := Status(buf, p);
    var k := ResponseStatus(buf, p, max, h).res.value;
    assert NoBareCr(buf, p, next.value);
    e := ReasonShape(buf, next.value, max, h.(status := status));
    NoBareCrJoins(buf, p, next.value, k);
  }

  lemma ResponseShape(buf: seq<byte>, max: nat) returns (e: nat)
    requires ParseResponse(buf, max).res.Ok?
    ensures TwoBreaks(buf, e, ParseResponse(buf, max).res.value)
    ensures NoBareCr(buf, 0, ParseResponse(buf, max).res.value)
  {
    hide ResponseStatus;
    var (v, p) := Version(buf, 0).value;
    var q := SkipTo(Spaces, buf, p + 1).value;
    var k := ParseResponse(buf, max).res.value;
    VersionNoCr(buf, 0);
    SkippedNoCr(Spaces, buf, p + 1);
    e := StatusShape(buf, q, max, NOTHING.(version := Some(v)));
    NoBareCrJoins(buf, 0, p, q);
    NoBareCrJoins(buf, 0, q, k);
  }

  /** A head that parses, with a request line, a status line or a header, ends with two line
      breaks in a row and has no bare carriage return. */
  lemma HeadShape(kind: Kind, buf: seq<byte>, max: nat) returns (e: nat)
    requires Parse(kind, buf, max).res.Ok?
    requires kind.Block? ==> buf[0] != CR && buf[0] != LF
    ensures TwoBreaks(buf, e, Parse(kind, buf, max).res.value)
    ensures NoBareCr(buf, 0, Parse(kind, buf, max).res.value)
  {
    match kind
    case Request => e := RequestShape(buf, max);
    case Response => e := ResponseShape(buf, max);
    case Block => e := BlockShape(buf, 0, 0, max, []);
  }

  /** The gate finds the two line breaks if it starts before the second one. */
  lemma {:induction false} GatePasses(buf: seq<byte>, p: nat, count: nat, e: nat, k: nat)
    requires count <= 1 && p <= e + 1 && (p == e + 1 ==> count == 1)
    requires TwoBreaks(buf, e, k) && NoBareCr(buf, p, k)
    ensures Gate(buf, p, count).Ok?
    decreases |buf| - p
  {
    if buf[p] == CR || buf[p] == LF {
      assert buf[p] == CR && p < e ==> p + 1 <= e;
      assert buf[p] == CR && p <= e ==> buf[p + 1] == LF;
      if count == 0 {
        GatePasses(buf, Break(buf, p).value, 1, e, k);
      }
    } else {
      GatePasses(buf, p + 1, 0, e, k);
    }
  }

  /** The gate passed or asks for more. */
  ghost predicate MayPass(g: Result<()>) {
    g.Err? ==> g.error == Partial
  }

  /** On a part of a well-formed head the gate does not refuse. */
  lemma {:induction false} GateDoesNotRefuse(buf: seq<byte>, m: nat, p: nat, count: nat, k: nat)
    requires m <= k && NoBareCr(buf, p, k)
    ensures MayPass(Gate(buf[..m], p, count))
    decreases |buf| - p
  {
    var part := buf[..m];
    if p < m {
      assert part[p] == buf[p];
      if part[p] == CR || part[p] == LF {
        assert p + 1 < m ==> part[p + 1] == buf[p + 1];
        match Break(part, p)
        case Err(_) =>
        case Ok(q) =>
          if count != 1 {
            GateDoesNotRefuse(buf, m, q, count + 1, k);
          }
      } else {
        GateDoesNotRefuse(buf, m, p + 1, 0, k);
      }
    }
  }

  /** Reading a longer buffer never changes a successful gate. */
  lemma {:induction false} GateFinal(buf: seq<byte>, full: seq<byte>, p: nat, count: nat)
    requires buf <= full && Gate(buf, p, count).Ok?
    ensures Gate(full, p, count).Ok?
    decreases |buf| - p
  {
    if buf[p] == CR || buf[p] == LF {
      BreakFinal(buf, full, p);
      if count != 1 {
        GateFinal(buf, full, Break(buf, p).value, count + 1);
      }
    } else {
      GateFinal(buf, full, p + 1, 0);
    }
  }

  /** A head that parses does so on its own bytes, and on fewer bytes asks for more. */
  lemma PrefixVerdict(kind: Kind, full: seq<byte>, max: nat, m: nat)
    requires Parse(kind, full, max).res.Ok? && m <= |full|
    ensures if m < Parse(kind, full, max).res.value then Parse(kind, full[..m], max).res == Err(Partial)
            else Parse(kind, full[..m], max) == Parse(kind, full, max)
  {
    VerdictsAreFinal(kind, full[..m], full, max);
  }

  /** What the gate says to `m` bytes of a head when the previous attempt was short of it. */
  lemma GateVerdict(kind: Kind, full: seq<byte>, max: nat, last: nat, m: nat)
    requires Parse(kind, full, max).res.Ok? && m <= |full|
    requires last < Parse(kind, full, max).res.value
    requires kind.Block? ==> full[0] != CR && full[0] != LF
    ensures if m < Parse(kind, full, max).res.value then MayPass(Gate(full[..m], GateStart(last), 0))
            else Gate(full[..m], GateStart(last), 0).Ok?
  {
    hide Parse, Gate;
    var k, start := Parse(kind, full, max).res.value, GateStart(last);
    var e := HeadShape(kind, full, max);
    assert NoBareCr(full, start, k);
    if m < k {
      GateDoesNotRefuse(full, m, start, 0, k);
    } else {
      GatePasses(full[..k], start, 0, e, k);
      GateFinal(full[..k], full[..m], start, 0);
    }
  }

  /** One attempt of a streaming caller: `m` bytes have arrived, `last` had arrived at the
      previous attempt, which was short of the head. The attempt asks for more until the head
      is there, and then gives what a single cold parse gives. */
  lemma GateIsTransparent(kind: Kind, full: seq<byte>, max: nat, last: nat, m: nat)
    requires Parse(kind, full, max).res.Ok? && last <= m <= |full|
    requires last < Parse(kind, full, max).res.value
    requires kind.Block? ==> full[0] != CR
    ensures if m < Parse(kind, full, max).res.value then Gated(kind, full[..m], max, last).res == Err(Partial)
            else Gated(kind, full[..m], max, last) == Parse(kind, full, max)
  {
    PrefixVerdict(kind, full, max, m);
    if last != 0 {
      GateVerdict(kind, full, max, last, m);
    }
  }

  /** A streaming caller: parse each prefix whose length is listed, with the length of the
      previous one, until the verdict is not Partial. */
  function Stream(kind: Kind, full: seq<byte>, max: nat, last: nat, lens: seq<nat>): HeadRun
    requires forall i :: 0 <= i < |lens| ==> lens[i] <= |full|
    decreases |lens|
  {
    if lens == [] then NOTHING
    else
      var h := Gated(kind, full[..lens[0]], max, last);
      if h.res == Err(Partial) then Stream(kind, full, max, lens[0], lens[1..]) else h
  }

  ghost predicate Arrivals(last: nat, lens: seq<nat>, n: nat)
    decreases |lens|
  {
    if lens == [] then last <= n else last <= lens[0] && Arrivals(lens[0], lens[1..], n)
  }

  lemma {:induction false} ArrivalsBounded(last: nat, lens: seq<nat>, n: nat)
    requires Arrivals(last, lens, n)
    ensures last <= n && forall i :: 0 <= i < |lens| ==> lens[i] <= n
    decreases |lens|
  {
    if lens != [] {
      ArrivalsBounded(lens[0], lens[1..], n);
      forall i | 0 <= i < |lens| ensures lens[i] <= n {
        if i > 0 {
          assert lens[i] == lens[1..][i - 1];
        }
      }
    }
  }

  ghost predicate Reaches(lens: seq<nat>, k: nat) {
    exists i :: 0 <= i < |lens| && lens[i] >= k
  }

  lemma ReachesFirst(lens: seq<nat>, k: nat)
    requires lens != []
    ensures Reaches(lens, k) <==> lens[0] >= k || Reaches(lens[1..], k)
  {
    var rest := lens[1..];
    if i :| 0 <= i < |lens| && lens[i] >= k {
      assert i > 0 ==> rest[i - 1] == lens[i];
    }
    if i :| 0 <= i < |rest| && rest[i] >= k {
      assert lens[i + 1] == rest[i];
    }
  }

  /** Streaming equals one cold parse, however the bytes arrive: when the arrivals reach the
      end of the head the outcome is the cold one, and before that the caller is told to
      wait. */
  lemma {:induction false} StreamingEqualsOneShot(kind: Kind, full: seq<byte>, max: nat, last: nat, lens: seq<nat>)
    requires Parse(kind, full, max).res.Ok? && last < Parse(kind, full, max).res.value
    requires kind.Block? ==> full[0] != CR
    requires Arrivals(last, lens, |full|)
    ensures forall i :: 0 <= i < |lens| ==> lens[i] <= |full|
    ensures if Reaches(lens, Parse(kind, full, max).res.value)
            then Stream(kind, full, max, last, lens) == Parse(kind, full, max)
            else Stream(kind, full, max, last, lens).res == Err(Partial)
    decreases |lens|
  {
    hide Parse, Gated;
    ArrivalsBounded(last, lens, |full|);
    if lens != [] {
      var k := Parse(kind, full, max).res.value;
      ReachesFirst(lens, k);
      GateIsTransparent(kind, full, max, last, lens[0]);
      if lens[0] < k {
        StreamingEqualsOneShot(kind, full, max, lens[0], lens[1..]);
      }
    }
  }

  /** The caller's header array behind a streaming run that starts with it holding `slots`. */
  function StreamSlots(kind: Kind, full: seq<byte>, max: nat, last: nat, lens: seq<nat>,
                       slots: seq<PhrHeader>): seq<PhrHeader>
    requires forall i :: 0 <= i < |lens| ==> lens[i] <= |full|
    decreases |lens|
  {
    if lens == [] then slots
    else
      var h := Gated(kind, full[..lens[0]], max, last);
      var slots' := Apply(slots, h.log);
      if h.res == Err(Partial) then StreamSlots(kind, full, max, lens[0], lens[1..], slots') else slots'
  }

  /** The writes of an attempt are the first ones of the head, and those of a later attempt,
      if it writes at all, begin with them. */
  lemma AttemptWrites(kind: Kind, full: seq<byte>, max: nat, last: nat, m: nat)
    requires last <= m <= |full|
    ensures Parse(kind, full[..last], max).log <= Parse(kind, full[..m], max).log <= Parse(kind, full, max).log
    ensures var log := Gated(kind, full[..m], max, last).log; log == [] || log == Parse(kind, full[..m], max).log
  {
    hide Parse, Gate;
    VerdictsAreFinal(kind, full[..last], full[..m], max);
    VerdictsAreFinal(kind, full[..m], full, max);
  }

  /** The array behind a streaming run is the one a single parse leaves that stops after `log`;
      once the head is there, `log` is all of its writes. */
  lemma {:induction false} StreamWrites(kind: Kind, full: seq<byte>, max: nat, last: nat, lens: seq<nat>,
                                        slots: seq<PhrHeader>, done: seq<Write>)
    returns (log: seq<Write>)
    requires Parse(kind, full, max).res.Ok? && last < Parse(kind, full, max).res.value
    requires kind.Block? ==> full[0] != CR
    requires Arrivals(last, lens, |full|) && forall i :: 0 <= i < |lens| ==> lens[i] <= |full|
    requires last <= |full| && done <= Parse(kind, full[..last], max).log
    ensures log <= Parse(kind, full, max).log
    ensures StreamSlots(kind, full, max, last, lens, Apply(slots, done)) == Apply(slots, log)
    ensures Reaches(lens, Parse(kind, full, max).res.value) ==> log == Parse(kind, full, max).log
    decreases |lens|
  {
    hide Parse, Gated, Apply;
    if lens == [] {
      AttemptWrites(kind, full, max, last, last);
      log := done;
    } else {
      var m, k := lens[0], Parse(kind, full, max).res.value;
      ReachesFirst(lens, k);
      AttemptWrites(kind, full, max, last, m);
      GateIsTransparent(kind, full, max, last, m);
      var more := Gated(kind, full[..m], max, last).log;
      var done' := if more == [] then done else more;
      ApplyAgain(slots, done, done');
      ApplyNone(Apply(slots, done));
      if m < k {
        log := StreamWrites(kind, full, max, m, lens[1..], slots, done');
      } else {
        ApplyAgain(slots, done, more);
        log := more;
      }
    }
  }

  /** Streaming leaves the header array of one cold parse behind, and until the head is there
      the array of some part of its writes. */
  lemma StreamingLeavesOneShotSlots(kind: Kind, full: seq<byte>, max: nat, lens: seq<nat>, slots: seq<PhrHeader>)
    requires Parse(kind, full, max).res.Ok?
    requires kind.Block? ==> full[0] != CR
    requires Arrivals(0, lens, |full|)
    ensures forall i :: 0 <= i < |lens| ==> lens[i] <= |full|
    ensures Reaches(lens, Parse(kind, full, max).res.value) ==>
              StreamSlots(kind, full, max, 0, lens, slots) == Apply(slots, Parse(kind, full, max).log)
    ensures exists log ::
              log <= Parse(kind, full, max).log && StreamSlots(kind, full, max, 0, lens, slots) == Apply(slots, log)
  {
    hide Parse, Gated, Apply;
    ArrivalsBounded(0, lens, |full|);
    ApplyNone(slots);
    var log := StreamWrites(kind, full, max, 0, lens, slots, []);
  }

  /** Whether every way of delivering a header block gives its cold outcome. */
  ghost predicate StreamsCleanly(full: seq<byte>, max: nat)
    requires Parse(Block, full, max).res.Ok?
  {
    forall last: nat, m: nat :: last <= m <= |full| && last < Parse(Block, full, max).res.value <= m ==>
      Gated(Block, full[..m], max, last) == Parse(Block, full, max)
  }

  /** For header blocks the gate is exact: the only blocks it can delay are those that begin
      with a carriage return, that is, an empty block written CR LF, which has one line break
      where the gate waits for two. */
  lemma BlockStreamsIffNoCr(full: seq<byte>, max: nat)
    requires Parse(Block, full, max).res.Ok?
    ensures StreamsCleanly(full, max) <==> full[0] != CR
  {
    var k := Parse(Block, full, max).res.value;
    if full[0] != CR {
      forall last: nat, m: nat | last <= m <= |full| && last < k <= m
        ensures Gated(Block, full[..m], max, last) == Parse(Block, full, max)
      {
        if full[0] == LF {
          PrefixVerdict(Block, full, max, m);
        } else {
          GateIsTransparent(Block, full, max, last, m);
        }
      }
    } else {
      var part := full[..2];
      assert part == [CR, LF];
      assert Break(part, 0) == Ok(2);
      assert Gate(part, 2, 1) == Err(Partial);
      assert Gate(part, 0, 0) == Err(Partial);
      assert Gated(Block, part, max, 1).res == Err(Partial);
      assert 1 <= 2 <= |full| && 1 < k <= 2;
    }
  }
}
