/** The order and the contents of the writes to the caller's header array, in every run. */
module HeadProtocol {
  import opened Bytes
  import opened HeadSpec
  import opened HeadFinality

  /** A name lies in the buffer from `lo` on and consists of token characters; if its slot is
      completed it is not empty, and a slot without a name is not the first. */
  ghost predicate NameFits(buf: seq<byte>, w: Write, n: nat, lo: nat, completed: bool) {
    && w.Name? && w.i == n
    && match w.name
       case None => n > 0
       case Some(s) =>
         && lo <= s.off && s.off + s.len < |buf|
         && (forall j :: s.off <= j < s.off + s.len ==> IsTchar(buf[j]))
         && (completed ==> s.len > 0)
  }

  /** A value lies in the buffer from `lo` on, is text, and does not end with a blank. */
  ghost predicate ValueFits(buf: seq<byte>, w: Write, n: nat, lo: nat) {
    && w.Value? && w.i == n
    && lo <= w.value.off && w.value.off + w.value.len < |buf|
    && (forall j :: w.value.off <= j < w.value.off + w.value.len ==> Accepts(Text, buf[j]))
    && (w.value.len > 0 ==> !IsBlank(buf[w.value.off + w.value.len - 1]))
  }

  /** Where the next span may start: behind a name and its delimiter, or behind a value and
      its line break. */
  ghost function Behind(w: Write, lo: nat): nat {
    match w
    case Name(_, None) => lo
    case Name(_, Some(s)) => s.off + s.len + 1
    case Value(_, s) => s.off + s.len + 1
  }

  /** The protocol from slot `n` on: name, value, name, value, each in the next slot below the
      capacity, each span behind the one before; only the last slot may lack its value. */
  ghost predicate Follows(buf: seq<byte>, log: seq<Write>, n: nat, max: nat, lo: nat)
    decreases |log|
  {
    log != [] ==>
      && n < max
      && NameFits(buf, log[0], n, lo, |log| > 1)
      && (|log| > 1 ==>
            && ValueFits(buf, log[1], n, Behind(log[0], lo))
            && Follows(buf, log[2..], n + 1, max, Behind(log[1], lo)))
  }

  lemma FollowsLower(buf: seq<byte>, log: seq<Write>, n: nat, max: nat, lo: nat, lo': nat)
    requires Follows(buf, log, n, max, lo) && lo' <= lo
    ensures Follows(buf, log, n, max, lo')
  {
  }

  lemma FollowsNext(buf: seq<byte>, line: seq<Write>, tail: seq<Write>, n: nat, max: nat, lo: nat, q: nat)
    requires |line| == 2 && Follows(buf, line, n, max, lo) && Behind(line[1], lo) <= q
    requires Follows(buf, tail, n + 1, max, q)
    ensures Follows(buf, line + tail, n, max, lo)
  {
    var log := line + tail;
    assert log[2..] == tail;
    FollowsLower(buf, tail, n + 1, max, q, Behind(line[1], lo));
  }

  lemma ValueFollows(buf: seq<byte>, p: nat, n: nat, max: nat, name: Write, lo: nat)
    requires p <= |buf| && n < max && Behind(name, lo) <= p
    requires NameFits(buf, name, n, lo, true)
    ensures var line := ScanValue(buf, p, n, name);
            && Follows(buf, line.log, n, max, lo)
            && (line.res.Ok? ==> |line.log| == 2 && Behind(line.log[1], lo) <= line.res.value)
  {
    hide Skip, RTrim, ScanEol;
    match ScanEol(buf, p)
    case Err(_) =>
    case Ok((e, q)) =>
      var log := ScanValue(buf, p, n, name).log;
      assert log[2..] == [];
  }

  lemma FieldFits(buf: seq<byte>, p: nat, n: nat)
    requires p <= |buf|
    ensures var (name, start) := FieldName(buf, p);
            && (name.Some? ==> NameFits(buf, Name(n, name), n, p, start.Ok?))
            && (start.Ok? ==> Behind(Name(n, name), p) <= start.value)
  {
  }

  lemma LineFollows(buf: seq<byte>, p: nat, n: nat, max: nat)
    requires p < |buf| && n < max
    ensures var line := HeaderLine(buf, p, n);
            && Follows(buf, line.log, n, max, p)
            && (line.res.Ok? ==> Behind(line.log[1], p) <= line.res.value)
  {
    if n != 0 && IsBlank(buf[p]) {
      ValueFollows(buf, p, n, max, Name(n, None), p);
    } else {
      var (name, start) := FieldName(buf, p);
      FieldFits(buf, p, n);
      if start.Ok? {
        ValueFollows(buf, start.value, n, max, Name(n, name), p);
      }
    }
  }

  /** The whole log of a block. */
  function LogOf(buf: seq<byte>, p: nat, n: nat, max: nat, log: seq<Write>): seq<Write>
    requires p <= |buf|
  {
    Headers(buf, p, n, max, log).log
  }

  predicate LineStarts(buf: seq<byte>, p: nat, n: nat, max: nat) {
    p < |buf| && buf[p] != CR && buf[p] != LF && n < max
  }

  lemma LogUnfold(buf: seq<byte>, p: nat, n: nat, max: nat, log: seq<Write>)
    requires p <= |buf| && n <= max
    ensures LogOf(buf, p, n, max, log) ==
            if !LineStarts(buf, p, n, max) then log
            else match HeaderLine(buf, p, n).res
              case Ok(q) => LogOf(buf, q, n + 1, max, log + HeaderLine(buf, p, n).log)
              case Err(_) => log + HeaderLine(buf, p, n).log
  {
    if LineStarts(buf, p, n, max) {
      HeadersUnfold(buf, p, n, max, log);
    }
  }

  /** The writes a block adds to its log follow the protocol. */
  lemma {:induction false} BlockFollows(buf: seq<byte>, p: nat, n: nat, max: nat, log: seq<Write>)
    returns (tail: seq<Write>)
    requires p <= |buf| && n <= max
    ensures LogOf(buf, p, n, max, log) == log + tail && Follows(buf, tail, n, max, p)
    decreases |buf| - p
  {
    hide LogOf, HeaderLine;
    LogUnfold(buf, p, n, max, log);
    if !LineStarts(buf, p, n, max) {
      tail := [];
    } else {
      var line := HeaderLine(buf, p, n);
      LineFollows(buf, p, n, max);
      tail := line.log;
      if line.res.Ok? {
        var rest := BlockFollows(buf, line.res.value, n + 1, max, log + line.log);
        FollowsNext(buf, line.log, rest, n, max, p, line.res.value);
        tail := line.log + rest;
        assert log + line.log + rest == log + (line.log + rest);
      }
    }
  }

  /** So do the writes of a whole block, and the trace of a sink that starts empty. */
  lemma HeadersFollow(buf: seq<byte>, p: nat, max: nat, trace: seq<Write>)
    requires p <= |buf|
    ensures Follows(buf, Headers(buf, p, 0, max, []).log, 0, max, 0)
    ensures trace == [] ==> Follows(buf, trace + Headers(buf, p, 0, max, []).log, 0, max, 0)
  {
    hide Headers;
    var tail := BlockFollows(buf, p, 0, max, []);
    assert [] + tail == tail;
    FollowsLower(buf, tail, 0, max, p, 0);
  }

  lemma RequestFollows(buf: seq<byte>, p: nat, max: nat, h: HeadRun)
    requires p <= |buf| && h.log == []
    ensures Follows(buf, RequestVersion(buf, p, max, h).log, 0, max, 0)
  {
    match Version(buf, p)
    case Err(_) =>
    case Ok((_, q)) =>
      match Break(buf, q)
      case Err(_) =>
      case Ok(q') => HeadersFollow(buf, q', max, []);
  }

  lemma ResponseFollows(buf: seq<byte>, p: nat, max: nat, h: HeadRun)
    requires p <= |buf| && h.log == []
    ensures Follows(buf, ResponseReason(buf, p, max, h).log, 0, max, 0)
  {
    var (_, next) := Reason(buf, p);
    if next.Ok? {
      HeadersFollow(buf, next.value, max, []);
    }
  }

  /** The theorem: whatever the input and the verdict, the writes follow the protocol. */
  lemma WritesFollowProtocol(kind: Kind, buf: seq<byte>, max: nat)
    ensures Follows(buf, Parse(kind, buf, max).log, 0, max, 0)
  {
    match kind
    case Block =>
      HeadersFollow(buf, 0, max, []);
    case Request =>
      forall p: nat, h: HeadRun | p <= |buf| && h.log == []
        ensures Follows(buf, RequestVersion(buf, p, max, h).log, 0, max, 0) {
        RequestFollows(buf, p, max, h);
      }
    case Response =>
      forall p: nat, h: HeadRun | p <= |buf| && h.log == []
        ensures Follows(buf, ResponseReason(buf, p, max, h).log, 0, max, 0) {
        ResponseFollows(buf, p, max, h);
      }
  }

  /** Behind the gate too, where a parse that is not attempted writes nothing: the trace of a
      sink that starts empty follows the protocol. */
  lemma TraceFollows(kind: Kind, buf: seq<byte>, max: nat, lastLen: nat, trace: seq<Write>)
    ensures trace == [] ==> Follows(buf, trace + Gated(kind, buf, max, lastLen).log, 0, max, 0)
  {
    hide Parse, Gate;
    WritesFollowProtocol(kind, buf, max);
    var log := Gated(kind, buf, max, lastLen).log;
    assert [] + log == log;
  }

  // What the protocol means, write by write.

  ghost function SpanOf(w: Write): Option<Span> {
    match w
    case Name(_, name) => name
    case Value(_, value) => Some(value)
  }

  /** Every span of a log lies in the buffer, from `lo` on. */
  ghost predicate FromOn(buf: seq<byte>, log: seq<Write>, lo: nat) {
    forall k :: 0 <= k < |log| && SpanOf(log[k]).Some? ==>
      lo <= SpanOf(log[k]).value.off && SpanOf(log[k]).value.off + SpanOf(log[k]).value.len <= |buf|
  }

  ghost predicate Disjoint(a: Write, b: Write) {
    SpanOf(a).Some? && SpanOf(b).Some? ==> SpanOf(a).value.off + SpanOf(a).value.len < SpanOf(b).value.off
  }

  /** The `k`th slot is written by the writes `2k` and `2k + 1`, below the capacity. */
  lemma {:induction false} SlotsInOrder(buf: seq<byte>, log: seq<Write>, n: nat, max: nat, lo: nat, k: nat)
    requires Follows(buf, log, n, max, lo)
    ensures 2 * k < |log| ==> log[2 * k].Name? && log[2 * k].i == n + k < max
    ensures 2 * k + 1 < |log| ==> log[2 * k + 1].Value? && log[2 * k + 1].i == n + k
    ensures 2 * k + 1 < |log| && log[2 * k].name.Some? ==> log[2 * k].name.value.len > 0
    ensures 2 * k < |log| && log[2 * k].name.None? ==> n + k > 0
    decreases k
  {
    if k > 0 && |log| > 1 {
      var rest := log[2..];
      SlotsInOrder(buf, rest, n + 1, max, Behind(log[1], lo), k - 1);
      assert 2 * k < |log| ==> rest[2 * (k - 1)] == log[2 * k];
      assert 2 * k + 1 < |log| ==> rest[2 * (k - 1) + 1] == log[2 * k + 1];
    }
  }

  lemma {:induction false} SpansFromOn(buf: seq<byte>, log: seq<Write>, n: nat, max: nat, lo: nat)
    requires Follows(buf, log, n, max, lo)
    ensures FromOn(buf, log, lo)
    decreases |log|
  {
    if |log| > 1 {
      var rest := log[2..];
      SpansFromOn(buf, rest, n + 1, max, Behind(log[1], lo));
      forall k | 0 <= k < |log| && SpanOf(log[k]).Some?
        ensures lo <= SpanOf(log[k]).value.off && SpanOf(log[k]).value.off + SpanOf(log[k]).value.len <= |buf| {
        if k > 1 {
          assert log[k] == rest[k - 2];
        }
      }
    }
  }

  /** Spans lie in the buffer, in the order they are written, and do not touch. */
  lemma {:induction false} SpansIncrease(buf: seq<byte>, log: seq<Write>, n: nat, max: nat, lo: nat, a: nat, b: nat)
    requires Follows(buf, log, n, max, lo) && a < b < |log|
    ensures Disjoint(log[a], log[b])
    decreases |log|
  {
    var rest := log[2..];
    SpansFromOn(buf, rest, n + 1, max, Behind(log[1], lo));
    if a > 1 {
      SpansIncrease(buf, rest, n + 1, max, Behind(log[1], lo), a - 2, b - 2);
    } else if b > 1 {
      assert log[b] == rest[b - 2];
    }
  }
}
