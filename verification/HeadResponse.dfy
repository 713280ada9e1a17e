/** Response heads. */
module HeadResponse {
  import opened Bytes
  import opened HeadSpec
  import opened HeadSlots
  import HeadCore
  import HeadProtocol

  /** Outputs recorded as soon as each stage completes; the status after every digit. */
  class Progress {
    var version: Option<nat>
    var status: Option<nat>
    var reason: Option<Span>
    var headers: nat

    constructor ()
      ensures version == None && status == None && reason == None && headers == 0
    {
      version, status, reason, headers := None, None, None, 0;
    }

    /** The record holds exactly what a run publishes. */
    ghost predicate Holds(h: HeadRun)
      reads this
    {
      version == h.version && status == h.status && reason == h.reason && headers == Completed(h.log)
    }
  }

  /** The three status digits. */
  method ParseStatus(buf: seq<byte>, pos: nat, prog: Progress) returns (r: Result<nat>)
    requires pos <= |buf| && prog.status == None
    modifies prog`status
    ensures (r, prog.status) == Status(buf, pos)
  {
    if |buf| - pos < 4 {
      return Err(Partial);
    }
    var muls, v, i := [100, 10, 1], 0, 0;
    while i < 3
      invariant 0 <= i <= 3
      invariant i > 0 ==> IsDigit(buf[pos])
      invariant i > 1 ==> IsDigit(buf[pos + 1])
      invariant i > 2 ==> IsDigit(buf[pos + 2])
      invariant v == (if i > 0 then 100 * Digit(buf[pos]) else 0)
                   + (if i > 1 then 10 * Digit(buf[pos + 1]) else 0)
                   + (if i > 2 then Digit(buf[pos + 2]) else 0)
      invariant prog.status == if i == 0 then None else Some(v)
    {
      var d := buf[pos + i];
      if !IsDigit(d) {
        return Err(Malformed);
      }
      v := v + muls[i] * Digit(d);
      prog.status := Some(v);
      i := i + 1;
    }
    return Ok(pos + 3);
  }

  /** Past the space behind the version and any further ones. */
  method SkipVersionSpaces(buf: seq<byte>, pos0: nat) returns (r: Result<nat>)
    requires pos0 < |buf|
    ensures r == if buf[pos0] != SP then Err(Malformed) else SkipTo(Spaces, buf, pos0 + 1)
  {
    if buf[pos0] != SP {
      return Err(Malformed);
    }
    var pos := pos0;
    while true
      invariant pos0 <= pos < |buf|
      invariant forall i :: pos0 + 1 <= i <= pos ==> Accepts(Spaces, buf[i])
      decreases |buf| - pos
    {
      pos := pos + 1;
      if pos == |buf| {
        SkipIs(Spaces, buf, pos0 + 1, pos);
        return Err(Partial);
      }
      if buf[pos] != SP {
        SkipIs(Spaces, buf, pos0 + 1, pos);
        return Ok(pos);
      }
    }
  }

  /** The reason phrase. It is published before its leading space is checked. */
  method ReadReason(buf: seq<byte>, ms: nat, prog: Progress) returns (next: Result<nat>)
    requires ms <= |buf| && prog.reason == None
    modifies prog`reason
    ensures (prog.reason, next) == Reason(buf, ms)
  {
    var eol := HeadCore.GetTokenToEol(buf, ms);
    if eol.Err? {
      return Err(eol.error);
    }
    var ml := eol.value.0 - ms;
    prog.reason := Some(Span(ms, ml));
    if ml != 0 {
      if buf[ms] == SP {
        var s, l := ms, ml;
        while l > 0 && buf[s] == SP
          invariant ms <= s <= |buf| && s + l == ms + ml
          invariant forall i :: ms <= i < s ==> Accepts(Spaces, buf[i])
          decreases l
        {
          s := s + 1;
          l := l - 1;
        }
        SkipIs(Spaces, buf, ms, s);
        prog.reason := Some(Span(s, l));
      } else {
        return Err(Malformed);
      }
    }
    return Ok(eol.value.1);
  }

  /** From the reason phrase on. */
  method ParseReasonOn(buf: seq<byte>, ms: nat, sink: RawSink, prog: Progress, ghost version: Option<nat>,
                       ghost status: Option<nat>)
    returns (r: Result<nat>)
    requires ms <= |buf| && sink.Valid()
    requires prog.Holds(NOTHING.(version := version, status := status))
    modifies prog, sink.slots, sink`trace
    ensures var h := ResponseReason(buf, ms, sink.cap, NOTHING.(version := version, status := status));
            && r == h.res
            && prog.Holds(h)
            && sink.slots[..] == Apply(old(sink.slots[..]), h.log)
            && sink.trace == old(sink.trace) + h.log
  {
    ApplyNone(sink.slots[..]);
    var next := ReadReason(buf, ms, prog);
    if next.Err? {
      return Err(next.error);
    }
    var count;
    r, count := HeadCore.ParseHeaders(buf, next.value, sink, prog.headers);
    prog.headers := count;
  }

  /** The whole response head. Each completed stage is recorded in `prog` before the next. */
  method ParseResponse(buf: seq<byte>, sink: RawSink, lastLen: nat, prog: Progress) returns (r: Result<nat>)
    requires sink.Valid() && prog.Holds(NOTHING)
    modifies prog, sink.slots, sink`trace
    ensures var h := Gated(Response, buf, sink.cap, lastLen);
            && r == h.res
            && prog.Holds(h)
            && sink.slots[..] == Apply(old(sink.slots[..]), h.log)
            && sink.trace == old(sink.trace) + h.log
    ensures old(sink.trace) == [] ==> HeadProtocol.Follows(buf, sink.trace, 0, sink.cap, 0)
  {
    hide Apply, Headers, Gate, ResponseReason, Reason, HeadProtocol.Follows;
    ApplyNone(sink.slots[..]);
    HeadProtocol.TraceFollows(Response, buf, sink.cap, lastLen, sink.trace);
    if lastLen != 0 {
      var complete := HeadCore.IsComplete(buf, lastLen);
      if complete.Err? {
        return Err(complete.error);
      }
    }
    var version := HeadCore.ParseHttpVersion(buf, 0);
    if version.Err? {
      return Err(version.error);
    }
    prog.version := Some(version.value.0);
    var next := SkipVersionSpaces(buf, version.value.1);
    if next.Err? {
      return Err(next.error);
    }
    var pos := ParseStatus(buf, next.value, prog);
    if pos.Err? {
      return Err(pos.error);
    }
    r := ParseReasonOn(buf, pos.value, sink, prog, prog.version, prog.status);
  }
}
