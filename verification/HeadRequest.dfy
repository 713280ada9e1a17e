/** Request heads. */
module HeadRequest {
  import opened Bytes
  import opened HeadSpec
  import opened HeadSlots
  import HeadCore
  import HeadProtocol

  /** Outputs recorded as soon as each stage completes, so that a later failure leaves them. */
  class Progress {
    var method': Option<Span>
    var path: Option<Span>
    var version: Option<nat>
    var headers: nat

    constructor ()
      ensures method' == None && path == None && version == None && headers == 0
    {
      method', path, version, headers := None, None, None, 0;
    }

    /** The record holds exactly what a run publishes. */
    ghost predicate Holds(h: HeadRun)
      reads this
    {
      method' == h.method' && path == h.path && version == h.version && headers == Completed(h.log)
    }
  }

  method ParsePath(buf: seq<byte>, pos: nat) returns (r: Result<nat>)
    requires pos <= |buf|
    ensures r == ScanTarget(buf, pos)
  {
    var p := pos;
    while true
      invariant pos <= p <= |buf|
      invariant forall i :: pos <= i < p ==> Accepts(Target, buf[i])
      decreases |buf| - p
    {
      if p == |buf| {
        SkipIs(Target, buf, pos, p);
        return Err(Partial);
      }
      var b := buf[p];
      if b == SP {
        break;
      }
      var printable := HeadCore.WrappingSub(b, 0x20) < 0x5F;
      if !printable && (b < 0x20 || b == DEL) {
        SkipIs(Target, buf, pos, p);
        return Err(Malformed);
      }
      p := p + 1;
    }
    SkipIs(Target, buf, pos, p);
    return Ok(p);
  }

  /** Past the delimiter at `pos0` and any spaces behind it. */
  method SkipSpaces(buf: seq<byte>, pos0: nat) returns (r: Result<nat>)
    requires pos0 < |buf|
    ensures r == SkipTo(Spaces, buf, pos0 + 1)
  {
    var pos := pos0 + 1;
    while true
      invariant pos0 + 1 <= pos <= |buf|
      invariant forall i :: pos0 + 1 <= i < pos ==> Accepts(Spaces, buf[i])
      decreases |buf| - pos
    {
      if pos == |buf| {
        SkipIs(Spaces, buf, pos0 + 1, pos);
        return Err(Partial);
      }
      if buf[pos] != SP {
        SkipIs(Spaces, buf, pos0 + 1, pos);
        return Ok(pos);
      }
      pos := pos + 1;
    }
  }

  /** Past one empty line in front of the request, if there is one. */
  method SkipLeadingLine(buf: seq<byte>) returns (r: Result<nat>)
    ensures r == SkipEmptyLine(buf)
  {
    var pos := 0;
    if pos == |buf| {
      return Err(Partial);
    }
    if buf[pos] == CR {
      pos := pos + 1;
      if pos == |buf| {
        return Err(Partial);
      }
      if buf[pos] != LF {
        return Err(Malformed);
      }
      pos := pos + 1;
    } else if buf[pos] == LF {
      pos := pos + 1;
    }
    return Ok(pos);
  }

  /** The method and the spaces behind it. */
  method ReadMethod(buf: seq<byte>, ms: nat, prog: Progress) returns (next: Result<nat>)
    requires ms <= |buf| && prog.method' == None
    modifies prog`method'
    ensures (prog.method', next) == Word(Token(SP), buf, ms)
  {
    var token := HeadCore.ParseToken(buf, ms, SP);
    if token.Err? {
      return Err(token.error);
    }
    prog.method' := Some(Span(ms, token.value - ms));
    next := SkipSpaces(buf, token.value);
  }

  /** The request target and the spaces behind it. */
  method ReadPath(buf: seq<byte>, ps: nat, prog: Progress) returns (next: Result<nat>)
    requires ps <= |buf| && prog.path == None
    modifies prog`path
    ensures (prog.path, next) == Word(Target, buf, ps)
  {
    var target := ParsePath(buf, ps);
    if target.Err? {
      return Err(target.error);
    }
    prog.path := Some(Span(ps, target.value - ps));
    next := SkipSpaces(buf, target.value);
  }

  /** From the version of the request line on. */
  method ParseVersionOn(buf: seq<byte>, pos0: nat, sink: RawSink, prog: Progress, ghost method': Option<Span>,
                        ghost path: Option<Span>)
    returns (r: Result<nat>)
    requires pos0 <= |buf| && sink.Valid()
    requires prog.Holds(NOTHING.(method' := method', path := path))
    modifies prog, sink.slots, sink`trace
    ensures var h := RequestVersion(buf, pos0, sink.cap, NOTHING.(method' := method', path := path));
            && r == h.res
            && prog.Holds(h)
            && sink.slots[..] == Apply(old(sink.slots[..]), h.log)
            && sink.trace == old(sink.trace) + h.log
  {
    var version := HeadCore.ParseHttpVersion(buf, pos0);
    if version.Err? {
      return Err(version.error);
    }
    prog.version := Some(version.value.0);
    var pos := version.value.1;
    if buf[pos] == CR {
      pos := pos + 1;
      if pos == |buf| {
        return Err(Partial);
      }
      if buf[pos] != LF {
        return Err(Malformed);
      }
      pos := pos + 1;
    } else if buf[pos] == LF {
      pos := pos + 1;
    } else {
      return Err(Malformed);
    }
    var count;
    r, count := HeadCore.ParseHeaders(buf, pos, sink, prog.headers);
    prog.headers := count;
  }

  /** From the request target on. */
  method ParseTargetOn(buf: seq<byte>, ps: nat, sink: RawSink, prog: Progress, ghost method': Option<Span>)
    returns (r: Result<nat>)
    requires ps <= |buf| && sink.Valid() && method'.Some?
    requires prog.Holds(NOTHING.(method' := method'))
    modifies prog, sink.slots, sink`trace
    ensures var h := RequestTarget(buf, ps, sink.cap, NOTHING.(method' := method'));
            && r == h.res
            && prog.Holds(h)
            && sink.slots[..] == Apply(old(sink.slots[..]), h.log)
            && sink.trace == old(sink.trace) + h.log
  {
    ApplyNone(sink.slots[..]);
    var next := ReadPath(buf, ps, prog);
    if next.Err? {
      return Err(next.error);
    }
    if prog.method'.value.len == 0 || prog.path.value.len == 0 {
      return Err(Malformed);
    }
    r := ParseVersionOn(buf, next.value, sink, prog, method', prog.path);
  }

  /** The whole request head. Each completed stage is recorded in `prog` before the next. */
  method ParseRequest(buf: seq<byte>, sink: RawSink, lastLen: nat, prog: Progress) returns (r: Result<nat>)
    requires sink.Valid() && prog.Holds(NOTHING)
    modifies prog, sink.slots, sink`trace
    ensures var h := Gated(Request, buf, sink.cap, lastLen);
            && r == h.res
            && prog.Holds(h)
            && sink.slots[..] == Apply(old(sink.slots[..]), h.log)
            && sink.trace == old(sink.trace) + h.log
    ensures old(sink.trace) == [] ==> HeadProtocol.Follows(buf, sink.trace, 0, sink.cap, 0)
  {
    hide Apply, Headers, Gate, RequestTarget, HeadProtocol.Follows;
    ApplyNone(sink.slots[..]);
    HeadProtocol.TraceFollows(Request, buf, sink.cap, lastLen, sink.trace);
    if lastLen != 0 {
      var complete := HeadCore.IsComplete(buf, lastLen);
      if complete.Err? {
        return Err(complete.error);
      }
    }
    var start := SkipLeadingLine(buf);
    if start.Err? {
      return Err(start.error);
    }
    var next := ReadMethod(buf, start.value, prog);
    if next.Err? {
      return Err(next.error);
    }
    r := ParseTargetOn(buf, next.value, sink, prog, prog.method');
  }
}
