/** The caller's outputs and the entry points that publish them. */
module HeadFfi {
  import opened Bytes
  import opened HeadSpec
  import opened HeadSlots
  import HeadCore
  import HeadRequest
  import HeadResponse

  /** `*num_headers`: the capacity on entry, the number of completed headers on return. */
  class Count {
    var n: nat

    constructor (n: nat)
      ensures this.n == n
    {
      this.n := n;
    }
  }

  ghost predicate IsPublished(p: Ptr, len: nat, span: Option<Span>) {
    match span
    case None => p == Null && len == 0
    case Some(s) => p == At(s.off) && len == s.len
  }

  class RequestOut {
    var method': Ptr
    var methodLen: nat
    var path: Ptr
    var pathLen: nat
    var minorVersion: int

    constructor ()
    {
      method', methodLen, path, pathLen, minorVersion := Null, 0, Null, 0, -1;
    }

    ghost predicate Publishes(h: HeadRun)
      reads this
    {
      && IsPublished(method', methodLen, h.method')
      && IsPublished(path, pathLen, h.path)
      && minorVersion == (match h.version case None => -1 case Some(v) => v)
    }
  }

  class ResponseOut {
    var minorVersion: int
    var status: int
    var reason: Ptr
    var reasonLen: nat

    constructor ()
    {
      minorVersion, status, reason, reasonLen := -1, 0, Null, 0;
    }

    ghost predicate Publishes(h: HeadRun)
      reads this
    {
      && minorVersion == (match h.version case None => -1 case Some(v) => v)
      && status == (match h.status case None => 0 case Some(v) => v)
      && IsPublished(reason, reasonLen, h.reason)
    }
  }

  /** `phr_parse_request`: zero the outputs, parse, publish what completed, whatever the
      verdict. */
  method PhrParseRequest(buf: seq<byte>, out: RequestOut, headers: array<PhrHeader>, numHeaders: Count, lastLen: nat)
    returns (ret: int)
    requires numHeaders.n <= headers.Length
    modifies out, headers, numHeaders
    ensures var h := Gated(Request, buf, old(numHeaders.n), lastLen);
            && ret == Code(h.res)
            && out.Publishes(h)
            && numHeaders.n == Completed(h.log)
            && headers[..] == Apply(old(headers[..]), h.log)
  {
    out.method', out.methodLen, out.path, out.pathLen, out.minorVersion := Null, 0, Null, 0, -1;
    var max := numHeaders.n;
    numHeaders.n := 0;
    var sink := new RawSink(headers, max);
    var prog := new HeadRequest.Progress();
    var r := HeadRequest.ParseRequest(buf, sink, lastLen, prog);
    ret := Code(r);
    match prog.method' {
      case Some(s) => out.method', out.methodLen := At(s.off), s.len;
      case None =>
    }
    match prog.path {
      case Some(s) => out.path, out.pathLen := At(s.off), s.len;
      case None =>
    }
    match prog.version {
      case Some(v) => out.minorVersion := v;
      case None =>
    }
    numHeaders.n := prog.headers;
  }

  /** `phr_parse_response`. */
  method PhrParseResponse(buf: seq<byte>, out: ResponseOut, headers: array<PhrHeader>, numHeaders: Count, lastLen: nat)
    returns (ret: int)
    requires numHeaders.n <= headers.Length
    modifies out, headers, numHeaders
    ensures var h := Gated(Response, buf, old(numHeaders.n), lastLen);
            && ret == Code(h.res)
            && out.Publishes(h)
            && numHeaders.n == Completed(h.log)
            && headers[..] == Apply(old(headers[..]), h.log)
  {
    out.minorVersion, out.status, out.reason, out.reasonLen := -1, 0, Null, 0;
    var max := numHeaders.n;
    numHeaders.n := 0;
    var sink := new RawSink(headers, max);
    var prog := new HeadResponse.Progress();
    var r := HeadResponse.ParseResponse(buf, sink, lastLen, prog);
    ret := Code(r);
    match prog.version {
      case Some(v) => out.minorVersion := v;
      case None =>
    }
    match prog.status {
      case Some(v) => out.status := v;
      case None =>
    }
    match prog.reason {
      case Some(s) => out.reason, out.reasonLen := At(s.off), s.len;
      case None =>
    }
    numHeaders.n := prog.headers;
  }

  /** `phr_parse_headers`. */
  method PhrParseHeaders(buf: seq<byte>, headers: array<PhrHeader>, numHeaders: Count, lastLen: nat) returns (ret: int)
    requires numHeaders.n <= headers.Length
    modifies headers, numHeaders
    ensures var h := Gated(Block, buf, old(numHeaders.n), lastLen);
            && ret == Code(h.res)
            && numHeaders.n == Completed(h.log)
            && headers[..] == Apply(old(headers[..]), h.log)
  {
    var max := numHeaders.n;
    numHeaders.n := 0;
    var sink := new RawSink(headers, max);
    if lastLen != 0 {
      var complete := HeadCore.IsComplete(buf, lastLen);
      if complete.Err? {
        return Code(Err(complete.error));
      }
    }
    var r, count := HeadCore.ParseHeaders(buf, 0, sink, 0);
    ret := Code(r);
    numHeaders.n := count;
  }
}
