/** What a caller of the head parsers finds in its memory after any call, in bytes: of the Rust
    parsers and of the C parsers in both builds alike. */
module HeadCaller {
  import opened Bytes
  import opened HeadSpec
  import opened HeadFfi
  import opened HeadGate
  import opened HeadGrammar
  import opened HeadLines
  import opened HeadProtocol
  import opened HeadPublished
  import opened HeadReadBack
  import opened HeadRefusal
  import opened HeadSlots
  import opened HeadStreaming
  import HeadC

  /** The implementation called: Rust, or C with or without vectors. */
  datatype Parser = Rust | C(sse: bool)

  ghost predicate Points(p: Ptr, len: nat, s: Span) {
    p == Ptr.At(s.off) && len == s.len
  }

  ghost predicate PointsNowhere(p: Ptr, len: nat) {
    p == Null && len == 0
  }

  // What is common to all heads.

  /** The return code of an attempt the gate holds back. */
  ghost predicate HeldBack(buf: seq<byte>, lastLen: nat, ret: int) {
    ret == if SeesBareCr(buf, LooksFrom(lastLen)) then -1 else -2
  }

  /** The pointer shows the text. */
  ghost predicate PtrShows(buf: seq<byte>, p: Ptr, len: nat, text: seq<byte>) {
    p.At? && p.off + len <= |buf| && buf[p.off..p.off + len] == text
  }

  /** The array reads as the lines there is room for, and is otherwise as it was. */
  ghost predicate LinesRead(buf: seq<byte>, lines: seq<Header>, max: nat, before: seq<PhrHeader>,
                            after: seq<PhrHeader>, count: nat)
  {
    && count == Min(|lines|, max) && |after| == |before| && ReadSlots(buf, after, Meanings(lines[..count]))
    && forall i :: count <= i < |before| ==> after[i] == before[i]
  }

  lemma RunReads(kind: Kind, buf: seq<byte>, max: nat, lines: seq<Header>, before: seq<PhrHeader>)
    requires max <= |before|
    requires var log, k := Parse(kind, buf, max).log, Min(|lines|, max);
             |log| == 2 * k && ReadBack(buf, log, k) == Meanings(lines[..k])
    ensures var log := Parse(kind, buf, max).log;
            LinesRead(buf, lines, max, before, Apply(before, log), Completed(log))
  {
    hide Parse, Follows, Apply, ReadBack, Meanings, ReadSlot;
    var log := Parse(kind, buf, max).log;
    WritesFollowProtocol(kind, buf, max);
    LogReads(buf, before, log, max);
    forall i | |log| / 2 <= i < |before| ensures Apply(before, log)[i] == before[i] {
      assert SlotHolds(Apply(before, log)[i], before[i], log, i);
    }
  }

  /** The gate lets through the first attempt that has all of a head. */
  lemma WholePasses(kind: Kind, buf: seq<byte>, max: nat, lastLen: nat)
    requires Parse(kind, buf, max).res.Ok? && lastLen < Parse(kind, buf, max).res.value
    requires kind.Block? && lastLen != 0 ==> buf[0] != 0x0D && buf[0] != 0x0A
    ensures Passes(buf, lastLen)
  {
    hide Parse, Gate, SeesEnd, SeesBareCr;
    if lastLen != 0 {
      GateVerdict(kind, buf, max, lastLen, |buf|);
      assert buf[..|buf|] == buf;
      GateExact(buf, LooksFrom(lastLen));
    }
  }

  // Requests.

  /** The words of a request, where they are there, and null where not. */
  ghost predicate WordsLeft(buf: seq<byte>, out: RequestOut)
    reads out
  {
    && (forall m :: MethodThere(buf, m) ==> Points(out.method', out.methodLen, m))
    && ((forall m :: !MethodThere(buf, m)) ==> PointsNowhere(out.method', out.methodLen))
    && (forall m, s :: PathThere(buf, m, s) ==> Points(out.path, out.pathLen, s))
    && ((forall m, s :: !PathThere(buf, m, s)) ==> PointsNowhere(out.path, out.pathLen))
  }

  /** Its version, or -1. */
  ghost predicate VersionLeft(buf: seq<byte>, minorVersion: int) {
    && (forall m, s, v :: VersionDue(buf, m, s, v) && VersionBytes(buf, v) ==>
          minorVersion == buf[v + 7] as int - 0x30)
    && ((forall m, s, v :: VersionDue(buf, m, s, v) ==> !VersionBytes(buf, v)) ==> minorVersion == -1)
  }

  /** Its headers, or an array that is untouched. */
  ghost predicate HeadersLeft(buf: seq<byte>, max: nat, before: seq<PhrHeader>, after: seq<PhrHeader>, count: nat,
                              lines: seq<Header>)
  {
    && (forall m, s, v, b :: HeadersDue(buf, m, s, v, b) ==> ArrayLeft(buf, b, max, before, after, count, lines))
    && ((forall m, s, v, b :: !HeadersDue(buf, m, s, v, b)) ==> after == before && count == 0)
  }

  lemma WordsAreLeft(buf: seq<byte>, max: nat, out: RequestOut)
    requires out.Publishes(ParseRequest(buf, max))
    ensures WordsLeft(buf, out)
  {
    hide ParseRequest, MethodThere, PathThere;
    var h := ParseRequest(buf, max);
    forall m ensures h.method' == Some(m) <==> MethodThere(buf, m) {
      MethodPublished(buf, max, m);
    }
    forall m, s ensures h.method' == Some(m) && h.path == Some(s) <==> PathThere(buf, m, s) {
      PathPublished(buf, max, m, s);
    }
    PathPublished(buf, max, Span(0, 0), Span(0, 0));
  }

  lemma VersionIsLeft(buf: seq<byte>, max: nat, out: RequestOut)
    requires out.Publishes(ParseRequest(buf, max))
    ensures VersionLeft(buf, out.minorVersion)
  {
    hide ParseRequest, VersionDue, IsPublished;
    var h := ParseRequest(buf, max);
    if h.version.Some? {
      VersionPublished(buf, max, h.version.value);
    }
    forall m, s, v | VersionDue(buf, m, s, v) && VersionBytes(buf, v)
      ensures out.minorVersion == buf[v + 7] as int - 0x30 {
      VersionPublished(buf, max, buf[v + 7] as int - 0x30);
    }
  }

  lemma SpacesEndOnce(buf: seq<byte>, e: nat, q: nat, q': nat)
    requires SpacesTo(buf, e, q) && SpacesTo(buf, e, q')
    ensures q == q'
  {
  }

  /** Headers start at one place at most. */
  lemma DueOnce(buf: seq<byte>, m: Span, s: Span, v: nat, b: nat, m': Span, s': Span, v': nat, b': nat)
    requires HeadersDue(buf, m, s, v, b) && HeadersDue(buf, m', s', v', b')
    ensures b == b'
  {
    hide PathThere, SpacesTo;
    PathPublished(buf, 0, m, s);
    PathPublished(buf, 0, m', s');
    SpacesEndOnce(buf, EndOf(s), v, v');
  }

  lemma HeadersAreLeft(buf: seq<byte>, max: nat, before: seq<PhrHeader>) returns (lines: seq<Header>)
    requires max <= |before|
    ensures var log := ParseRequest(buf, max).log;
            HeadersLeft(buf, max, before, Apply(before, log), Completed(log), lines)
  {
    hide ParseRequest, HeadersDue, ArrayLeft, Headers;
    lines := [];
    if m, s, v, b :| HeadersDue(buf, m, s, v, b) {
      HeadersOfRequest(buf, max, m, s, v, b);
      lines := BlockLeaves(buf, b, max, before);
      forall m', s', v', b' | HeadersDue(buf, m', s', v', b') ensures b' == b {
        DueOnce(buf, m, s, v, b, m', s', v', b');
      }
    } else {
      var m, s, v, b := RequestHeaders(buf, max);
      ApplyNone(before);
    }
  }

  /** What a request leaves, through the gate. */
  ghost predicate RequestLeft(buf: seq<byte>, max: nat, lastLen: nat, out: RequestOut, before: seq<PhrHeader>,
                              after: seq<PhrHeader>, count: nat, lines: seq<Header>)
    reads out
  {
    if Passes(buf, lastLen) then
      WordsLeft(buf, out) && VersionLeft(buf, out.minorVersion) && HeadersLeft(buf, max, before, after, count, lines)
    else
      && PointsNowhere(out.method', out.methodLen) && PointsNowhere(out.path, out.pathLen) && out.minorVersion == -1
      && after == before && count == 0
  }

  lemma RequestIsLeft(buf: seq<byte>, max: nat, lastLen: nat, out: RequestOut, before: seq<PhrHeader>)
    returns (lines: seq<Header>)
    requires max <= |before| && out.Publishes(Gated(Request, buf, max, lastLen))
    ensures var log := Gated(Request, buf, max, lastLen).log;
            RequestLeft(buf, max, lastLen, out, before, Apply(before, log), Completed(log), lines)
  {
    hide ParseRequest, Passes, Gated, WordsLeft, VersionLeft, HeadersLeft, Apply;
    GatedExact(Request, buf, max, lastLen);
    lines := [];
    if Passes(buf, lastLen) {
      WordsAreLeft(buf, max, out);
      VersionIsLeft(buf, max, out);
      lines := HeadersAreLeft(buf, max, before);
    } else {
      ApplyNone(before);
    }
  }

  /** The input begins with this request, and a previous attempt was short of it. */
  ghost predicate RequestSent(buf: seq<byte>, lastLen: nat, r: RequestLine, lines: seq<Header>, crlf: bool) {
    && ValidRequestLine(r) && ValidLines(lines, true) && PrintRequest(r, lines, crlf) <= buf
    && lastLen < |PrintRequest(r, lines, crlf)|
  }

  /** The caller reads back what was sent. */
  ghost predicate RequestRead(buf: seq<byte>, r: RequestLine, lines: seq<Header>, crlf: bool, max: nat,
                              out: RequestOut, before: seq<PhrHeader>, after: seq<PhrHeader>, count: nat, ret: int)
    reads out
  {
    && ret == (if |lines| <= max then |PrintRequest(r, lines, crlf)| else -1)
    && PtrShows(buf, out.method', out.methodLen, r.method') && PtrShows(buf, out.path, out.pathLen, r.target)
    && out.minorVersion == r.minor as int - 0x30
    && LinesRead(buf, lines, max, before, after, count)
  }

  lemma SentPasses(buf: seq<byte>, lastLen: nat, r: RequestLine, lines: seq<Header>, crlf: bool)
    requires RequestSent(buf, lastLen, r, lines, crlf)
    ensures Passes(buf, lastLen)
  {
    hide ParseRequest, RequestOutcome, PrintRequest, ValidWord, ValidLines, Passes;
    RequestRoundTrip(buf, r, lines, crlf, |lines|);
    RequestReadsBack(buf, r, lines, crlf, |lines|);
    WholePasses(Request, buf, |lines|, lastLen);
  }

  lemma SentIsRead(buf: seq<byte>, max: nat, lastLen: nat, r: RequestLine, lines: seq<Header>, crlf: bool,
                   out: RequestOut, before: seq<PhrHeader>)
    requires max <= |before| && RequestSent(buf, lastLen, r, lines, crlf)
    requires out.Publishes(Gated(Request, buf, max, lastLen))
    ensures var h := Gated(Request, buf, max, lastLen);
            RequestRead(buf, r, lines, crlf, max, out, before, Apply(before, h.log), Completed(h.log), Code(h.res))
  {
    hide ParseRequest, RequestOutcome, PrintRequest, Passes, Gated, LinesRead, Apply, Completed, ReadBack, Meanings,
         ValidLines;
    SentPasses(buf, lastLen, r, lines, crlf);
    GatedExact(Request, buf, max, lastLen);
    RequestRoundTrip(buf, r, lines, crlf, max);
    RequestReadsBack(buf, r, lines, crlf, max);
    RunReads(Request, buf, max, lines, before);
  }

  /** The return code of a request: refused if and only if nothing can complete it and it does not
      wait in vain, the length of what was sent if and only if there was room for it. */
  ghost predicate RequestReturns(buf: seq<byte>, max: nat, ret: int) {
    && -2 <= ret
    && (ret == -1 <==> !Completable(Request, buf, max) && !RequestWaitsInVain(buf))
    && (ret >= 0 <==> exists r, lines, crlf :: RequestSent(buf, 0, r, lines, crlf) && |lines| <= max)
    && (forall r, lines, crlf :: RequestSent(buf, 0, r, lines, crlf) && |lines| <= max ==>
          ret == |PrintRequest(r, lines, crlf)|)
  }

  lemma RequestCode(buf: seq<byte>, max: nat)
    ensures RequestReturns(buf, max, Code(ParseRequest(buf, max).res))
  {
    hide ParseRequest, RequestOutcome, PrintRequest, ValidLines, ValidWord, Completable, RequestWaitsInVain;
    var res := ParseRequest(buf, max).res;
    RequestVerdict(buf, max);
    forall r, lines, crlf | RequestSent(buf, 0, r, lines, crlf) && |lines| <= max
      ensures res == Ok(|PrintRequest(r, lines, crlf)|) {
      RequestRoundTrip(buf, r, lines, crlf, max);
      RequestReadsBack(buf, r, lines, crlf, max);
    }
    if res.Ok? {
      var r, lines, crlf := RequestIsPrinted(buf, max);
      RequestRoundTrip(buf, r, lines, crlf, max);
      RequestReadsBack(buf, r, lines, crlf, max);
      assert RequestSent(buf, 0, r, lines, crlf);
    }
  }

  /** `phr_parse_request` of either implementation. */
  method CallRequest(p: Parser, buf: seq<byte>, out: RequestOut, headers: array<PhrHeader>, numHeaders: Count,
                     lastLen: nat)
    returns (ret: int, ghost lines: seq<Header>)
    requires numHeaders.n <= headers.Length && (p.C? ==> lastLen <= |buf|)
    modifies out, headers, numHeaders
    ensures RequestLeft(buf, old(numHeaders.n), lastLen, out, old(headers[..]), headers[..], numHeaders.n, lines)
    ensures if Passes(buf, lastLen) then RequestReturns(buf, old(numHeaders.n), ret) else HeldBack(buf, lastLen, ret)
    ensures forall r, hs, crlf :: RequestSent(buf, lastLen, r, hs, crlf) ==>
              RequestRead(buf, r, hs, crlf, old(numHeaders.n), out, old(headers[..]), headers[..], numHeaders.n, ret)
  {
    ghost var max, before := numHeaders.n, headers[..];
    match p {
      case Rust => ret := HeadFfi.PhrParseRequest(buf, out, headers, numHeaders, lastLen);
      case C(sse) => ret := HeadC.PhrParseRequest(buf, out, headers, numHeaders, lastLen, sse);
    }
    lines := RequestIsLeft(buf, max, lastLen, out, before);
    GatedExact(Request, buf, max, lastLen);
    RequestCode(buf, max);
    forall r, hs, crlf | RequestSent(buf, lastLen, r, hs, crlf)
      ensures RequestRead(buf, r, hs, crlf, max, out, before, headers[..], numHeaders.n, ret) {
      SentIsRead(buf, max, lastLen, r, hs, crlf, out, before);
    }
  }

  // Responses.

  /** The version and the status of a response, where they are there, as far as its digits go. */
  ghost predicate StatusLeft(buf: seq<byte>, minorVersion: int, status: int) {
    && minorVersion == (if VersionBytes(buf, 0) then buf[7] as int - 0x30 else -1)
    && (forall q, x: nat :: StatusDue(buf, q) && StatusReads(buf, q, x) ==> status == x)
    && ((forall q, x: nat :: StatusDue(buf, q) ==> !StatusReads(buf, q, x)) ==> status == 0)
  }

  ghost predicate PhraseLeft(buf: seq<byte>, reason: Ptr, reasonLen: nat) {
    && (forall q, s, k :: PhraseDue(buf, q, s, k) ==> Points(reason, reasonLen, s))
    && ((forall q, s, k :: !PhraseDue(buf, q, s, k)) ==> PointsNowhere(reason, reasonLen))
  }

  /** Headers follow a phrase with a space in front of it, or an empty one. */
  ghost predicate FieldsDue(buf: seq<byte>, q: nat, s: Span, k: nat) {
    PhraseDue(buf, q, s, k) && (buf[q + 3] == 0x20 || buf[q + 3] == 0x0D || buf[q + 3] == 0x0A)
  }

  ghost predicate FieldsLeft(buf: seq<byte>, max: nat, before: seq<PhrHeader>, after: seq<PhrHeader>, count: nat,
                             lines: seq<Header>)
  {
    && (forall q, s, k :: FieldsDue(buf, q, s, k) ==> ArrayLeft(buf, k, max, before, after, count, lines))
    && ((forall q, s, k :: !FieldsDue(buf, q, s, k)) ==> after == before && count == 0)
  }

  lemma StatusIsLeft(buf: seq<byte>, max: nat, out: ResponseOut)
    requires out.Publishes(ParseResponse(buf, max))
    ensures StatusLeft(buf, out.minorVersion, out.status)
  {
    hide ParseResponse, StatusDue, StatusReads, IsPublished, VersionBytes;
    var h := ParseResponse(buf, max);
    ResponseVersionStays(buf, max);
    if h.status.Some? {
      StatusPublished(buf, max, h.status.value);
    }
    forall q: nat, x: nat | StatusDue(buf, q) && StatusReads(buf, q, x) ensures out.status == x {
      StatusPublished(buf, max, x);
    }
  }

  lemma PhraseIsLeft(buf: seq<byte>, max: nat, out: ResponseOut)
    requires out.Publishes(ParseResponse(buf, max))
    ensures PhraseLeft(buf, out.reason, out.reasonLen)
  {
    hide ParseResponse, PhraseDue;
    var h := ParseResponse(buf, max);
    if h.reason.Some? {
      ReasonPublished(buf, max, h.reason.value);
    }
    forall q, s, k | PhraseDue(buf, q, s, k) ensures Points(out.reason, out.reasonLen, s) {
      ReasonPublished(buf, max, s);
    }
  }

  /** The line of a phrase ends at one place at most. */
  lemma PhraseOnce(buf: seq<byte>, q: nat, s: Span, k: nat, q': nat, s': Span, k': nat)
    requires PhraseDue(buf, q, s, k) && PhraseDue(buf, q', s', k')
    ensures q == q' && k == k'
  {
    SpacesEndOnce(buf, 8, q, q');
    EolIs(buf, q + 3, EndOf(s), k);
    EolIs(buf, q + 3, EndOf(s'), k');
  }

  lemma FieldsAreLeft(buf: seq<byte>, max: nat, before: seq<PhrHeader>) returns (lines: seq<Header>)
    requires max <= |before|
    ensures var log := ParseResponse(buf, max).log;
            FieldsLeft(buf, max, before, Apply(before, log), Completed(log), lines)
  {
    hide ParseResponse, PhraseDue, ArrayLeft, Headers;
    lines := [];
    ApplyNone(before);
    if q, s, k :| PhraseDue(buf, q, s, k) {
      HeadersOfResponse(buf, max, q, s, k);
      if FieldsDue(buf, q, s, k) {
        lines := BlockLeaves(buf, k, max, before);
      }
      forall q', s', k' | PhraseDue(buf, q', s', k') ensures q' == q && k' == k {
        PhraseOnce(buf, q, s, k, q', s', k');
      }
    } else {
      var h := ParseResponse(buf, max);
      if h.reason.Some? {
        ReasonPublished(buf, max, h.reason.value);
      }
      ResponseHeaders(buf, max);
    }
  }

  /** What a response leaves, through the gate. */
  ghost predicate ResponseLeft(buf: seq<byte>, max: nat, lastLen: nat, out: ResponseOut, before: seq<PhrHeader>,
                               after: seq<PhrHeader>, count: nat, lines: seq<Header>)
    reads out
  {
    if Passes(buf, lastLen) then
      && StatusLeft(buf, out.minorVersion, out.status) && PhraseLeft(buf, out.reason, out.reasonLen)
      && FieldsLeft(buf, max, before, after, count, lines)
    else
      && out.minorVersion == -1 && out.status == 0 && PointsNowhere(out.reason, out.reasonLen)
      && after == before && count == 0
  }

  lemma ResponseIsLeft(buf: seq<byte>, max: nat, lastLen: nat, out: ResponseOut, before: seq<PhrHeader>)
    returns (lines: seq<Header>)
    requires max <= |before| && out.Publishes(Gated(Response, buf, max, lastLen))
    ensures var log := Gated(Response, buf, max, lastLen).log;
            ResponseLeft(buf, max, lastLen, out, before, Apply(before, log), Completed(log), lines)
  {
    hide ParseResponse, Passes, Gated, StatusLeft, PhraseLeft, FieldsLeft, Apply;
    GatedExact(Response, buf, max, lastLen);
    lines := [];
    if Passes(buf, lastLen) {
      StatusIsLeft(buf, max, out);
      PhraseIsLeft(buf, max, out);
      lines := FieldsAreLeft(buf, max, before);
    } else {
      ApplyNone(before);
    }
  }

  /** The input begins with this response, and a previous attempt was short of it. */
  ghost predicate ResponseSent(buf: seq<byte>, lastLen: nat, r: StatusLine, lines: seq<Header>, crlf: bool) {
    && ValidStatusLine(r) && ValidLines(lines, true) && PrintResponse(r, lines, crlf) <= buf
    && lastLen < |PrintResponse(r, lines, crlf)|
  }

  /** The caller reads back what was sent. */
  ghost predicate ResponseRead(buf: seq<byte>, r: StatusLine, lines: seq<Header>, crlf: bool, max: nat,
                               out: ResponseOut, before: seq<PhrHeader>, after: seq<PhrHeader>, count: nat, ret: int)
    requires AreDigits(r.status)
    reads out
  {
    && ret == (if |lines| <= max then |PrintResponse(r, lines, crlf)| else -1)
    && out.minorVersion == r.minor as int - 0x30 && out.status == StatusValue(r.status)
    && PtrShows(buf, out.reason, out.reasonLen, r.phrase)
    && LinesRead(buf, lines, max, before, after, count)
  }

  lemma SentResponsePasses(buf: seq<byte>, lastLen: nat, r: StatusLine, lines: seq<Header>, crlf: bool)
    requires ResponseSent(buf, lastLen, r, lines, crlf)
    ensures Passes(buf, lastLen)
  {
    hide ParseResponse, ResponseOutcome, PrintResponse, ValidPhrase, ValidLines, Passes;
    ResponseRoundTrip(buf, r, lines, crlf, |lines|);
    ResponseReadsBack(buf, r, lines, crlf, |lines|);
    WholePasses(Response, buf, |lines|, lastLen);
  }

  lemma SentResponseIsRead(buf: seq<byte>, max: nat, lastLen: nat, r: StatusLine, lines: seq<Header>, crlf: bool,
                           out: ResponseOut, before: seq<PhrHeader>)
    requires max <= |before| && ResponseSent(buf, lastLen, r, lines, crlf)
    requires out.Publishes(Gated(Response, buf, max, lastLen))
    ensures var h := Gated(Response, buf, max, lastLen);
            ResponseRead(buf, r, lines, crlf, max, out, before, Apply(before, h.log), Completed(h.log), Code(h.res))
  {
    hide ParseResponse, ResponseOutcome, PrintResponse, Passes, Gated, LinesRead, Apply, Completed, ReadBack,
         Meanings, ValidLines, StatusValue;
    SentResponsePasses(buf, lastLen, r, lines, crlf);
    GatedExact(Response, buf, max, lastLen);
    ResponseRoundTrip(buf, r, lines, crlf, max);
    ResponseReadsBack(buf, r, lines, crlf, max);
    RunReads(Response, buf, max, lines, before);
  }

  /** The return code of a response, likewise. */
  ghost predicate ResponseReturns(buf: seq<byte>, max: nat, ret: int) {
    && -2 <= ret
    && (ret == -1 <==> !Completable(Response, buf, max) && !ResponseWaitsInVain(buf))
    && (ret >= 0 <==> exists r, lines, crlf :: ResponseSent(buf, 0, r, lines, crlf) && |lines| <= max)
    && (forall r, lines, crlf :: ResponseSent(buf, 0, r, lines, crlf) && |lines| <= max ==>
          ret == |PrintResponse(r, lines, crlf)|)
  }

  lemma ResponseCode(buf: seq<byte>, max: nat)
    ensures ResponseReturns(buf, max, Code(ParseResponse(buf, max).res))
  {
    hide ParseResponse, ResponseOutcome, PrintResponse, ValidLines, ValidPhrase, Completable, ResponseWaitsInVain;
    var res := ParseResponse(buf, max).res;
    ResponseVerdict(buf, max);
    forall r, lines, crlf | ResponseSent(buf, 0, r, lines, crlf) && |lines| <= max
      ensures res == Ok(|PrintResponse(r, lines, crlf)|) {
      ResponseRoundTrip(buf, r, lines, crlf, max);
      ResponseReadsBack(buf, r, lines, crlf, max);
    }
    if res.Ok? {
      var r, lines, crlf := ResponseIsPrinted(buf, max);
      ResponseRoundTrip(buf, r, lines, crlf, max);
      ResponseReadsBack(buf, r, lines, crlf, max);
      assert ResponseSent(buf, 0, r, lines, crlf);
    }
  }

  /** `phr_parse_response` of either implementation. */
  method CallResponse(p: Parser, buf: seq<byte>, out: ResponseOut, headers: array<PhrHeader>, numHeaders: Count,
                      lastLen: nat)
    returns (ret: int, ghost lines: seq<Header>)
    requires numHeaders.n <= headers.Length && (p.C? ==> lastLen <= |buf|)
    modifies out, headers, numHeaders
    ensures ResponseLeft(buf, old(numHeaders.n), lastLen, out, old(headers[..]), headers[..], numHeaders.n, lines)
    ensures if Passes(buf, lastLen) then ResponseReturns(buf, old(numHeaders.n), ret) else HeldBack(buf, lastLen, ret)
    ensures forall r, hs, crlf :: ResponseSent(buf, lastLen, r, hs, crlf) ==>
              ResponseRead(buf, r, hs, crlf, old(numHeaders.n), out, old(headers[..]), headers[..], numHeaders.n, ret)
  {
    ghost var max, before := numHeaders.n, headers[..];
    match p {
      case Rust => ret := HeadFfi.PhrParseResponse(buf, out, headers, numHeaders, lastLen);
      case C(sse) => ret := HeadC.PhrParseResponse(buf, out, headers, numHeaders, lastLen, sse);
    }
    lines := ResponseIsLeft(buf, max, lastLen, out, before);
    GatedExact(Response, buf, max, lastLen);
    ResponseCode(buf, max);
    forall r, hs, crlf | ResponseSent(buf, lastLen, r, hs, crlf)
      ensures ResponseRead(buf, r, hs, crlf, max, out, before, headers[..], numHeaders.n, ret) {
      SentResponseIsRead(buf, max, lastLen, r, hs, crlf, out, before);
    }
  }

  // Header blocks.

  /** What a block leaves, through the gate. */
  ghost predicate BlockLeft(buf: seq<byte>, max: nat, lastLen: nat, before: seq<PhrHeader>, after: seq<PhrHeader>,
                            count: nat, lines: seq<Header>)
  {
    if Passes(buf, lastLen) then ArrayLeft(buf, 0, max, before, after, count, lines)
    else after == before && count == 0
  }

  /** The input begins with this block, and a previous attempt was short of it; there was none if
      the block is empty. */
  ghost predicate BlockSent(buf: seq<byte>, lastLen: nat, lines: seq<Header>, crlf: bool) {
    && ValidLines(lines, true) && PrintBlock(lines, crlf) <= buf
    && (lastLen == 0 || (lines != [] && lastLen < |PrintBlock(lines, crlf)|))
  }

  ghost predicate BlockRead(buf: seq<byte>, lines: seq<Header>, crlf: bool, max: nat, before: seq<PhrHeader>,
                            after: seq<PhrHeader>, count: nat, ret: int)
  {
    && ret == (if |lines| <= max then |PrintBlock(lines, crlf)| else -1)
    && LinesRead(buf, lines, max, before, after, count)
  }

  lemma BlockBegins(buf: seq<byte>, lines: seq<Header>, crlf: bool)
    requires ValidLines(lines, true) && PrintBlock(lines, crlf) <= buf && lines != []
    ensures buf != [] && buf[0] != 0x0D && buf[0] != 0x0A
  {
    hide PrintBlock, ValidLine, LineAt;
    BeginsWith(buf, PrintBlock(lines, crlf));
    BlockAtIsPrinted(buf, 0, lines, crlf);
    LineParses(buf, 0, lines[0], 0);
  }

  lemma SentBlockPasses(buf: seq<byte>, lastLen: nat, lines: seq<Header>, crlf: bool)
    requires BlockSent(buf, lastLen, lines, crlf)
    ensures Passes(buf, lastLen)
  {
    hide ParseBlock, PrintBlock, ValidLines;
    if lastLen != 0 {
      RoundTrip(lines, crlf, buf, |lines|);
      BlockBegins(buf, lines, crlf);
      WholePasses(Block, buf, |lines|, lastLen);
    }
  }

  lemma SentBlockIsRead(buf: seq<byte>, max: nat, lastLen: nat, lines: seq<Header>, crlf: bool,
                        before: seq<PhrHeader>)
    requires max <= |before| && BlockSent(buf, lastLen, lines, crlf)
    ensures var h := Gated(Block, buf, max, lastLen);
            BlockRead(buf, lines, crlf, max, before, Apply(before, h.log), Completed(h.log), Code(h.res))
  {
    hide ParseBlock, PrintBlock, Passes, Gated, LinesRead, Apply, Completed, ReadBack, Meanings, ValidLines;
    SentBlockPasses(buf, lastLen, lines, crlf);
    GatedExact(Block, buf, max, lastLen);
    RoundTrip(lines, crlf, buf, max);
    RunReads(Block, buf, max, lines, before);
  }

  /** The return code of a block: refused if and only if nothing can complete it. */
  ghost predicate BlockReturns(buf: seq<byte>, max: nat, ret: int) {
    && -2 <= ret
    && (ret == -1 <==> !Completable(Block, buf, max))
    && (ret >= 0 <==> exists lines, crlf :: BlockSent(buf, 0, lines, crlf) && |lines| <= max)
    && (forall lines, crlf :: BlockSent(buf, 0, lines, crlf) && |lines| <= max ==> ret == |PrintBlock(lines, crlf)|)
  }

  lemma BlockCode(buf: seq<byte>, max: nat)
    ensures BlockReturns(buf, max, Code(ParseBlock(buf, max).res))
  {
    hide ParseBlock, PrintBlock, ValidLines, Completable, ReadBack, Meanings;
    var res := ParseBlock(buf, max).res;
    BlockVerdict(buf, max);
    forall lines, crlf | BlockSent(buf, 0, lines, crlf) && |lines| <= max ensures res == Ok(|PrintBlock(lines, crlf)|) {
      RoundTrip(lines, crlf, buf, max);
    }
    if res.Ok? {
      var lines, crlf := ParsedIsPrinted(buf, max);
      assert BlockSent(buf, 0, lines, crlf);
    }
  }

  /** `phr_parse_headers` of either implementation. */
  method CallBlock(p: Parser, buf: seq<byte>, headers: array<PhrHeader>, numHeaders: Count, lastLen: nat)
    returns (ret: int, ghost lines: seq<Header>)
    requires numHeaders.n <= headers.Length && (p.C? ==> lastLen <= |buf|)
    modifies headers, numHeaders
    ensures BlockLeft(buf, old(numHeaders.n), lastLen, old(headers[..]), headers[..], numHeaders.n, lines)
    ensures if Passes(buf, lastLen) then BlockReturns(buf, old(numHeaders.n), ret) else HeldBack(buf, lastLen, ret)
    ensures forall hs, crlf :: BlockSent(buf, lastLen, hs, crlf) ==>
              BlockRead(buf, hs, crlf, old(numHeaders.n), old(headers[..]), headers[..], numHeaders.n, ret)
  {
    ghost var max, before := numHeaders.n, headers[..];
    match p {
      case Rust => ret := HeadFfi.PhrParseHeaders(buf, headers, numHeaders, lastLen);
      case C(sse) => ret := HeadC.PhrParseHeaders(buf, headers, numHeaders, lastLen, sse);
    }
    lines := BlockLeaves(buf, 0, max, before);
    ApplyNone(before);
    GatedExact(Block, buf, max, lastLen);
    BlockCode(buf, max);
    forall hs, crlf | BlockSent(buf, lastLen, hs, crlf)
      ensures BlockRead(buf, hs, crlf, max, before, headers[..], numHeaders.n, ret) {
      SentBlockIsRead(buf, max, lastLen, hs, crlf, before);
    }
  }
}
