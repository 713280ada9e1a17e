/** What the head parsers publish, on every path and whatever the verdict, in bytes. */
module HeadPublished {
  import opened Alphabet
  import opened Bytes
  import opened HeadSpec
  import opened HeadGate
  import opened HeadGrammar
  import opened HeadLines
  import opened HeadPartial

  // Words.

  /** Token characters from `p` to a space at `e`; there may be none. */
  ghost predicate MethodBytes(buf: seq<byte>, p: nat, e: nat) {
    p <= e < |buf| && buf[e] == 0x20 && forall i :: p <= i < e ==> TokenChar(buf[i] as char)
  }

  /** Bytes that are neither controls nor spaces from `p` to a space at `e`. */
  ghost predicate TargetBytes(buf: seq<byte>, p: nat, e: nat) {
    p <= e < |buf| && buf[e] == 0x20 && forall i :: p <= i < e ==> 33 <= buf[i] <= 126 || 128 <= buf[i]
  }

  /** At least one space from `e` on, and the first other byte at `q`. */
  ghost predicate SpacesTo(buf: seq<byte>, e: nat, q: nat) {
    e < q < |buf| && buf[q] != 0x20 && forall i :: e <= i < q ==> buf[i] == 0x20
  }

  /** Where the request line begins: behind one empty line, or at the start. */
  ghost predicate LineStart(buf: seq<byte>, p: nat) {
    BreakBytes(buf, 0, p) || (p == 0 < |buf| && buf[0] != 0x0D && buf[0] != 0x0A)
  }

  lemma UntilIs(c: Class, stop: byte, buf: seq<byte>, p: nat, e: nat)
    requires p <= |buf| && !Accepts(c, stop)
    ensures ScanUntil(c, stop, buf, p) == Ok(e) <==>
            p <= e < |buf| && buf[e] == stop && forall i :: p <= i < e ==> Accepts(c, buf[i])
  {
    if p <= e < |buf| && buf[e] == stop && forall i :: p <= i < e ==> Accepts(c, buf[i]) {
      SkipIs(c, buf, p, e);
    }
  }

  lemma SpaceIsNoToken()
    ensures !TokenChar(0x20 as char)
  {
  }

  lemma MethodIs(buf: seq<byte>, p: nat, e: nat)
    requires p <= |buf|
    ensures ScanUntil(Token(SP), SP, buf, p) == Ok(e) <==> MethodBytes(buf, p, e)
  {
    hide TokenChar;
    UntilIs(Token(SP), SP, buf, p, e);
    forall i | p <= i < e && i < |buf|
      ensures Accepts(Token(SP), buf[i]) <==> buf[i] != 0x20 && TokenChar(buf[i] as char) {
      ClassesExact(buf[i], SP);
    }
    SpaceIsNoToken();
  }

  lemma TargetIs(buf: seq<byte>, p: nat, e: nat)
    requires p <= |buf|
    ensures ScanUntil(Target, SP, buf, p) == Ok(e) <==> TargetBytes(buf, p, e)
  {
    UntilIs(Target, SP, buf, p, e);
  }

  lemma SpacesAre(buf: seq<byte>, e: nat, q: nat)
    requires e < |buf| && buf[e] == SP
    ensures SkipTo(Spaces, buf, e + 1) == Ok(q) <==> SpacesTo(buf, e, q)
  {
    if SpacesTo(buf, e, q) {
      SkipIs(Spaces, buf, e + 1, q);
    }
  }

  lemma LineStarts(buf: seq<byte>, p: nat)
    ensures SkipEmptyLine(buf) == Ok(p) <==> LineStart(buf, p)
  {
  }

  // Requests.

  function EndOf(s: Span): nat {
    s.off + s.len
  }

  /** What the stages of a request publish, each at its own stage only. */
  lemma StagesPublish(buf: seq<byte>, p: nat, max: nat, h: HeadRun)
    requires p <= |buf|
    ensures var r := RequestVersion(buf, p, max, h);
            && r.method' == h.method' && r.path == h.path && r.status == h.status && r.reason == h.reason
            && (if VersionBytes(buf, p) then r.version == Some(buf[p + 7] as int - 0x30) else r.version == h.version)
            && r.log == if VersionBytes(buf, p) && Break(buf, p + 8).Ok?
                        then Headers(buf, Break(buf, p + 8).value, 0, max, []).log else h.log
  {
    hide Headers, VersionBytes, Version;
    VersionIsBytes(buf, p);
  }

  lemma TargetStage(buf: seq<byte>, p: nat, max: nat, h: HeadRun)
    requires p < |buf| && buf[p] != SP && h.method'.Some? && h.path == None
    ensures RequestTarget(buf, p, max, h) ==
            match Word(Target, buf, p).1
            case Err(err) => h.(path := Word(Target, buf, p).0, res := Err(err))
            case Ok(q) =>
              if h.method'.value.len == 0 then h.(path := Word(Target, buf, p).0, res := Err(Malformed))
              else RequestVersion(buf, q, max, h.(path := Word(Target, buf, p).0))
  {
    if Word(Target, buf, p).1.Ok? {
      WordNonempty(Target, buf, p);
    }
  }

  /** The words a request publishes. */
  lemma WordsPublish(buf: seq<byte>, max: nat)
    ensures var h := ParseRequest(buf, max);
            match SkipEmptyLine(buf)
            case Err(_) => h.method' == None && h.path == None
            case Ok(p) =>
              && h.method' == Word(Token(SP), buf, p).0
              && h.path == match Word(Token(SP), buf, p).1
                           case Err(_) => None
                           case Ok(q) => Word(Target, buf, q).0
  {
    hide Headers;
    if SkipEmptyLine(buf).Ok? {
      var (m, next) := Word(Token(SP), buf, SkipEmptyLine(buf).value);
      if next.Ok? {
        WordEnds(Token(SP), buf, SkipEmptyLine(buf).value);
        TargetStage(buf, next.value, max, NOTHING.(method' := m));
      }
    }
  }

  lemma WordIs(c: Class, buf: seq<byte>, p: nat, s: Span)
    requires p <= |buf|
    ensures Word(c, buf, p).0 == Some(s) <==> s.off == p && ScanUntil(c, SP, buf, p) == Ok(EndOf(s))
  {
  }

  /** The method of the input is `s`. */
  ghost predicate MethodThere(buf: seq<byte>, s: Span) {
    LineStart(buf, s.off) && MethodBytes(buf, s.off, EndOf(s))
  }

  /** The method is published if and only if a space ends it, even if it is empty. */
  lemma MethodPublished(buf: seq<byte>, max: nat, s: Span)
    ensures ParseRequest(buf, max).method' == Some(s) <==> MethodThere(buf, s)
  {
    hide ParseRequest, Word, ScanUntil, SkipEmptyLine, MethodBytes, LineStart;
    WordsPublish(buf, max);
    LineStarts(buf, s.off);
    match SkipEmptyLine(buf)
    case Err(_) =>
    case Ok(p) =>
      WordIs(Token(SP), buf, p, s);
      MethodIs(buf, p, EndOf(s));
  }

  lemma WordNext(c: Class, buf: seq<byte>, p: nat, q: nat)
    requires p <= |buf|
    ensures Word(c, buf, p).1 == Ok(q) <==> Word(c, buf, p).0.Some? && SpacesTo(buf, EndOf(Word(c, buf, p).0.value), q)
  {
    hide Skip, SpacesTo;
    match ScanUntil(c, SP, buf, p)
    case Err(_) =>
    case Ok(e) => SpacesAre(buf, e, q);
  }

  /** The method of the input is `m` and its target is `s`. */
  ghost predicate PathThere(buf: seq<byte>, m: Span, s: Span) {
    MethodThere(buf, m) && SpacesTo(buf, EndOf(m), s.off) && TargetBytes(buf, s.off, EndOf(s))
  }

  /** The target is published if and only if the method is, spaces lead to it, and a space ends
      it, even if the method is empty. */
  lemma PathPublished(buf: seq<byte>, max: nat, m: Span, s: Span)
    ensures var h := ParseRequest(buf, max); h.method' == Some(m) && h.path == Some(s) <==> PathThere(buf, m, s)
    ensures var h := ParseRequest(buf, max); h.path.Some? ==> h.method'.Some?
  {
    hide ParseRequest, Word, ScanUntil, SkipEmptyLine, TargetBytes, SpacesTo, MethodThere;
    WordsPublish(buf, max);
    MethodPublished(buf, max, m);
    if SkipEmptyLine(buf).Ok? {
      var p := SkipEmptyLine(buf).value;
      WordNext(Token(SP), buf, p, s.off);
      match Word(Token(SP), buf, p).1
      case Err(_) =>
      case Ok(q) =>
        WordIs(Target, buf, q, s);
        TargetIs(buf, q, EndOf(s));
    }
  }

  /** The words are there, the method is not empty, and the version is to start at `v`. */
  ghost predicate VersionDue(buf: seq<byte>, m: Span, s: Span, v: nat) {
    PathThere(buf, m, s) && m.len > 0 && SpacesTo(buf, EndOf(s), v)
  }

  /** Behind its words a request is what follows them. */
  lemma BehindWords(buf: seq<byte>, max: nat, m: Span, s: Span, v: nat)
    requires VersionDue(buf, m, s, v)
    ensures v < |buf|
    ensures ParseRequest(buf, max) == RequestVersion(buf, v, max, NOTHING.(method' := Some(m), path := Some(s)))
  {
    hide Word, RequestVersion, PathThere;
    PathPublished(buf, max, m, s);
    WordsPublish(buf, max);
    var p := SkipEmptyLine(buf).value;
    var q := Word(Token(SP), buf, p).1.value;
    WordEnds(Token(SP), buf, p);
    WordNext(Target, buf, q, v);
    TargetStage(buf, q, max, NOTHING.(method' := Word(Token(SP), buf, p).0));
  }

  /** Short of its version a request publishes its words only. */
  lemma ShortOfVersion(buf: seq<byte>, max: nat) returns (m: Span, s: Span, v: nat)
    ensures var h := ParseRequest(buf, max);
            || VersionDue(buf, m, s, v)
            || (h.res.Err? && h == HeadRun(h.res, h.method', h.path, None, None, None, []))
  {
    hide Word, RequestVersion, SpacesTo, PathThere;
    m, s, v := Span(0, 0), Span(0, 0), 0;
    WordsPublish(buf, max);
    match SkipEmptyLine(buf)
    case Err(_) =>
    case Ok(p) =>
      match Word(Token(SP), buf, p).1
      case Err(_) =>
      case Ok(q) =>
        WordEnds(Token(SP), buf, p);
        TargetStage(buf, q, max, NOTHING.(method' := Word(Token(SP), buf, p).0));
        if Word(Target, buf, q).1.Ok? {
          v := Word(Target, buf, q).1.value;
          WordNext(Target, buf, q, v);
          m, s := Word(Token(SP), buf, p).0.value, Word(Target, buf, q).0.value;
          PathPublished(buf, max, m, s);
        }
  }

  /** The version is published if and only if `HTTP/1.`, a digit and one byte more are there,
      whatever that byte is. */
  lemma VersionPublished(buf: seq<byte>, max: nat, minor: nat)
    ensures ParseRequest(buf, max).version == Some(minor) <==>
            exists m, s, v :: VersionDue(buf, m, s, v) && VersionBytes(buf, v) && buf[v + 7] as int == 0x30 + minor
  {
    hide ParseRequest, VersionDue;
    var m, s, v := ShortOfVersion(buf, max);
    if VersionDue(buf, m, s, v) {
      BehindWords(buf, max, m, s, v);
      StagesPublish(buf, v, max, NOTHING.(method' := Some(m), path := Some(s)));
    }
    if m', s', v' :| VersionDue(buf, m', s', v') && VersionBytes(buf, v') && buf[v' + 7] as int == 0x30 + minor {
      BehindWords(buf, max, m', s', v');
      StagesPublish(buf, v', max, NOTHING.(method' := Some(m'), path := Some(s')));
    }
  }

  /** The headers of a request start at `b`, behind its version and a line break. */
  ghost predicate HeadersDue(buf: seq<byte>, m: Span, s: Span, v: nat, b: nat) {
    VersionDue(buf, m, s, v) && VersionBytes(buf, v) && BreakBytes(buf, v + 8, b)
  }

  /** There its headers are written, and its verdict given, as for a block. */
  lemma HeadersOfRequest(buf: seq<byte>, max: nat, m: Span, s: Span, v: nat, b: nat)
    requires HeadersDue(buf, m, s, v, b)
    ensures b <= |buf|
    ensures var h := ParseRequest(buf, max); LineRun(h.res, h.log) == Headers(buf, b, 0, max, [])
  {
    hide ParseRequest, VersionDue, Headers, Version;
    BehindWords(buf, max, m, s, v);
    VersionIsBytes(buf, v);
    BreakIsBytes(buf, v + 8);
  }

  lemma VersionInside(buf: seq<byte>, v: nat)
    requires VersionBytes(buf, v)
    ensures v + 8 < |buf|
  {
  }

  /** Elsewhere a request writes no headers, and it never publishes a status or a reason. */
  lemma RequestHeaders(buf: seq<byte>, max: nat) returns (m: Span, s: Span, v: nat, b: nat)
    ensures var h := ParseRequest(buf, max);
            && h.status == None && h.reason == None
            && (HeadersDue(buf, m, s, v, b) || (h.log == [] && h.res.Err?))
  {
    hide ParseRequest, VersionDue, Headers, VersionBytes, Version;
    b := 0;
    m, s, v := ShortOfVersion(buf, max);
    if VersionDue(buf, m, s, v) {
      BehindWords(buf, max, m, s, v);
      VersionIsBytes(buf, v);
      if VersionBytes(buf, v) {
        VersionInside(buf, v);
        BreakIsBytes(buf, v + 8);
        if Break(buf, v + 8).Ok? {
          b := Break(buf, v + 8).value;
        }
      }
    }
  }

  // Responses.

  predicate DigitAt(buf: seq<byte>, i: nat) {
    i < |buf| && 0x30 <= buf[i] <= 0x39
  }

  /** The status is to start at `q`, behind the version and at least one space. */
  ghost predicate StatusDue(buf: seq<byte>, q: nat) {
    VersionBytes(buf, 0) && SpacesTo(buf, 8, q)
  }

  /** The digits at `q` give `status`, as far as they go: one, two or three of them. Four bytes
      are needed to try. */
  ghost predicate StatusReads(buf: seq<byte>, q: nat, status: nat) {
    && q + 4 <= |buf| && DigitAt(buf, q)
    && status == 100 * (buf[q] as int - 0x30) + if !DigitAt(buf, q + 1) then 0 else
                 10 * (buf[q + 1] as int - 0x30) + if !DigitAt(buf, q + 2) then 0 else buf[q + 2] as int - 0x30
  }

  /** All three digits, and a byte behind them. */
  ghost predicate StatusComplete(buf: seq<byte>, q: nat) {
    q + 4 <= |buf| && DigitAt(buf, q) && DigitAt(buf, q + 1) && DigitAt(buf, q + 2)
  }

  lemma StatusIsBytes(buf: seq<byte>, q: nat, status: nat)
    requires q <= |buf|
    ensures Status(buf, q).1 == Some(status) <==> StatusReads(buf, q, status)
    ensures Status(buf, q).0.Ok? <==> StatusComplete(buf, q)
  {
  }

  /** Text from `p` to a line break at `e` that ends at `k`. */
  ghost predicate TextLine(buf: seq<byte>, p: nat, e: nat, k: nat) {
    && p <= e && BreakBytes(buf, e, k)
    && forall i :: p <= i < e ==> buf[i] == 9 || 32 <= buf[i] <= 126 || 128 <= buf[i]
  }

  lemma EolIs(buf: seq<byte>, p: nat, e: nat, k: nat)
    requires p <= |buf|
    ensures ScanEol(buf, p) == Ok((e, k)) <==> TextLine(buf, p, e, k)
  {
    if TextLine(buf, p, e, k) {
      SkipIs(Text, buf, p, e);
    }
  }

  /** The phrase `s` of a line that starts at `p` and ends at `k`: without its leading spaces. */
  ghost predicate PhraseBytes(buf: seq<byte>, p: nat, s: Span, k: nat) {
    && TextLine(buf, p, EndOf(s), k) && p <= s.off
    && (forall i :: p <= i < s.off ==> buf[i] == 0x20) && buf[s.off] != 0x20
  }

  lemma ReasonIs(buf: seq<byte>, p: nat, s: Span, k: nat)
    requires p <= |buf|
    ensures Reason(buf, p).0 == Some(s) && ScanEol(buf, p) == Ok((EndOf(s), k)) <==> PhraseBytes(buf, p, s, k)
    ensures Reason(buf, p).0.Some? ==> ScanEol(buf, p).Ok? && ScanEol(buf, p).value.0 == EndOf(Reason(buf, p).0.value)
    ensures Reason(buf, p).1.Ok? <==> ScanEol(buf, p).Ok? && (buf[p] == 0x20 || buf[p] == 0x0D || buf[p] == 0x0A)
    ensures Reason(buf, p).1.Ok? ==> Reason(buf, p).1.value == ScanEol(buf, p).value.1
  {
    EolIs(buf, p, EndOf(s), k);
  }

  lemma ResponseUnfold(buf: seq<byte>, max: nat, q: nat)
    requires StatusDue(buf, q)
    ensures ParseResponse(buf, max) ==
            ResponseStatus(buf, q, max, NOTHING.(version := Some(buf[7] as int - 0x30)))
  {
    hide ResponseStatus, Skip;
    VersionIsBytes(buf, 0);
    SpacesAre(buf, 8, q);
  }

  /** Short of its status a response publishes its version at most. */
  lemma ShortOfStatus(buf: seq<byte>, max: nat) returns (q: nat)
    ensures var h := ParseResponse(buf, max);
            || StatusDue(buf, q)
            || (h.res.Err? && h == HeadRun(h.res, None, None, h.version, None, None, []))
  {
    hide ResponseStatus, Skip, SpacesTo;
    q := 0;
    VersionIsBytes(buf, 0);
    if VersionBytes(buf, 0) && buf[8] == SP && SkipTo(Spaces, buf, 9).Ok? {
      q := SkipTo(Spaces, buf, 9).value;
      SpacesAre(buf, 8, q);
    }
  }

  lemma ResponseVersionStays(buf: seq<byte>, max: nat)
    ensures ParseResponse(buf, max).version ==
            if VersionBytes(buf, 0) then Some(buf[7] as int - 0x30) else None
    ensures ParseResponse(buf, max).method' == None && ParseResponse(buf, max).path == None
  {
    hide Headers, Reason, Status, Skip, Version;
    VersionIsBytes(buf, 0);
  }

  /** The version of a response is published if and only if its nine bytes are there, whatever
      the ninth is. */
  lemma ResponseVersionPublished(buf: seq<byte>, max: nat, minor: nat)
    ensures ParseResponse(buf, max).version == Some(minor) <==>
            VersionBytes(buf, 0) && buf[7] as int == 0x30 + minor
  {
    hide ParseResponse;
    ResponseVersionStays(buf, max);
  }

  lemma StatusStays(buf: seq<byte>, q: nat, max: nat, h: HeadRun)
    requires q <= |buf|
    ensures ResponseStatus(buf, q, max, h).status == Status(buf, q).1
  {
    hide Headers, Reason, Status;
  }

  /** The status is published digit by digit: a byte that is no digit leaves the ones before it. */
  lemma StatusPublished(buf: seq<byte>, max: nat, status: nat)
    ensures ParseResponse(buf, max).status == Some(status) <==>
            exists q: nat :: StatusDue(buf, q) && StatusReads(buf, q, status)
  {
    hide ParseResponse, ResponseStatus, Status, StatusReads, VersionBytes;
    var due := ShortOfStatus(buf, max);
    if StatusDue(buf, due) {
      ResponseUnfold(buf, max, due);
      StatusStays(buf, due, max, NOTHING.(version := ParseResponse(buf, max).version));
      StatusIsBytes(buf, due, status);
      ResponseVersionStays(buf, max);
    }
    if q: nat :| StatusDue(buf, q) && StatusReads(buf, q, status) {
      ResponseUnfold(buf, max, q);
      ResponseVersionStays(buf, max);
      StatusStays(buf, q, max, NOTHING.(version := ParseResponse(buf, max).version));
      StatusIsBytes(buf, q, status);
    }
  }

  lemma ReasonStays(buf: seq<byte>, q: nat, max: nat, h: HeadRun)
    requires q <= |buf| && h.reason == None && h.log == []
    ensures var r := ResponseStatus(buf, q, max, h);
            if StatusComplete(buf, q) then
              var (reason, next) := Reason(buf, q + 3);
              && r.reason == reason
              && (next.Err? ==> r.res == Err(next.error) && r.log == [])
              && (next.Ok? ==> LineRun(r.res, r.log) == Headers(buf, next.value, 0, max, []))
            else r.reason == None && r.log == [] && r.res.Err?
  {
    hide Headers, Reason, Status, StatusComplete;
    StatusIsBytes(buf, q, 0);
  }

  /** The phrase of a response is `s`, and its line ends at `k`. */
  ghost predicate PhraseDue(buf: seq<byte>, q: nat, s: Span, k: nat) {
    StatusDue(buf, q) && StatusComplete(buf, q) && PhraseBytes(buf, q + 3, s, k)
  }

  /** The phrase is published if and only if its line ends, even if no space introduces it. */
  lemma ReasonPublished(buf: seq<byte>, max: nat, s: Span)
    ensures ParseResponse(buf, max).reason == Some(s) <==> exists q: nat, k: nat :: PhraseDue(buf, q, s, k)
  {
    hide ParseResponse, ResponseStatus, Reason, ScanEol, Headers, PhraseBytes, VersionBytes;
    var due := ShortOfStatus(buf, max);
    var h := ParseResponse(buf, max);
    ResponseVersionStays(buf, max);
    if StatusDue(buf, due) {
      ResponseUnfold(buf, max, due);
      ReasonStays(buf, due, max, NOTHING.(version := h.version));
      if StatusComplete(buf, due) && h.reason == Some(s) {
        ReasonIs(buf, due + 3, s, 0);
        var k := ScanEol(buf, due + 3).value.1;
        ReasonIs(buf, due + 3, s, k);
        assert PhraseDue(buf, due, s, k);
      }
    }
    if q: nat, k: nat :| PhraseDue(buf, q, s, k) {
      ResponseUnfold(buf, max, q);
      ReasonStays(buf, q, max, NOTHING.(version := h.version));
      ReasonIs(buf, q + 3, s, k);
    }
  }

  /** Behind a phrase with a space in front, or none, the headers of a response are written, and
      its verdict given, as for a block. */
  lemma HeadersOfResponse(buf: seq<byte>, max: nat, q: nat, s: Span, k: nat)
    requires PhraseDue(buf, q, s, k)
    ensures k <= |buf|
    ensures var h := ParseResponse(buf, max);
            if buf[q + 3] == 0x20 || buf[q + 3] == 0x0D || buf[q + 3] == 0x0A
            then LineRun(h.res, h.log) == Headers(buf, k, 0, max, [])
            else h.res.Err? && h.log == []
  {
    hide ParseResponse, ResponseStatus, Reason, ScanEol, Headers, PhraseBytes, VersionBytes;
    ResponseUnfold(buf, max, q);
    ResponseVersionStays(buf, max);
    ReasonStays(buf, q, max, NOTHING.(version := ParseResponse(buf, max).version));
    ReasonIs(buf, q + 3, s, k);
  }

  /** Without a phrase a response writes no headers. */
  lemma ResponseHeaders(buf: seq<byte>, max: nat)
    requires ParseResponse(buf, max).reason == None
    ensures ParseResponse(buf, max).log == [] && ParseResponse(buf, max).res.Err?
  {
    hide ParseResponse, ResponseStatus, Headers, VersionBytes;
    var due := ShortOfStatus(buf, max);
    ResponseVersionStays(buf, max);
    if StatusDue(buf, due) {
      ResponseUnfold(buf, max, due);
      ReasonStays(buf, due, max, NOTHING.(version := ParseResponse(buf, max).version));
    }
  }

  // Header blocks.

  /** Header lines without the blank line. */
  function PrintLines(lines: seq<Header>): seq<byte> {
    if lines == [] then [] else PrintLine(lines[0]) + PrintLines(lines[1..])
  }

  /** Nothing is looked at: the input ends, a line break is next, or there is no more room. */
  predicate Stops(buf: seq<byte>, q: nat, n: nat, max: nat) {
    q >= |buf| || buf[q] == 0x0D || buf[q] == 0x0A || n >= max
  }

  /** No complete line is written at `q`. */
  ghost predicate NoLine(buf: seq<byte>, q: nat, first: bool) {
    forall h: Header :: ValidLine(h, first) ==> !At(buf, q, PrintLine(h))
  }

  /** The name of header `n` at `q`: none behind a blank, unless it is the first, and otherwise
      token characters up to a colon, possibly none. */
  ghost predicate NameBytes(buf: seq<byte>, q: nat, n: nat, name: Option<Span>) {
    && q < |buf|
    && if n > 0 && (buf[q] == 0x20 || buf[q] == 0x09) then name == None
       else
         && name.Some? && name.value.off == q && EndOf(name.value) < |buf| && buf[EndOf(name.value)] == 0x3A
         && forall i :: q <= i < EndOf(name.value) ==> TokenChar(buf[i] as char)
  }

  lemma ColonIsNoToken()
    ensures !TokenChar(0x3A as char)
  {
  }

  lemma TokenIs(buf: seq<byte>, p: nat, c: nat)
    requires p <= |buf|
    ensures ScanToken(buf, p, COLON) == Ok(c) <==>
            p <= c < |buf| && buf[c] == 0x3A && forall i :: p <= i < c ==> TokenChar(buf[i] as char)
  {
    hide TokenChar;
    UntilIs(Token(COLON), COLON, buf, p, c);
    forall i | p <= i < c && i < |buf|
      ensures Accepts(Token(COLON), buf[i]) <==> buf[i] != 0x3A && TokenChar(buf[i] as char) {
      ClassesExact(buf[i], COLON);
    }
    ColonIsNoToken();
  }

  /** A line that does not parse has written its name if that is there, and nothing else. */
  lemma LineInProgress(buf: seq<byte>, q: nat, n: nat, name: Option<Span>)
    requires q < |buf| && HeaderLine(buf, q, n).res.Err?
    ensures HeaderLine(buf, q, n).log == [Name(n, name)] <==> NameBytes(buf, q, n, name)
    ensures var log := HeaderLine(buf, q, n).log; log == [] || (|log| == 1 && log[0].Name? && log[0].i == n)
  {
    hide ScanToken, TokenChar, ScanEol, SkipTo;
    if !(n != 0 && IsBlank(buf[q])) && name.Some? {
      TokenIs(buf, q, EndOf(name.value));
    }
  }

  lemma MeaningsFirst(h: Header, rest: seq<Header>)
    ensures Meanings([h] + rest) == [Meaning(h)] + Meanings(rest)
    ensures PrintLines([h] + rest) == PrintLine(h) + PrintLines(rest)
    ensures ValidLine(h, true) && ValidLines(rest, false) ==> ValidLines([h] + rest, true)
    ensures ValidLine(h, false) && ValidLines(rest, false) ==> ValidLines([h] + rest, false)
  {
    assert ([h] + rest)[1..] == rest;
  }

  lemma AtNothing(buf: seq<byte>, p: nat)
    requires p <= |buf|
    ensures At(buf, p, [])
  {
  }

  /** What a block writes, whatever its verdict: all the lines it read, and the name of the line
      it stopped in, if that is there. */
  lemma {:induction false} BlockWrites(buf: seq<byte>, p: nat, n: nat, max: nat, log: seq<Write>)
    returns (lines: seq<Header>, all: seq<Write>, tail: seq<Write>)
    requires p <= |buf| && n <= max && |log| == 2 * n
    ensures ValidLines(lines, n == 0) && At(buf, p, PrintLines(lines)) && n + |lines| <= max
    ensures Headers(buf, p, n, max, log).log == all + tail && |all| == 2 * (n + |lines|)
    ensures ReadBack(buf, all, n + |lines|) == ReadBack(buf, log, n) + Meanings(lines)
    ensures var q, k := p + |PrintLines(lines)|, n + |lines|;
            && q <= |buf|
            && if Stops(buf, q, k, max) then tail == []
               else HeaderLine(buf, q, k).res.Err? && tail == HeaderLine(buf, q, k).log
    decreases |buf| - p
  {
    hide At, HeaderLine, ReadBack, Meanings, ValidLine, PrintLine;
    lines, all, tail := [], log, [];
    AtNothing(buf, p);
    if !Stops(buf, p, n, max) {
      HeadersUnfold(buf, p, n, max, log);
      if HeaderLine(buf, p, n).res.Err? {
        tail := HeaderLine(buf, p, n).log;
      } else {
        var h := LineShape(buf, p, n);
        LineParses(buf, p, h, n);
        OneMoreReadsBack(buf, p, h, n, log);
        LineAtIsPrinted(buf, p, h);
        var rest;
        rest, all, tail := BlockWrites(buf, LineEnd(p, h), n + 1, max, log + LineWrites(h, p, n));
        MeaningsFirst(h, rest);
        AtSplit(buf, p, PrintLine(h), PrintLines(rest));
        lines := [h] + rest;
      }
    }
  }
}
