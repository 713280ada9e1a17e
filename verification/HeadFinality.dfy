/** Verdicts other than Partial are final, and nothing published is ever taken back. */
module HeadFinality {
  import opened Bytes
  import opened HeadSpec

  /** A scan of `buf` that wants more bytes can only succeed on a longer input beyond them. */
  ghost predicate Beyond(r: Result<nat>, r': Result<nat>, n: nat) {
    r == Err(Partial) && r'.Ok? ==> r'.value > n
  }

  /** More input behind `n` bytes only continues a run: a final verdict stays with everything
      published; what a partial run has published stays as it is, and if it comes to succeed,
      then past the `n` bytes. */
  ghost predicate Continues(h: HeadRun, h': HeadRun, n: nat) {
    && (h.res != Err(Partial) ==> h' == h)
    && (h.method'.Some? ==> h'.method' == h.method')
    && (h.path.Some? ==> h'.path == h.path)
    && (h.version.Some? ==> h'.version == h.version)
    && (h.status.Some? ==> h'.status == h.status)
    && (h.reason.Some? ==> h'.reason == h.reason)
    && h.log <= h'.log
    && Beyond(h.res, h'.res, n)
  }

  ghost predicate AtLeast(r: Result<nat>, r': Result<nat>, n: nat) {
    r == Err(Partial) && r'.Ok? ==> r'.value >= n
  }

  lemma SkipFinal(c: Class, buf: seq<byte>, full: seq<byte>, p: nat)
    requires buf <= full && p <= |buf|
    ensures Skip(c, buf, p) < |buf| ==> Skip(c, full, p) == Skip(c, buf, p)
    ensures Skip(c, buf, p) == |buf| ==> Skip(c, full, p) >= |buf|
  {
    if Skip(c, buf, p) < |buf| {
      SkipIs(c, full, p, Skip(c, buf, p));
    }
  }

  lemma UntilFinal(c: Class, stop: byte, buf: seq<byte>, full: seq<byte>, p: nat)
    requires buf <= full && p <= |buf|
    ensures ScanUntil(c, stop, buf, p) != Err(Partial) ==> ScanUntil(c, stop, full, p) == ScanUntil(c, stop, buf, p)
    ensures AtLeast(ScanUntil(c, stop, buf, p), ScanUntil(c, stop, full, p), |buf|)
  {
    SkipFinal(c, buf, full, p);
  }

  lemma ToFinal(c: Class, buf: seq<byte>, full: seq<byte>, p: nat)
    requires buf <= full && p <= |buf|
    ensures SkipTo(c, buf, p) != Err(Partial) ==> SkipTo(c, full, p) == SkipTo(c, buf, p)
    ensures AtLeast(SkipTo(c, buf, p), SkipTo(c, full, p), |buf|)
  {
    SkipFinal(c, buf, full, p);
  }

  lemma BreakFinal(buf: seq<byte>, full: seq<byte>, p: nat)
    requires buf <= full && p < |buf|
    ensures Break(buf, p) != Err(Partial) ==> Break(full, p) == Break(buf, p)
    ensures Beyond(Break(buf, p), Break(full, p), |buf|)
  {
  }

  lemma EolFinal(buf: seq<byte>, full: seq<byte>, p: nat)
    requires buf <= full && p <= |buf|
    ensures ScanEol(buf, p) != Err(Partial) ==> ScanEol(full, p) == ScanEol(buf, p)
    ensures ScanEol(buf, p) == Err(Partial) && ScanEol(full, p).Ok? ==> ScanEol(full, p).value.1 > |buf|
  {
    SkipFinal(Text, buf, full, p);
    var e := Skip(Text, buf, p);
    if e < |buf| {
      BreakFinal(buf, full, e);
    }
  }

  lemma TrimFinal(buf: seq<byte>, full: seq<byte>, start: nat, end: nat)
    requires buf <= full && start <= end <= |buf|
    ensures RTrim(full, start, end) == RTrim(buf, start, end)
  {
    RTrimIs(full, start, end, RTrim(buf, start, end));
  }

  lemma ValueFinal(buf: seq<byte>, full: seq<byte>, p: nat, n: nat, name: Write)
    requires buf <= full && p <= |buf|
    ensures var r, r' := ScanValue(buf, p, n, name), ScanValue(full, p, n, name);
            (r.res != Err(Partial) ==> r' == r) && r.log <= r'.log && Beyond(r.res, r'.res, |buf|)
  {
    hide Skip, RTrim, ScanEol;
    EolFinal(buf, full, p);
    match ScanEol(buf, p)
    case Ok((e, _)) => TrimFinal(buf, full, p, e);
    case Err(_) =>
  }

  lemma FieldFinal(buf: seq<byte>, full: seq<byte>, p: nat)
    requires buf <= full && p <= |buf|
    ensures var f, f' := FieldName(buf, p), FieldName(full, p);
            (f.1 != Err(Partial) ==> f' == f) && (f.0.Some? ==> f'.0 == f.0) && AtLeast(f.1, f'.1, |buf|)
  {
    UntilFinal(Token(COLON), COLON, buf, full, p);
    var token := ScanToken(buf, p, COLON);
    if token.Ok? {
      ToFinal(Blanks, buf, full, token.value + 1);
    }
  }

  lemma NamedFinal(buf: seq<byte>, full: seq<byte>, p: nat, n: nat)
    requires buf <= full && p <= |buf|
    ensures var r, r' := NamedLine(buf, p, n), NamedLine(full, p, n);
            (r.res != Err(Partial) ==> r' == r) && r.log <= r'.log && Beyond(r.res, r'.res, |buf|)
  {
    FieldFinal(buf, full, p);
    var (name, start) := FieldName(buf, p);
    if start.Ok? {
      ValueFinal(buf, full, start.value, n, Name(n, name));
    }
  }

  lemma LineFinal(buf: seq<byte>, full: seq<byte>, p: nat, n: nat)
    requires buf <= full && p < |buf|
    ensures var r, r' := HeaderLine(buf, p, n), HeaderLine(full, p, n);
            (r.res != Err(Partial) ==> r' == r) && r.log <= r'.log && Beyond(r.res, r'.res, |buf|)
  {
    if n != 0 && IsBlank(buf[p]) {
      ValueFinal(buf, full, p, n, Name(n, None));
    } else {
      NamedFinal(buf, full, p, n);
    }
  }

  /** A block only ever adds to the log it starts with. */
  lemma {:induction false} LogGrows(buf: seq<byte>, p: nat, n: nat, max: nat, log: seq<Write>)
    requires p <= |buf|
    ensures log <= Headers(buf, p, n, max, log).log
    decreases |buf| - p
  {
    if p < |buf| && buf[p] != CR && buf[p] != LF && n != max && HeaderLine(buf, p, n).res.Ok? {
      var line := HeaderLine(buf, p, n);
      LogGrows(buf, line.res.value, n + 1, max, log + line.log);
    }
  }

  lemma PrefixBehind(log: seq<Write>, a: seq<Write>, b: seq<Write>, c: seq<Write>)
    requires a <= b && log + b <= c
    ensures log + a <= c
  {
    assert (log + b)[..|log + a|] == log + a;
  }

  lemma LineLogStays(buf: seq<byte>, p: nat, n: nat, max: nat, log: seq<Write>)
    requires p < |buf| && buf[p] != CR && buf[p] != LF && n != max
    ensures log + HeaderLine(buf, p, n).log <= Headers(buf, p, n, max, log).log
  {
    HeadersUnfold(buf, p, n, max, log);
    var line := HeaderLine(buf, p, n);
    if line.res.Ok? {
      LogGrows(buf, line.res.value, n + 1, max, log + line.log);
    }
  }

  /** The step of `HeadersFinal` over one line. */
  lemma HeadersGoOn(buf: seq<byte>, full: seq<byte>, p: nat, n: nat, max: nat, log: seq<Write>)
    requires buf <= full && p < |buf| && buf[p] != CR && buf[p] != LF && n != max
    ensures var line, r, r' := HeaderLine(buf, p, n), Headers(buf, p, n, max, log), Headers(full, p, n, max, log);
            match line.res
            case Ok(q) =>
              && r == Headers(buf, q, n + 1, max, log + line.log)
              && r' == Headers(full, q, n + 1, max, log + line.log)
            case Err(Malformed) => r' == r
            case Err(Partial) => r.res == Err(Partial) && r.log <= r'.log && Beyond(r.res, r'.res, |buf|)
  {
    var line, line' := HeaderLine(buf, p, n), HeaderLine(full, p, n);
    LineFinal(buf, full, p, n);
    HeadersUnfold(buf, p, n, max, log);
    HeadersUnfold(full, p, n, max, log);
    if line.res == Err(Partial) {
      LineLogStays(full, p, n, max, log);
      PrefixBehind(log, line.log, line'.log, Headers(full, p, n, max, log).log);
    }
  }

  lemma {:induction false} HeadersFinal(buf: seq<byte>, full: seq<byte>, p: nat, n: nat, max: nat, log: seq<Write>)
    requires buf <= full && p <= |buf|
    ensures var r, r' := Headers(buf, p, n, max, log), Headers(full, p, n, max, log);
            (r.res != Err(Partial) ==> r' == r) && r.log <= r'.log && Beyond(r.res, r'.res, |buf|)
    decreases |buf| - p
  {
    if p == |buf| {
      LogGrows(full, p, n, max, log);
    } else if buf[p] == CR || buf[p] == LF {
      BreakFinal(buf, full, p);
    } else if n != max {
      HeadersGoOn(buf, full, p, n, max, log);
      var line := HeaderLine(buf, p, n);
      if line.res.Ok? {
        HeadersFinal(buf, full, line.res.value, n + 1, max, log + line.log);
      }
    }
  }

  lemma VersionFinal(buf: seq<byte>, full: seq<byte>, p: nat)
    requires buf <= full && p <= |buf|
    ensures Version(buf, p) != Err(Partial) ==> Version(full, p) == Version(buf, p)
  {
    if |buf| - p >= 9 {
      assert full[p..p + 7] == buf[p..p + 7];
    }
  }

  lemma WordFinal(c: Class, buf: seq<byte>, full: seq<byte>, p: nat)
    requires buf <= full && p <= |buf|
    ensures var w, w' := Word(c, buf, p), Word(c, full, p);
            (w.1 != Err(Partial) ==> w' == w) && (w.0.Some? ==> w'.0 == w.0) && AtLeast(w.1, w'.1, |buf|)
  {
    hide Skip;
    UntilFinal(c, SP, buf, full, p);
    var word := ScanUntil(c, SP, buf, p);
    if word.Ok? {
      ToFinal(Spaces, buf, full, word.value + 1);
    }
  }

  lemma ReasonBeyond(buf: seq<byte>, full: seq<byte>, p: nat)
    requires buf <= full && p <= |buf|
    ensures Beyond(Reason(buf, p).1, Reason(full, p).1, |buf|)
  {
    EolFinal(buf, full, p);
    match ScanEol(buf, p)
    case Err(_) =>
    case Ok((e, _)) => SpacesEndInLine(buf, p, e);
  }

  lemma RequestVersionFinal(buf: seq<byte>, full: seq<byte>, p: nat, max: nat, h: HeadRun)
    requires buf <= full && p <= |buf| && h.log == [] && h.version == None
    ensures Continues(RequestVersion(buf, p, max, h), RequestVersion(full, p, max, h), |buf|)
  {
    hide Headers;
    VersionFinal(buf, full, p);
    match Version(buf, p)
    case Err(_) =>
    case Ok((_, q)) =>
      BreakFinal(buf, full, q);
      match Break(buf, q)
      case Err(_) =>
      case Ok(q') => HeadersFinal(buf, full, q', 0, max, []);
  }

  lemma RequestTargetFinal(buf: seq<byte>, full: seq<byte>, p: nat, max: nat, h: HeadRun)
    requires buf <= full && p <= |buf| && h.method'.Some? && h.log == [] && h.path == None && h.version == None
    ensures Continues(RequestTarget(buf, p, max, h), RequestTarget(full, p, max, h), |buf|)
  {
    hide Headers;
    WordFinal(Target, buf, full, p);
    var (path, next) := Word(Target, buf, p);
    if next.Ok? {
      RequestVersionFinal(buf, full, next.value, max, h.(path := path));
    }
  }

  lemma RequestMethodFinal(buf: seq<byte>, full: seq<byte>, p: nat, max: nat)
    requires buf <= full && p <= |buf|
    ensures Continues(RequestMethod(buf, p, max), RequestMethod(full, p, max), |buf|)
  {
    hide Headers;
    WordFinal(Token(SP), buf, full, p);
    var (method', next) := Word(Token(SP), buf, p);
    if next.Ok? {
      RequestTargetFinal(buf, full, next.value, max, NOTHING.(method' := method'));
    }
  }

  lemma RequestFinal(buf: seq<byte>, full: seq<byte>, max: nat)
    requires buf <= full
    ensures Continues(ParseRequest(buf, max), ParseRequest(full, max), |buf|)
  {
    hide RequestMethod;
    if buf != [] {
      BreakFinal(buf, full, 0);
      match SkipEmptyLine(buf)
      case Err(_) =>
      case Ok(p) => RequestMethodFinal(buf, full, p, max);
    }
  }

  lemma ReasonFinal(buf: seq<byte>, full: seq<byte>, p: nat)
    requires buf <= full && p <= |buf|
    ensures Reason(buf, p).1 != Err(Partial) ==> Reason(full, p) == Reason(buf, p)
    ensures Reason(buf, p).1 == Err(Partial) ==> Reason(buf, p).0 == None
  {
    EolFinal(buf, full, p);
    match ScanEol(buf, p)
    case Err(_) =>
    case Ok((e, _)) =>
      SpacesEndInLine(buf, p, e);
      SkipFinal(Spaces, buf, full, p);
  }

  lemma ResponseReasonFinal(buf: seq<byte>, full: seq<byte>, p: nat, max: nat, h: HeadRun)
    requires buf <= full && p <= |buf| && h.log == [] && h.reason == None
    ensures Continues(ResponseReason(buf, p, max, h), ResponseReason(full, p, max, h), |buf|)
  {
    hide Headers;
    ReasonFinal(buf, full, p);
    ReasonBeyond(buf, full, p);
    var (_, next) := Reason(buf, p);
    if next.Ok? {
      HeadersFinal(buf, full, next.value, 0, max, []);
    }
  }

  lemma ResponseStatusFinal(buf: seq<byte>, full: seq<byte>, p: nat, max: nat, h: HeadRun)
    requires buf <= full && p <= |buf| && h.log == [] && h.status == None && h.reason == None
    ensures Continues(ResponseStatus(buf, p, max, h), ResponseStatus(full, p, max, h), |buf|)
  {
    hide Headers;
    assert Status(buf, p).0 != Err(Partial) ==> Status(full, p) == Status(buf, p);
    var (next, status) := Status(buf, p);
    if next.Ok? {
      ResponseReasonFinal(buf, full, next.value, max, h.(status := status));
    }
  }

  lemma ResponseSpacesFinal(buf: seq<byte>, full: seq<byte>, p: nat, max: nat, h: HeadRun)
    requires buf <= full && p < |buf| && h.log == [] && h.status == None && h.reason == None
    ensures Continues(ResponseSpaces(buf, p, max, h), ResponseSpaces(full, p, max, h), |buf|)
  {
    hide Headers, Skip, Reason, Status;
    ToFinal(Spaces, buf, full, p + 1);
    var next := SkipTo(Spaces, buf, p + 1);
    if next.Ok? {
      ResponseStatusFinal(buf, full, next.value, max, h);
    }
  }

  lemma ResponseFinal(buf: seq<byte>, full: seq<byte>, max: nat)
    requires buf <= full
    ensures Continues(ParseResponse(buf, max), ParseResponse(full, max), |buf|)
  {
    hide ResponseSpaces;
    VersionFinal(buf, full, 0);
    match Version(buf, 0)
    case Err(_) =>
    case Ok((v, p)) => ResponseSpacesFinal(buf, full, p, max, NOTHING.(version := Some(v)));
  }

  /** The theorem, for requests, responses and header blocks. */
  lemma VerdictsAreFinal(kind: Kind, buf: seq<byte>, full: seq<byte>, max: nat)
    requires buf <= full
    ensures Continues(Parse(kind, buf, max), Parse(kind, full, max), |buf|)
  {
    match kind
    case Request => RequestFinal(buf, full, max);
    case Response => ResponseFinal(buf, full, max);
    case Block => HeadersFinal(buf, full, 0, 0, max, []);
  }
}
