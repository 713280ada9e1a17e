/** When Partial is exact: whether some continuation of the input parses. */
module HeadPartial {
  import opened Bytes
  import opened HeadSpec
  import opened HeadFinality

  const LETTER: byte := 0x61

  // Header blocks: always.

  lemma FinishEol(buf: seq<byte>, p: nat) returns (full: seq<byte>)
    requires p <= |buf| && ScanEol(buf, p) == Err(Partial)
    ensures buf <= full && ScanEol(full, p).Ok? && ScanEol(full, p).value.1 == |full|
  {
    full := buf + [LF];
    SkipIs(Text, full, p, Skip(Text, buf, p));
  }

  lemma FinishField(buf: seq<byte>, p: nat) returns (full: seq<byte>)
    requires p <= |buf| && FieldName(buf, p).1 == Err(Partial)
    ensures buf <= full && |full| > 0 && full[|full| - 1] == LF && FieldName(full, p).1 == Ok(|full| - 1)
  {
    hide Skip;
    var c := Skip(Token(COLON), buf, p);
    full := buf + if c == |buf| then [LETTER, COLON, LF] else [LF];
    var c' := if c == |buf| then |buf| + 1 else c;
    SkipIs(Token(COLON), full, p, c');
    SkipIs(Blanks, full, c' + 1, |full| - 1);
  }

  /** A value that has not begun is empty once its line ends. */
  lemma EmptyValue(full: seq<byte>, p: nat, n: nat, name: Write)
    requires p + 1 == |full| && full[p] == LF
    ensures ScanValue(full, p, n, name).res == Ok(|full|)
  {
    SkipIs(Text, full, p, p);
  }

  lemma NamedUnfold(buf: seq<byte>, p: nat, n: nat)
    requires p <= |buf| && FieldName(buf, p).1.Ok?
    ensures NamedLine(buf, p, n) == ScanValue(buf, FieldName(buf, p).1.value, n, Name(n, FieldName(buf, p).0))
  {
  }

  lemma FinishNamed(buf: seq<byte>, p: nat, n: nat) returns (full: seq<byte>)
    requires p < |buf| && NamedLine(buf, p, n).res == Err(Partial)
    ensures buf <= full && NamedLine(full, p, n).res == Ok(|full|)
  {
    if FieldName(buf, p).1.Ok? {
      NamedUnfold(buf, p, n);
      full := FinishEol(buf, FieldName(buf, p).1.value);
      FieldFinal(buf, full, p);
      NamedUnfold(full, p, n);
    } else {
      full := FinishField(buf, p);
      NamedUnfold(full, p, n);
      EmptyValue(full, |full| - 1, n, Name(n, FieldName(full, p).0));
    }
  }

  lemma FinishLine(buf: seq<byte>, p: nat, n: nat) returns (full: seq<byte>)
    requires p < |buf| && HeaderLine(buf, p, n).res == Err(Partial)
    ensures buf <= full && HeaderLine(full, p, n).res == Ok(|full|)
  {
    if n != 0 && IsBlank(buf[p]) {
      full := FinishEol(buf, p);
    } else {
      full := FinishNamed(buf, p, n);
    }
  }

  lemma {:induction false} FinishHeaders(buf: seq<byte>, p: nat, n: nat, max: nat, log: seq<Write>)
    returns (full: seq<byte>)
    requires p <= |buf| && Headers(buf, p, n, max, log).res == Err(Partial)
    ensures buf <= full && Headers(full, p, n, max, log).res.Ok?
    decreases |buf| - p
  {
    if p == |buf| || buf[p] == CR || buf[p] == LF {
      full := buf + [LF];
    } else {
      HeadersUnfold(buf, p, n, max, log);
      var line := HeaderLine(buf, p, n);
      if line.res.Ok? {
        full := FinishHeaders(buf, line.res.value, n + 1, max, log + line.log);
        LineFinal(buf, full, p, n);
      } else {
        var done := FinishLine(buf, p, n);
        full := done + [LF];
        LineFinal(done, full, p, n);
      }
      HeadersUnfold(full, p, n, max, log);
    }
  }

  /** A header block asks for more exactly when it does not parse and some continuation of it
      does, at any capacity. */
  lemma PartialIsExactForBlocks(buf: seq<byte>, max: nat)
    ensures ParseBlock(buf, max).res == Err(Partial) <==>
            !ParseBlock(buf, max).res.Ok? && exists full: seq<byte> :: buf <= full && ParseBlock(full, max).res.Ok?
  {
    if ParseBlock(buf, max).res == Err(Partial) {
      var full := FinishHeaders(buf, 0, 0, max, []);
      assert ParseBlock(full, max).res.Ok?;
    }
    if full: seq<byte> :| buf <= full && ParseBlock(full, max).res.Ok? {
      VerdictsAreFinal(Block, buf, full, max);
    }
  }

  // Heads: only if what is there can still become a head.

  /** The bytes from `p` can begin `HTTP/1.` and a digit. */
  predicate VersionMayStart(buf: seq<byte>, p: nat)
    requires p <= |buf|
  {
    && (forall i :: p <= i < p + 7 && i < |buf| ==> buf[i] == PREFIX[i - p])
    && (p + 7 < |buf| ==> IsDigit(buf[p + 7]))
  }

  lemma VersionIsStart(buf: seq<byte>, p: nat)
    requires p <= |buf|
    ensures Version(buf, p).Ok? ==> VersionMayStart(buf, p)
    ensures |buf| - p >= 9 && VersionMayStart(buf, p) ==> Version(buf, p).Ok?
  {
    if |buf| - p >= 9 {
      if Version(buf, p).Ok? {
        forall i | p <= i < p + 7 ensures buf[i] == PREFIX[i - p] {
          assert buf[i] == buf[p..p + 7][i - p];
        }
      }
      if VersionMayStart(buf, p) {
        assert buf[p..p + 7] == PREFIX;
      }
    }
  }

  /** The version completed, and the byte `b` behind it. */
  lemma FinishVersion(buf: seq<byte>, p: nat, b: byte) returns (full: seq<byte>)
    requires p <= |buf| && Version(buf, p) == Err(Partial) && VersionMayStart(buf, p)
    ensures buf <= full && |full| == p + 9 && full[p + 8] == b && Version(full, p).Ok?
  {
    full := buf + (PREFIX + [0x31, b])[|buf| - p..];
    VersionIsStart(full, p);
  }

  /** A word that wants more can be completed, with `b` behind its spaces. */
  lemma FinishWord(c: Class, buf: seq<byte>, p: nat, b: byte) returns (full: seq<byte>)
    requires p <= |buf| && Word(c, buf, p).1 == Err(Partial) && b != SP
    requires c == Target || c == Token(SP)
    ensures buf < full && full[|full| - 1] == b && Word(c, full, p).1 == Ok(|full| - 1)
    ensures Word(c, buf, p).0.None? ==> Word(c, full, p).0.value.len > 0
  {
    hide Skip;
    var e := Skip(c, buf, p);
    full := buf + if e == |buf| then [LETTER, SP, b] else [b];
    var e' := if e == |buf| then |buf| + 1 else e;
    SkipIs(c, full, p, e');
    SkipIs(Spaces, full, e' + 1, |full| - 1);
  }

  lemma FinishRequestVersion(buf: seq<byte>, p: nat, max: nat, h: HeadRun) returns (full: seq<byte>)
    requires p <= |buf| && RequestVersion(buf, p, max, h).res == Err(Partial) && VersionMayStart(buf, p)
    ensures buf <= full && RequestVersion(full, p, max, h).res.Ok?
  {
    if Version(buf, p).Err? {
      var part := FinishVersion(buf, p, LF);
      full := part + [LF];
      VersionFinal(part, full, p);
    } else {
      var q := Version(buf, p).value.1;
      if Break(buf, q).Err? {
        full := buf + [LF, LF];
      } else {
        full := FinishHeaders(buf, Break(buf, q).value, 0, max, []);
        BreakFinal(buf, full, q);
      }
      VersionFinal(buf, full, p);
    }
  }

  lemma WordNonempty(c: Class, buf: seq<byte>, p: nat)
    requires p < |buf| && buf[p] != SP && Word(c, buf, p).0.Some?
    ensures Word(c, buf, p).0.value.len > 0
  {
  }

  lemma TargetUnfold(buf: seq<byte>, p: nat, max: nat, h: HeadRun)
    requires p < |buf| && buf[p] != SP && h.method'.Some? && h.method'.value.len > 0 && Word(Target, buf, p).1.Ok?
    ensures RequestTarget(buf, p, max, h) ==
            RequestVersion(buf, Word(Target, buf, p).1.value, max, h.(path := Word(Target, buf, p).0))
  {
    WordNonempty(Target, buf, p);
  }

  lemma FinishBehindTarget(buf: seq<byte>, p: nat, max: nat, h: HeadRun) returns (full: seq<byte>)
    requires p < |buf| && buf[p] != SP && h.method'.Some? && h.method'.value.len > 0
    requires Word(Target, buf, p).1.Ok? && VersionMayStart(buf, Word(Target, buf, p).1.value)
    requires RequestTarget(buf, p, max, h).res == Err(Partial)
    ensures buf <= full && RequestTarget(full, p, max, h).res.Ok?
  {
    var (path, next) := Word(Target, buf, p);
    TargetUnfold(buf, p, max, h);
    full := FinishRequestVersion(buf, next.value, max, h.(path := path));
    WordFinal(Target, buf, full, p);
    TargetUnfold(full, p, max, h);
  }

  lemma FinishTarget(buf: seq<byte>, p: nat, max: nat, h: HeadRun) returns (full: seq<byte>)
    requires p < |buf| && buf[p] != SP && h.method'.Some? && h.method'.value.len > 0
    requires RequestTarget(buf, p, max, h).res == Err(Partial)
    requires Word(Target, buf, p).1.Ok? ==> VersionMayStart(buf, Word(Target, buf, p).1.value)
    ensures buf <= full && RequestTarget(full, p, max, h).res.Ok?
  {
    var part := buf;
    if Word(Target, buf, p).1.Err? {
      part := FinishWord(Target, buf, p, PREFIX[0]);
      TargetUnfold(part, p, max, h);
    }
    full := FinishBehindTarget(part, p, max, h);
  }

  /** Where the version starts, as far as the bytes go, on a line whose method ends at `e`. */
  function VersionStart(buf: seq<byte>, e: nat): (v: nat)
    requires e <= |buf|
    ensures e <= v <= |buf|
  {
    Skip(Spaces, buf, Skip(Target, buf, Skip(Spaces, buf, e)))
  }

  predicate LineMayBegin(buf: seq<byte>, p: nat)
    requires p <= |buf|
  {
    var e := Skip(Token(SP), buf, p);
    e < |buf| ==> e > p && VersionMayStart(buf, VersionStart(buf, e))
  }

  /** The method is not empty and what follows the target can begin a version. */
  predicate RequestMayBegin(buf: seq<byte>) {
    match SkipEmptyLine(buf)
    case Err(_) => true
    case Ok(p) => LineMayBegin(buf, p)
  }

  lemma WordEnds(c: Class, buf: seq<byte>, p: nat)
    requires p <= |buf| && Word(c, buf, p).1.Ok?
    ensures Skip(c, buf, p) < |buf| && Word(c, buf, p).0 == Some(Span(p, Skip(c, buf, p) - p))
    ensures Word(c, buf, p).1 == Ok(Skip(Spaces, buf, Skip(c, buf, p))) && buf[Word(c, buf, p).1.value] != SP
  {
  }

  lemma TargetPublishes(buf: seq<byte>, p: nat, max: nat, h: HeadRun)
    requires p <= |buf| && h.method'.Some? && h.path == None
    ensures RequestTarget(buf, p, max, h).path == Word(Target, buf, p).0
  {
  }

  /** A request never publishes an empty target: a target starts at a byte that is not a space. */
  lemma TargetNeverEmpty(buf: seq<byte>, max: nat)
    ensures ParseRequest(buf, max).path.Some? ==> ParseRequest(buf, max).path.value.len > 0
  {
    if ParseRequest(buf, max).path.Some? {
      var p := SkipEmptyLine(buf).value;
      WordEnds(Token(SP), buf, p);
      WordNonempty(Target, buf, Word(Token(SP), buf, p).1.value);
      TargetPublishes(buf, Word(Token(SP), buf, p).1.value, max, NOTHING.(method' := Word(Token(SP), buf, p).0));
    }
  }

  lemma FinishFromTarget(buf: seq<byte>, p: nat, max: nat) returns (full: seq<byte>)
    requires p <= |buf| && LineMayBegin(buf, p)
    requires Word(Token(SP), buf, p).1.Ok? && RequestMethod(buf, p, max).res == Err(Partial)
    ensures buf <= full && RequestMethod(full, p, max).res.Ok?
  {
    var (m, next) := Word(Token(SP), buf, p);
    WordEnds(Token(SP), buf, p);
    if Word(Target, buf, next.value).1.Ok? {
      WordEnds(Target, buf, next.value);
    }
    full := FinishTarget(buf, next.value, max, NOTHING.(method' := m));
    WordFinal(Token(SP), buf, full, p);
  }

  lemma TargetBegun(full: seq<byte>, p: nat, max: nat)
    requires p <= |full| && |full| > 0 && full[|full| - 1] == LETTER
    requires Word(Token(SP), full, p).1 == Ok(|full| - 1) && Word(Token(SP), full, p).0.value.len > 0
    ensures LineMayBegin(full, p) && RequestMethod(full, p, max).res == Err(Partial)
  {
    WordEnds(Token(SP), full, p);
    SkipIs(Target, full, |full| - 1, |full|);
  }

  lemma FinishMethod(buf: seq<byte>, p: nat, max: nat) returns (full: seq<byte>)
    requires p <= |buf| && LineMayBegin(buf, p) && RequestMethod(buf, p, max).res == Err(Partial)
    ensures buf <= full && RequestMethod(full, p, max).res.Ok?
  {
    var part := buf;
    if Word(Token(SP), buf, p).1.Err? {
      part := FinishWord(Token(SP), buf, p, LETTER);
      WordFinal(Token(SP), buf, part, p);
      TargetBegun(part, p, max);
    }
    full := FinishFromTarget(part, p, max);
  }

  lemma FinishRequest(buf: seq<byte>, max: nat) returns (full: seq<byte>)
    requires RequestMayBegin(buf) && ParseRequest(buf, max).res == Err(Partial)
    ensures buf <= full && ParseRequest(full, max).res.Ok?
  {
    hide Skip;
    var part := buf;
    if SkipEmptyLine(buf).Err? {
      part := buf + [LF, LETTER];
      var p := SkipEmptyLine(part).value;
      SkipIs(Token(SP), part, p, |part|);
    }
    var p := SkipEmptyLine(part).value;
    full := FinishMethod(part, p, max);
    BreakFinal(part, full, 0);
  }

  /** A version that parses begins well on any part of its input. */
  lemma VersionBegins(buf: seq<byte>, full: seq<byte>, p: nat)
    requires buf <= full && p <= |buf| && Version(full, p).Ok?
    ensures VersionMayStart(buf, p)
  {
    VersionIsStart(full, p);
  }

  lemma LineBegins(buf: seq<byte>, full: seq<byte>, p: nat, max: nat)
    requires buf <= full && p <= |buf| && RequestMethod(full, p, max).res.Ok?
    ensures LineMayBegin(buf, p)
  {
    hide Headers, Skip;
    var (m, next) := Word(Token(SP), full, p);
    WordEnds(Token(SP), full, p);
    WordEnds(Target, full, next.value);
    var e := Skip(Token(SP), buf, p);
    if e < |buf| {
      SkipFinal(Token(SP), buf, full, p);
      var q := Skip(Spaces, buf, e);
      SkipFinal(Spaces, buf, full, e);
      var f := Skip(Target, buf, q);
      SkipFinal(Target, buf, full, q);
      SkipFinal(Spaces, buf, full, f);
      if VersionStart(buf, e) < |buf| {
        VersionBegins(buf, full, VersionStart(buf, e));
      }
    }
  }

  lemma RequestBegins(buf: seq<byte>, full: seq<byte>, max: nat)
    requires buf <= full && ParseRequest(full, max).res.Ok?
    ensures RequestMayBegin(buf)
  {
    if SkipEmptyLine(buf).Ok? {
      BreakFinal(buf, full, 0);
      LineBegins(buf, full, SkipEmptyLine(buf).value, max);
    }
  }

  /** For requests Partial is not exact: a head whose method is empty, or whose version is
      already wrong, is refused only later. It is exact precisely when the head may still
      begin well. */
  lemma PartialForRequests(buf: seq<byte>, max: nat)
    ensures ParseRequest(buf, max).res == Err(Partial) && RequestMayBegin(buf) <==>
            !ParseRequest(buf, max).res.Ok? && exists full: seq<byte> :: buf <= full && ParseRequest(full, max).res.Ok?
  {
    if ParseRequest(buf, max).res == Err(Partial) && RequestMayBegin(buf) {
      var full := FinishRequest(buf, max);
    }
    if full: seq<byte> :| buf <= full && ParseRequest(full, max).res.Ok? {
      VerdictsAreFinal(Request, buf, full, max);
      RequestBegins(buf, full, max);
    }
  }

  // Responses.

  predicate StatusMayStart(buf: seq<byte>, q: nat) {
    && (forall i :: q <= i < q + 3 && i < |buf| ==> IsDigit(buf[i]))
    && (q + 3 < |buf| ==> buf[q + 3] == SP || buf[q + 3] == CR || buf[q + 3] == LF)
  }

  /** What is there of the version, the status and the byte behind it is right. */
  predicate ResponseMayBegin(buf: seq<byte>) {
    VersionMayStart(buf, 0) && (8 < |buf| ==> StatusMayStart(buf, Skip(Spaces, buf, 8)))
  }

  lemma FinishReason(buf: seq<byte>, p: nat, max: nat, h: HeadRun) returns (full: seq<byte>)
    requires p < |buf| && (buf[p] == SP || buf[p] == CR || buf[p] == LF)
    requires ResponseReason(buf, p, max, h).res == Err(Partial)
    ensures buf <= full && ResponseReason(full, p, max, h).res.Ok?
  {
    var part := buf;
    if Reason(buf, p).1.Err? {
      part := FinishEol(buf, p);
    }
    var (_, next) := Reason(part, p);
    full := FinishHeaders(part, next.value, 0, max, []);
    ReasonFinal(part, full, p);
  }

  lemma EmptyReason(buf: seq<byte>, p: nat, max: nat, h: HeadRun)
    requires p + 1 == |buf| && buf[p] == LF
    ensures ResponseReason(buf, p, max, h).res == Err(Partial)
  {
    SkipIs(Text, buf, p, p);
  }

  lemma FinishStatus(buf: seq<byte>, p: nat, max: nat, h: HeadRun) returns (full: seq<byte>)
    requires p < |buf| && StatusMayStart(buf, p) && ResponseStatus(buf, p, max, h).res == Err(Partial)
    ensures buf <= full && ResponseStatus(full, p, max, h).res.Ok?
  {
    hide ResponseReason;
    var part := buf;
    if |buf| - p < 4 {
      part := buf + [0x32, 0x30, 0x30, LF][|buf| - p..];
      EmptyReason(part, p + 3, max, h.(status := Status(part, p).1));
    }
    var (next, status) := Status(part, p);
    full := FinishReason(part, next.value, max, h.(status := status));
    assert Status(full, p) == Status(part, p);
  }

  lemma FinishSpaces(buf: seq<byte>, p: nat, max: nat, h: HeadRun) returns (full: seq<byte>)
    requires p < |buf| && buf[p] == SP && StatusMayStart(buf, Skip(Spaces, buf, p))
    requires ResponseSpaces(buf, p, max, h).res == Err(Partial)
    ensures buf <= full && ResponseSpaces(full, p, max, h).res.Ok?
  {
    var part := buf;
    if SkipTo(Spaces, buf, p + 1).Err? {
      part := buf + [0x32];
      SkipIs(Spaces, part, p + 1, |buf|);
    }
    var q := SkipTo(Spaces, part, p + 1).value;
    full := FinishStatus(part, q, max, h);
    ToFinal(Spaces, part, full, p + 1);
  }

  lemma FinishResponse(buf: seq<byte>, max: nat) returns (full: seq<byte>)
    requires ResponseMayBegin(buf) && ParseResponse(buf, max).res == Err(Partial)
    ensures buf <= full && ParseResponse(full, max).res.Ok?
  {
    var part := buf;
    if Version(buf, 0).Err? {
      part := FinishVersion(buf, 0, SP);
      SkipIs(Spaces, part, 8, 9);
    }
    var (v, p) := Version(part, 0).value;
    full := FinishSpaces(part, p, max, NOTHING.(version := Some(v)));
    VersionFinal(part, full, 0);
  }

  lemma StatusIsReached(full: seq<byte>, max: nat) returns (h: HeadRun)
    requires ParseResponse(full, max).res.Ok?
    ensures Version(full, 0).Ok? && 8 < Skip(Spaces, full, 8) < |full|
    ensures ResponseStatus(full, Skip(Spaces, full, 8), max, h).res.Ok?
  {
    hide ResponseStatus;
    var (v, p) := Version(full, 0).value;
    h := NOTHING.(version := Some(v));
    assert SkipTo(Spaces, full, p + 1) == Ok(Skip(Spaces, full, 8));
  }

  lemma StatusBegins(full: seq<byte>, q: nat, max: nat, h: HeadRun)
    requires q <= |full| && ResponseStatus(full, q, max, h).res.Ok?
    ensures StatusMayStart(full, q)
  {
    hide Headers;
    var (next, status) := Status(full, q);
  }

  lemma ResponseBegins(buf: seq<byte>, full: seq<byte>, max: nat)
    requires buf <= full && ParseResponse(full, max).res.Ok?
    ensures ResponseMayBegin(buf)
  {
    VersionBegins(buf, full, 0);
    if 8 < |buf| {
      SkipFinal(Spaces, buf, full, 8);
      var h := StatusIsReached(full, max);
      StatusBegins(full, Skip(Spaces, full, 8), max, h);
    }
  }

  /** For responses likewise. */
  lemma PartialForResponses(buf: seq<byte>, max: nat)
    ensures ParseResponse(buf, max).res == Err(Partial) && ResponseMayBegin(buf) <==>
            && !ParseResponse(buf, max).res.Ok?
            && exists full: seq<byte> :: buf <= full && ParseResponse(full, max).res.Ok?
  {
    if ParseResponse(buf, max).res == Err(Partial) && ResponseMayBegin(buf) {
      var full := FinishResponse(buf, max);
    }
    if full: seq<byte> :| buf <= full && ParseResponse(full, max).res.Ok? {
      VerdictsAreFinal(Response, buf, full, max);
      ResponseBegins(buf, full, max);
    }
  }

  lemma HopelessName(max: nat, full: seq<byte>)
    ensures var version := [0x48, 0x54, 0x54, 0x51];
            ParseResponse(version, max).res == Err(Partial) && (version <= full ==> !ParseResponse(full, max).res.Ok?)
  {
    var version := [0x48, 0x54, 0x54, 0x51];
    assert version[3] != PREFIX[3 - 0];
    if version <= full && ParseResponse(full, max).res.Ok? {
      VersionBegins(version, full, 0);
    }
  }

  /** `GET / X`. */
  const TARGET_THEN_X: seq<byte> := [0x47, 0x45, 0x54, SP, 0x2F, SP, 0x58]

  lemma TargetThenX()
    ensures var s := TARGET_THEN_X;
            && Skip(Token(SP), s, 0) == 3 && Skip(Spaces, s, 3) == 4 && Skip(Spaces, s, 4) == 4
            && Skip(Target, s, 4) == 5 && Skip(Spaces, s, 5) == 6 && Skip(Spaces, s, 6) == 6
  {
    var s := TARGET_THEN_X;
    SkipIs(Token(SP), s, 0, 3);
    SkipIs(Spaces, s, 3, 4);
    SkipIs(Spaces, s, 4, 4);
    SkipIs(Target, s, 4, 5);
    SkipIs(Spaces, s, 5, 6);
    SkipIs(Spaces, s, 6, 6);
  }

  lemma HopelessVersion(max: nat, full: seq<byte>)
    ensures var target := [0x47, 0x45, 0x54, SP, 0x2F, SP, 0x58];
            ParseRequest(target, max).res == Err(Partial) && (target <= full ==> !ParseRequest(full, max).res.Ok?)
  {
    hide Headers, Skip;
    TargetThenX();
    if TARGET_THEN_X <= full && ParseRequest(full, max).res.Ok? {
      LineBegins(TARGET_THEN_X, full, 0, max);
    }
  }

  lemma HopelessMethod(max: nat, full: seq<byte>)
    ensures var empty := [SP, 0x2F];
            ParseRequest(empty, max).res == Err(Partial) && (empty <= full ==> !ParseRequest(full, max).res.Ok?)
  {
    var empty := [SP, 0x2F];
    SkipIs(Token(SP), empty, 0, 0);
    SkipIs(Spaces, empty, 1, 1);
    SkipIs(Target, empty, 1, 2);
    if empty <= full && ParseRequest(full, max).res.Ok? {
      LineBegins(empty, full, 0, max);
    }
  }

  lemma HopelessStatus(max: nat, full: seq<byte>)
    ensures var status := PREFIX + [0x31, SP, 0x32, 0x78];
            ParseResponse(status, max).res == Err(Partial) && (status <= full ==> !ParseResponse(full, max).res.Ok?)
  {
    var status := PREFIX + [0x31, SP, 0x32, 0x78];
    assert status[0..7] == PREFIX;
    SkipIs(Spaces, status, 8, 9);
    SkipIs(Spaces, status, 9, 9);
    if status <= full && ParseResponse(full, max).res.Ok? {
      ResponseBegins(status, full, max);
    }
  }

  /** Inputs told to wait that nothing can complete: `GET / X`, ` /`, `HTTQ` and `HTTP/1.1 2x`. */
  lemma HopelessPartials(max: nat, full: seq<byte>)
    ensures var target := [0x47, 0x45, 0x54, SP, 0x2F, SP, 0x58];
            ParseRequest(target, max).res == Err(Partial) && (target <= full ==> !ParseRequest(full, max).res.Ok?)
    ensures var empty := [SP, 0x2F];
            ParseRequest(empty, max).res == Err(Partial) && (empty <= full ==> !ParseRequest(full, max).res.Ok?)
    ensures var version := [0x48, 0x54, 0x54, 0x51];
            ParseResponse(version, max).res == Err(Partial) && (version <= full ==> !ParseResponse(full, max).res.Ok?)
    ensures var status := PREFIX + [0x31, SP, 0x32, 0x78];
            ParseResponse(status, max).res == Err(Partial) && (status <= full ==> !ParseResponse(full, max).res.Ok?)
  {
    HopelessVersion(max, full);
    HopelessMethod(max, full);
    HopelessStatus(max, full);
    HopelessName(max, full);
  }
}
