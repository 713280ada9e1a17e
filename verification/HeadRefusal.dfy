/** When heads are refused: the exact verdict on every input, in bytes. */
module HeadRefusal {
  import opened Bytes
  import opened HeadSpec
  import opened HeadLines
  import opened HeadPartial
  import opened HeadPublished

  /** Some continuation of the input parses. */
  ghost predicate Completable(kind: Kind, buf: seq<byte>, max: nat) {
    exists full: seq<byte> :: buf <= full && Parse(kind, full, max).res.Ok?
  }

  /** The bytes from `v` on can begin `HTTP/1.` and a digit, as far as they go. */
  ghost predicate BeginsVersion(buf: seq<byte>, v: nat) {
    && (forall i :: 0 <= i < 7 && v + i < |buf| ==> buf[v + i] == [0x48, 0x54, 0x54, 0x50, 0x2F, 0x31, 0x2E][i])
    && (v + 7 < |buf| ==> 0x30 <= buf[v + 7] <= 0x39)
  }

  lemma VersionMayStartIs(buf: seq<byte>, v: nat)
    requires v <= |buf|
    ensures VersionMayStart(buf, v) <==> BeginsVersion(buf, v)
  {
    if BeginsVersion(buf, v) {
      forall i | v <= i < v + 7 && i < |buf| ensures buf[i] == PREFIX[i - v] {
        assert buf[v + (i - v)] == PREFIX[i - v];
      }
    }
  }

  // Requests.

  /** To the end of the input: spaces from `p`, target bytes from `q`, spaces from `f`. */
  ghost predicate TargetAtEnd(buf: seq<byte>, p: nat, q: nat, f: nat) {
    && p < q <= f <= |buf| && (forall i :: p <= i < q ==> buf[i] == 0x20)
    && (forall i :: q <= i < f ==> 33 <= buf[i] <= 126 || 128 <= buf[i])
    && (forall i :: f <= i < |buf| ==> buf[i] == 0x20)
  }

  ghost predicate OnlyTarget(buf: seq<byte>, p: nat) {
    exists q: nat, f: nat :: TargetAtEnd(buf, p, q, f)
  }

  /** An empty method, and the end of the input before its target and the spaces behind it end. */
  ghost predicate EmptyMethodWaits(buf: seq<byte>) {
    exists p: nat :: LineStart(buf, p) && OnlyTarget(buf, p)
  }

  lemma OnlyTargetIs(buf: seq<byte>, p: nat)
    requires p < |buf| && buf[p] == SP
    ensures OnlyTarget(buf, p) <==> VersionStart(buf, p) == |buf|
  {
    var q := Skip(Spaces, buf, p);
    var f := Skip(Target, buf, q);
    if q', f' :| TargetAtEnd(buf, p, q', f') {
      if q' < f' {
        SkipIs(Spaces, buf, p, q');
        SkipIs(Target, buf, q', f');
        SkipIs(Spaces, buf, f', |buf|);
      } else {
        SkipIs(Spaces, buf, p, |buf|);
      }
    }
    if Skip(Spaces, buf, f) == |buf| {
      assert TargetAtEnd(buf, p, q, f);
    }
  }

  lemma EmptyMethodVerdict(buf: seq<byte>, p: nat, max: nat)
    requires p < |buf| && buf[p] == SP
    ensures RequestMethod(buf, p, max).res == Err(Partial) <==> VersionStart(buf, p) == |buf|
  {
    hide Headers;
    SkipIs(Token(SP), buf, p, p);
    var q := Skip(Spaces, buf, p);
    if q < |buf| {
      var f := Skip(Target, buf, q);
    }
  }

  /** A method and a target, and behind them fewer than the nine bytes a version is looked for in,
      which cannot begin one. */
  ghost predicate WrongVersionWaits(buf: seq<byte>) {
    exists m, s, v :: VersionDue(buf, m, s, v) && |buf| - v < 9 && !BeginsVersion(buf, v)
  }

  /** Behind its words a request that waits for a version that cannot come has too few bytes. */
  lemma VersionVerdict(buf: seq<byte>, v: nat, max: nat, h: HeadRun)
    requires v <= |buf| && !VersionMayStart(buf, v)
    ensures RequestVersion(buf, v, max, h).res == Err(Partial) <==> |buf| - v < 9
  {
    hide VersionMayStart;
    VersionIsStart(buf, v);
  }

  /** Where the words of a line are due and where they scan to are the same. */
  lemma DueScans(buf: seq<byte>, p: nat, m: Span, s: Span, v: nat)
    requires VersionDue(buf, m, s, v) && SkipEmptyLine(buf) == Ok(p)
    ensures p < Skip(Token(SP), buf, p) == EndOf(m) < |buf| && VersionStart(buf, EndOf(m)) == v
  {
    hide Word, SpacesTo, MethodBytes, TargetBytes, Skip;
    PathPublished(buf, 0, m, s);
    WordsPublish(buf, 0);
    var q := Word(Token(SP), buf, p).1.value;
    WordEnds(Token(SP), buf, p);
    WordNext(Target, buf, q, v);
    WordEnds(Target, buf, q);
  }

  lemma ScanIsDue(buf: seq<byte>, p: nat)
    requires SkipEmptyLine(buf) == Ok(p) && Word(Token(SP), buf, p).1.Ok? && p < Skip(Token(SP), buf, p)
    requires Word(Target, buf, Word(Token(SP), buf, p).1.value).1.Ok?
    ensures exists m, s :: VersionDue(buf, m, s, Word(Target, buf, Word(Token(SP), buf, p).1.value).1.value)
  {
    hide Word, SpacesTo, MethodBytes, TargetBytes, Skip, PathThere;
    var q := Word(Token(SP), buf, p).1.value;
    var m, s := Word(Token(SP), buf, p).0.value, Word(Target, buf, q).0.value;
    WordEnds(Token(SP), buf, p);
    WordNext(Target, buf, q, Word(Target, buf, q).1.value);
    WordsPublish(buf, 0);
    PathPublished(buf, 0, m, s);
    assert VersionDue(buf, m, s, Word(Target, buf, q).1.value);
  }

  /** A word that waits has nothing but spaces behind it. */
  lemma WordWaits(c: Class, buf: seq<byte>, p: nat)
    requires p <= |buf| && Word(c, buf, p).1 == Err(Partial)
    ensures Skip(Spaces, buf, Skip(c, buf, p)) == |buf|
  {
  }

  /** A line that waits although bytes stand where its version is to start has both its words. */
  lemma WordsCome(buf: seq<byte>, p: nat, max: nat)
    requires p <= |buf| && p < Skip(Token(SP), buf, p) < |buf| && RequestMethod(buf, p, max).res == Err(Partial)
    requires VersionStart(buf, Skip(Token(SP), buf, p)) < |buf|
    ensures Word(Token(SP), buf, p).1.Ok?
    ensures Word(Target, buf, Word(Token(SP), buf, p).1.value).1 == Ok(VersionStart(buf, Skip(Token(SP), buf, p)))
  {
    hide RequestVersion, Skip, Word;
    var (m, next) := Word(Token(SP), buf, p);
    match next
    case Err(_) =>
      WordWaits(Token(SP), buf, p);
    case Ok(q) =>
      WordEnds(Token(SP), buf, p);
      match Word(Target, buf, q).1
      case Err(_) => WordWaits(Target, buf, q);
      case Ok(_) => WordEnds(Target, buf, q);
  }

  lemma NothingMayStart(buf: seq<byte>)
    ensures VersionMayStart(buf, |buf|)
  {
  }

  /** A line with a method waits though it cannot begin well exactly when its version is wrong
      and short. */
  lemma WordsWait(buf: seq<byte>, p: nat, max: nat)
    requires SkipEmptyLine(buf) == Ok(p) && p < Skip(Token(SP), buf, p) < |buf|
    ensures ParseRequest(buf, max).res == Err(Partial) && !LineMayBegin(buf, p) <==> WrongVersionWaits(buf)
  {
    hide Skip, Word, RequestVersion, VersionDue, VersionMayStart, BeginsVersion, RequestMethod;
    var v := VersionStart(buf, Skip(Token(SP), buf, p));
    if ParseRequest(buf, max).res == Err(Partial) && !VersionMayStart(buf, v) {
      VersionMayStartIs(buf, v);
      NothingMayStart(buf);
      WordsCome(buf, p, max);
      ScanIsDue(buf, p);
      var m, s :| VersionDue(buf, m, s, v);
      BehindWords(buf, max, m, s, v);
      VersionVerdict(buf, v, max, NOTHING.(method' := Some(m), path := Some(s)));
    }
    if m, s, v' :| VersionDue(buf, m, s, v') && |buf| - v' < 9 && !BeginsVersion(buf, v') {
      DueScans(buf, p, m, s, v');
      BehindWords(buf, max, m, s, v');
      VersionMayStartIs(buf, v');
      VersionVerdict(buf, v', max, NOTHING.(method' := Some(m), path := Some(s)));
    }
  }

  lemma OnlyTargetBegins(buf: seq<byte>, p: nat)
    requires OnlyTarget(buf, p)
    ensures p < |buf| && buf[p] == SP && Skip(Token(SP), buf, p) == p
  {
    var q, f :| TargetAtEnd(buf, p, q, f);
    SkipIs(Token(SP), buf, p, p);
  }

  lemma NoToken(buf: seq<byte>, p: nat, max: nat)
    requires p < |buf| && Skip(Token(SP), buf, p) == p && buf[p] != SP
    ensures RequestMethod(buf, p, max).res == Err(Malformed)
  {
  }

  /** A line without a method waits exactly when only a target is there. */
  lemma EmptyWaits(buf: seq<byte>, p: nat, max: nat)
    requires SkipEmptyLine(buf) == Ok(p) && Skip(Token(SP), buf, p) == p < |buf|
    ensures ParseRequest(buf, max).res == Err(Partial) <==> EmptyMethodWaits(buf)
  {
    hide Skip, OnlyTarget, VersionStart, RequestMethod;
    LineStarts(buf, p);
    if buf[p] == SP {
      EmptyMethodVerdict(buf, p, max);
      OnlyTargetIs(buf, p);
    } else {
      NoToken(buf, p, max);
    }
    if p' :| LineStart(buf, p') && OnlyTarget(buf, p') {
      LineStarts(buf, p');
      OnlyTargetBegins(buf, p');
    }
  }

  lemma DueLine(buf: seq<byte>, m: Span, s: Span, v: nat)
    requires VersionDue(buf, m, s, v)
    ensures SkipEmptyLine(buf).Ok?
  {
    LineStarts(buf, m.off);
  }

  /** Where the method ends, if the request line begins. */
  function MethodEnd(buf: seq<byte>): nat {
    match SkipEmptyLine(buf)
    case Err(_) => 0
    case Ok(p) => Skip(Token(SP), buf, p)
  }

  lemma WaitsInside(buf: seq<byte>)
    ensures EmptyMethodWaits(buf) ==> SkipEmptyLine(buf).Ok? && MethodEnd(buf) == SkipEmptyLine(buf).value < |buf|
    ensures WrongVersionWaits(buf) ==> SkipEmptyLine(buf).Ok? && SkipEmptyLine(buf).value < MethodEnd(buf) < |buf|
  {
    hide Skip, OnlyTarget, BeginsVersion, VersionDue, SkipEmptyLine;
    if p :| LineStart(buf, p) && OnlyTarget(buf, p) {
      LineStarts(buf, p);
      OnlyTargetBegins(buf, p);
    }
    if m, s, v :| VersionDue(buf, m, s, v) && |buf| - v < 9 && !BeginsVersion(buf, v) {
      DueLine(buf, m, s, v);
      DueScans(buf, SkipEmptyLine(buf).value, m, s, v);
    }
  }

  /** The requests that wait although nothing can complete them. */
  ghost predicate RequestWaitsInVain(buf: seq<byte>) {
    EmptyMethodWaits(buf) || WrongVersionWaits(buf)
  }

  lemma RequestWaits(buf: seq<byte>, max: nat)
    ensures ParseRequest(buf, max).res == Err(Partial) && !RequestMayBegin(buf) <==> RequestWaitsInVain(buf)
  {
    hide ParseRequest, Skip, EmptyMethodWaits, WrongVersionWaits, VersionMayStart;
    WaitsInside(buf);
    match SkipEmptyLine(buf)
    case Err(_) =>
    case Ok(p) =>
      var e := Skip(Token(SP), buf, p);
      if p < e < |buf| {
        WordsWait(buf, p, max);
      } else if e < |buf| {
        EmptyWaits(buf, p, max);
      }
  }

  lemma CompletableIs(buf: seq<byte>, max: nat)
    ensures Completable(Request, buf, max) <==> exists full: seq<byte> :: buf <= full && ParseRequest(full, max).res.Ok?
    ensures Completable(Response, buf, max) <==>
            exists full: seq<byte> :: buf <= full && ParseResponse(full, max).res.Ok?
    ensures Completable(Block, buf, max) <==> exists full: seq<byte> :: buf <= full && ParseBlock(full, max).res.Ok?
  {
    hide ParseRequest, ParseResponse, ParseBlock;
    if full: seq<byte> :| buf <= full && ParseRequest(full, max).res.Ok? {
      assert Parse(Request, full, max).res.Ok?;
    }
    if full: seq<byte> :| buf <= full && ParseResponse(full, max).res.Ok? {
      assert Parse(Response, full, max).res.Ok?;
    }
    if full: seq<byte> :| buf <= full && ParseBlock(full, max).res.Ok? {
      assert Parse(Block, full, max).res.Ok?;
    }
  }

  /** The exact verdict on a request that does not parse: it is refused if and only if nothing can
      complete it and it is not one of those that wait in vain. */
  lemma RequestVerdict(buf: seq<byte>, max: nat)
    ensures var res := ParseRequest(buf, max).res;
            && (res == Err(Malformed) <==> !Completable(Request, buf, max) && !RequestWaitsInVain(buf))
            && (res == Err(Partial) <==> !res.Ok? && (Completable(Request, buf, max) || RequestWaitsInVain(buf)))
    ensures !(Completable(Request, buf, max) && RequestWaitsInVain(buf))
  {
    hide ParseRequest, RequestMayBegin, RequestWaitsInVain;
    RequestWaits(buf, max);
    PartialForRequests(buf, max);
    CompletableIs(buf, max);
    match ParseRequest(buf, max).res
    case Ok(_) => assert buf <= buf && Parse(Request, buf, max).res.Ok?;
    case Err(Partial) =>
    case Err(Malformed) =>
  }

  // Responses.

  /** Fewer than the four bytes a status is looked for in, and not all of them digits. */
  ghost predicate WrongStatusWaits(buf: seq<byte>, q: nat) {
    StatusDue(buf, q) && |buf| - q < 4 && exists i :: q <= i < |buf| && !DigitAt(buf, i)
  }

  /** Text from `p` to the end of the input, or to a carriage return there. */
  ghost predicate TextToEnd(buf: seq<byte>, p: nat, e: nat) {
    && p <= e <= |buf| && (e == |buf| || (e + 1 == |buf| && buf[e] == 0x0D))
    && forall i :: p <= i < e ==> buf[i] == 9 || 32 <= buf[i] <= 126 || 128 <= buf[i]
  }

  /** The line from `p` does not end. */
  ghost predicate OpenLine(buf: seq<byte>, p: nat) {
    exists e: nat :: TextToEnd(buf, p, e)
  }

  /** Three digits with something else than a space or a line break behind them, whose line does
      not end. */
  ghost predicate WrongPhraseWaits(buf: seq<byte>, q: nat) {
    && StatusDue(buf, q) && StatusComplete(buf, q)
    && buf[q + 3] != 0x20 && buf[q + 3] != 0x0D && buf[q + 3] != 0x0A && OpenLine(buf, q + 3)
  }

  /** The responses that wait although nothing can complete them. */
  ghost predicate ResponseWaitsInVain(buf: seq<byte>) {
    || (|buf| < 9 && !BeginsVersion(buf, 0))
    || exists q: nat :: WrongStatusWaits(buf, q) || WrongPhraseWaits(buf, q)
  }

  lemma OpenLineIs(buf: seq<byte>, p: nat)
    requires p <= |buf|
    ensures OpenLine(buf, p) <==> ScanEol(buf, p) == Err(Partial)
  {
    var e := Skip(Text, buf, p);
    if e' :| TextToEnd(buf, p, e') {
      SkipIs(Text, buf, p, e');
    }
    if ScanEol(buf, p) == Err(Partial) {
      assert TextToEnd(buf, p, e);
    }
  }

  /** The status that is due waits in vain, or may yet begin well. */
  lemma StatusWaits(buf: seq<byte>, q: nat, max: nat, h: HeadRun)
    requires StatusDue(buf, q)
    ensures q < |buf|
    ensures ResponseStatus(buf, q, max, h).res == Err(Partial) && !StatusMayStart(buf, q) <==>
            WrongStatusWaits(buf, q) || WrongPhraseWaits(buf, q)
  {
    hide Headers, ScanEol, OpenLine;
    if |buf| - q < 4 {
      if i: nat :| q <= i < |buf| && !IsDigit(buf[i]) {
        assert !DigitAt(buf, i);
      }
      if i: nat :| q <= i < |buf| && !DigitAt(buf, i) {
        assert !IsDigit(buf[i]);
      }
    } else {
      OpenLineIs(buf, q + 3);
    }
  }

  lemma DueStatus(buf: seq<byte>, q: nat)
    requires StatusDue(buf, q)
    ensures 8 < |buf| && Skip(Spaces, buf, 8) == q < |buf| && VersionMayStart(buf, 0)
  {
    SkipIs(Spaces, buf, 8, q);
    VersionIsBytes(buf, 0);
    VersionIsStart(buf, 0);
  }

  lemma StatusIsDue(buf: seq<byte>, max: nat)
    requires 8 < |buf| && VersionMayStart(buf, 0) && ParseResponse(buf, max).res == Err(Partial)
    requires Skip(Spaces, buf, 8) < |buf|
    ensures StatusDue(buf, Skip(Spaces, buf, 8))
  {
    hide ResponseStatus, Skip, SpacesTo;
    VersionIsStart(buf, 0);
    VersionIsBytes(buf, 0);
    SpacesAre(buf, 8, Skip(Spaces, buf, 8));
  }

  lemma WaitsForStatus(buf: seq<byte>, q: nat, max: nat)
    requires StatusDue(buf, q)
    ensures ParseResponse(buf, max).res == Err(Partial) && !ResponseMayBegin(buf) <==>
            WrongStatusWaits(buf, q) || WrongPhraseWaits(buf, q)
  {
    hide ParseResponse, ResponseStatus, StatusMayStart, VersionMayStart, Skip;
    DueStatus(buf, q);
    ResponseUnfold(buf, max, q);
    StatusWaits(buf, q, max, NOTHING.(version := Some(buf[7] as int - 0x30)));
  }

  lemma NoStatusMayStart(buf: seq<byte>)
    ensures StatusMayStart(buf, |buf|)
  {
  }

  lemma ResponseWaits(buf: seq<byte>, max: nat)
    ensures ParseResponse(buf, max).res == Err(Partial) && !ResponseMayBegin(buf) <==> ResponseWaitsInVain(buf)
  {
    hide ResponseSpaces, VersionMayStart, BeginsVersion, StatusMayStart;
    VersionMayStartIs(buf, 0);
    VersionIsStart(buf, 0);
    NoStatusMayStart(buf);
    if q: nat :| WrongStatusWaits(buf, q) || WrongPhraseWaits(buf, q) {
      WaitsForStatus(buf, q, max);
    }
    if ParseResponse(buf, max).res == Err(Partial) && VersionMayStart(buf, 0) && !ResponseMayBegin(buf) {
      var q := Skip(Spaces, buf, 8);
      StatusIsDue(buf, max);
      WaitsForStatus(buf, q, max);
      assert WrongStatusWaits(buf, q) || WrongPhraseWaits(buf, q);
    }
  }

  /** The exact verdict on a response that does not parse. */
  lemma ResponseVerdict(buf: seq<byte>, max: nat)
    ensures var res := ParseResponse(buf, max).res;
            && (res == Err(Malformed) <==> !Completable(Response, buf, max) && !ResponseWaitsInVain(buf))
            && (res == Err(Partial) <==> !res.Ok? && (Completable(Response, buf, max) || ResponseWaitsInVain(buf)))
    ensures !(Completable(Response, buf, max) && ResponseWaitsInVain(buf))
  {
    hide ParseResponse, ResponseMayBegin, ResponseWaitsInVain;
    ResponseWaits(buf, max);
    PartialForResponses(buf, max);
    CompletableIs(buf, max);
    match ParseResponse(buf, max).res
    case Ok(_) => assert buf <= buf && Parse(Response, buf, max).res.Ok?;
    case Err(Partial) =>
    case Err(Malformed) =>
  }

  /** Header blocks are refused if and only if nothing can complete them. */
  lemma BlockVerdict(buf: seq<byte>, max: nat)
    ensures ParseBlock(buf, max).res == Err(Malformed) <==> !Completable(Block, buf, max)
  {
    hide ParseBlock;
    PartialIsExactForBlocks(buf, max);
    CompletableIs(buf, max);
    match ParseBlock(buf, max).res
    case Ok(_) => assert buf <= buf && Parse(Block, buf, max).res.Ok?;
    case Err(Partial) =>
    case Err(Malformed) =>
  }
}
