/** The language of whole heads: request and status lines in front of header blocks. */
module HeadLines {
  import opened Bytes
  import opened HeadSpec
  import opened HeadGrammar
  import opened HeadPartial

  /** A request line as it is written, behind an optional empty line. */
  datatype RequestLine = RequestLine(
    blank: seq<byte>,
    method': seq<byte>,
    gap: seq<byte>,
    target: seq<byte>,
    gap': seq<byte>,
    minor: byte,
    crlf: bool)

  /** A status line as it is written; its phrase may be missing altogether. */
  datatype StatusLine = StatusLine(
    minor: byte,
    gap: seq<byte>,
    status: seq<byte>,
    gap': seq<byte>,
    phrase: seq<byte>,
    crlf: bool)

  ghost predicate ValidWord(c: Class, word: seq<byte>, gap: seq<byte>) {
    word != [] && All(c, word) && gap != [] && All(Spaces, gap)
  }

  ghost predicate ValidRequestLine(r: RequestLine) {
    && (r.blank == [] || r.blank == Eol(true) || r.blank == Eol(false))
    && ValidWord(Token(SP), r.method', r.gap) && ValidWord(Target, r.target, r.gap') && IsDigit(r.minor)
  }

  predicate AreDigits(status: seq<byte>) {
    |status| == 3 && IsDigit(status[0]) && IsDigit(status[1]) && IsDigit(status[2])
  }

  function StatusValue(status: seq<byte>): nat
    requires AreDigits(status)
  {
    100 * (status[0] as int - 0x30) + 10 * (status[1] as int - 0x30) + (status[2] as int - 0x30)
  }

  ghost predicate ValidPhrase(gap: seq<byte>, phrase: seq<byte>) {
    All(Spaces, gap) && All(Text, phrase) && (phrase != [] ==> gap != [] && phrase[0] != SP)
  }

  ghost predicate ValidStatusLine(r: StatusLine) {
    && IsDigit(r.minor) && r.gap != [] && All(Spaces, r.gap) && AreDigits(r.status)
    && ValidPhrase(r.gap', r.phrase)
  }

  /** `HTTP/1.` and the minor version. */
  function PrintVersion(minor: byte): (s: seq<byte>)
    ensures |s| == 8
  {
    [0x48, 0x54, 0x54, 0x50, 0x2F, 0x31, 0x2E, minor]
  }

  lemma PrefixThenMinor(minor: byte)
    ensures PREFIX + [minor] == PrintVersion(minor)
  {
  }

  // The parts of a line, each in its place.

  lemma WordParses(c: Class, buf: seq<byte>, p: nat, word: seq<byte>, gap: seq<byte>)
    requires c == Token(SP) || c == Target
    requires ValidWord(c, word, gap) && At(buf, p, word + gap)
    requires p + |word + gap| < |buf| && buf[p + |word + gap|] != SP
    ensures Word(c, buf, p) == (Some(Span(p, |word|)), Ok(p + |word + gap|)) && Accepts(c, buf[p])
  {
    AtSplit(buf, p, word, gap);
    var e := p + |word|;
    assert Accepts(Spaces, gap[0]) && buf[e] == gap[0] && Accepts(c, word[0]);
    SkipsOver(c, buf, p, word);
    SkipIs(Spaces, buf, e + 1, e + |gap|);
  }

  lemma WordShape(c: Class, buf: seq<byte>, p: nat) returns (word: seq<byte>, gap: seq<byte>)
    requires p <= |buf| && Word(c, buf, p).1.Ok? && Word(c, buf, p).0.value.len > 0
    ensures ValidWord(c, word, gap) && At(buf, p, word + gap)
    ensures Word(c, buf, p).1 == Ok(p + |word + gap|) && buf[p + |word + gap|] != SP
  {
    var e, q := Skip(c, buf, p), Word(c, buf, p).1.value;
    word, gap := buf[p..e], buf[e..q];
    ClassSlice(c, buf, p, e);
    ClassSlice(Spaces, buf, e, q);
    AtSelf(buf, p, e);
    AtSelf(buf, e, q);
    AtSplit(buf, p, word, gap);
  }

  lemma VersionParses(buf: seq<byte>, p: nat, minor: byte)
    requires At(buf, p, PrintVersion(minor)) && IsDigit(minor) && p + 8 < |buf|
    ensures Version(buf, p) == Ok((Digit(minor), p + 8)) && buf[p] != SP
  {
    PrefixThenMinor(minor);
    AtSplit(buf, p, PREFIX, [minor]);
    AtIsSlice(buf, p, PREFIX);
  }

  lemma VersionShape(buf: seq<byte>, p: nat) returns (minor: byte)
    requires p <= |buf| && Version(buf, p).Ok?
    ensures IsDigit(minor) && At(buf, p, PrintVersion(minor)) && Digit(minor) == Version(buf, p).value.0
  {
    minor := buf[p + 7];
    PrefixThenMinor(minor);
    AtIsSlice(buf, p, PREFIX);
    AtSplit(buf, p, PREFIX, [minor]);
  }

  // Requests.

  /** What follows the request target: version, line break, header block. */
  ghost predicate RequestTailAt(buf: seq<byte>, p: nat, minor: byte, eol: bool, lines: seq<Header>, crlf: bool) {
    && At(buf, p, PrintVersion(minor)) && At(buf, p + 8, Eol(eol))
    && BlockAt(buf, p + 8 + |Eol(eol)|, lines, crlf)
  }

  lemma RequestTailParses(buf: seq<byte>, p: nat, minor: byte, eol: bool, lines: seq<Header>, crlf: bool, max: nat,
                          h: HeadRun)
    requires IsDigit(minor) && ValidLines(lines, true) && RequestTailAt(buf, p, minor, eol, lines, crlf)
    ensures p < |buf| && buf[p] != SP
    ensures RequestVersion(buf, p, max, h) ==
            WithHeaders(h.(version := Some(Digit(minor))), Outcome(lines, crlf, p + 8 + |Eol(eol)|, max))
  {
    VersionParses(buf, p, minor);
    EolBreaks(buf, p + 8, eol);
    BlockOutcome(buf, p + 8 + |Eol(eol)|, lines, crlf, max);
  }

  lemma RequestTailShape(buf: seq<byte>, p: nat, max: nat, h: HeadRun)
    returns (minor: byte, eol: bool, lines: seq<Header>, crlf: bool)
    requires p <= |buf| && RequestVersion(buf, p, max, h).res.Ok?
    ensures IsDigit(minor) && ValidLines(lines, true) && |lines| <= max
    ensures RequestTailAt(buf, p, minor, eol, lines, crlf)
  {
    minor := VersionShape(buf, p);
    eol := BreakIsEol(buf, p + 8);
    lines, crlf := BlockShape(buf, p + 8 + |Eol(eol)|, 0, max, []);
  }

  function TargetAt(r: RequestLine): nat {
    |r.blank| + |r.method' + r.gap|
  }

  function VersionAt(r: RequestLine): nat {
    TargetAt(r) + |r.target + r.gap'|
  }

  function HeadersAt(r: RequestLine): nat {
    VersionAt(r) + 8 + |Eol(r.crlf)|
  }

  ghost predicate WordsAt(buf: seq<byte>, x: seq<byte>, y: seq<byte>, z: seq<byte>) {
    At(buf, 0, x) && At(buf, |x|, y) && At(buf, |x| + |y|, z)
  }

  ghost predicate RequestAt(buf: seq<byte>, r: RequestLine, lines: seq<Header>, crlf: bool) {
    && WordsAt(buf, r.blank, r.method' + r.gap, r.target + r.gap')
    && RequestTailAt(buf, VersionAt(r), r.minor, r.crlf, lines, crlf)
  }

  function PrintRequest(r: RequestLine, lines: seq<Header>, crlf: bool): seq<byte> {
    r.blank + ((r.method' + r.gap) + ((r.target + r.gap')
      + (PrintVersion(r.minor) + (Eol(r.crlf) + PrintBlock(lines, crlf)))))
  }

  /** Pieces printed at a position, one after another. */
  lemma PiecesAt(buf: seq<byte>, p: nat, x: seq<byte>, y: seq<byte>, z: seq<byte>)
    ensures At(buf, p, x + (y + z)) <==> At(buf, p, x) && At(buf, p + |x|, y) && At(buf, p + |x| + |y|, z)
    ensures |x + (y + z)| == |x| + |y| + |z|
  {
    AtSplit(buf, p, x, y + z);
    AtSplit(buf, p + |x|, y, z);
  }

  lemma RequestTailIsPrinted(buf: seq<byte>, p: nat, minor: byte, eol: bool, lines: seq<Header>, crlf: bool)
    ensures p + |PrintVersion(minor) + (Eol(eol) + PrintBlock(lines, crlf))| ==
              BlockEnd(p + 8 + |Eol(eol)|, lines, crlf)
    ensures At(buf, p, PrintVersion(minor) + (Eol(eol) + PrintBlock(lines, crlf))) <==>
            RequestTailAt(buf, p, minor, eol, lines, crlf)
  {
    hide At;
    PiecesAt(buf, p, PrintVersion(minor), Eol(eol), PrintBlock(lines, crlf));
    BlockAtIsPrinted(buf, p + 8 + |Eol(eol)|, lines, crlf);
  }

  lemma WordsAtThen(buf: seq<byte>, x: seq<byte>, y: seq<byte>, z: seq<byte>, tail: seq<byte>)
    ensures At(buf, 0, x + (y + (z + tail))) <==> WordsAt(buf, x, y, z) && At(buf, |x| + |y| + |z|, tail)
    ensures |x + (y + (z + tail))| == |x| + |y| + |z| + |tail|
  {
    PiecesAt(buf, 0, x, y, z + tail);
    AtSplit(buf, |x| + |y|, z, tail);
  }

  lemma RequestAtIsPrinted(buf: seq<byte>, r: RequestLine, lines: seq<Header>, crlf: bool)
    ensures |PrintRequest(r, lines, crlf)| == BlockEnd(HeadersAt(r), lines, crlf)
    ensures PrintRequest(r, lines, crlf) <= buf <==> RequestAt(buf, r, lines, crlf)
  {
    hide At;
    var tail := PrintVersion(r.minor) + (Eol(r.crlf) + PrintBlock(lines, crlf));
    RequestTailIsPrinted(buf, VersionAt(r), r.minor, r.crlf, lines, crlf);
    WordsAtThen(buf, r.blank, r.method' + r.gap, r.target + r.gap', tail);
    BeginsWith(buf, PrintRequest(r, lines, crlf));
  }

  lemma TargetStart(buf: seq<byte>, p: nat, target: seq<byte>, gap: seq<byte>, v: nat, max: nat, h: HeadRun)
    requires ValidWord(Target, target, gap) && At(buf, p, target + gap) && v == p + |target + gap|
    requires v < |buf| && buf[v] != SP && h.method'.Some? && h.method'.value.len > 0
    ensures buf[p] != SP
    ensures RequestTarget(buf, p, max, h) == RequestVersion(buf, v, max, h.(path := Some(Span(p, |target|))))
  {
    WordParses(Target, buf, p, target, gap);
    TargetUnfold(buf, p, max, h);
  }

  /** What the words of a request line publish. */
  function WordsPublished(r: RequestLine): HeadRun {
    NOTHING.(method' := Some(Span(|r.blank|, |r.method'|)), path := Some(Span(TargetAt(r), |r.target|)))
  }

  lemma BlankSkipped(buf: seq<byte>, blank: seq<byte>)
    requires blank == [] || blank == Eol(true) || blank == Eol(false)
    requires At(buf, 0, blank) && |blank| < |buf| && buf[|blank|] != CR && buf[|blank|] != LF
    ensures SkipEmptyLine(buf) == Ok(|blank|)
  {
    if blank != [] {
      EolBreaks(buf, 0, blank == Eol(true));
    }
  }

  /** The words of the line parse, and the version is next. */
  lemma WordsParse(buf: seq<byte>, r: RequestLine, max: nat)
    requires ValidRequestLine(r) && WordsAt(buf, r.blank, r.method' + r.gap, r.target + r.gap')
    requires VersionAt(r) < |buf| && buf[VersionAt(r)] != SP
    ensures ParseRequest(buf, max) == RequestVersion(buf, VersionAt(r), max, WordsPublished(r))
  {
    hide At, RequestTarget, RequestVersion;
    var h := NOTHING.(method' := Some(Span(|r.blank|, |r.method'|)));
    TargetStart(buf, TargetAt(r), r.target, r.gap', VersionAt(r), max, h);
    WordParses(Token(SP), buf, |r.blank|, r.method', r.gap);
    BlankSkipped(buf, r.blank);
  }

  /** What parsing a printed request comes to. */
  function RequestOutcome(r: RequestLine, lines: seq<Header>, crlf: bool, max: nat): HeadRun
    requires IsDigit(r.minor)
  {
    WithHeaders(WordsPublished(r).(version := Some(Digit(r.minor))), Outcome(lines, crlf, HeadersAt(r), max))
  }

  /** Parsing inverts printing for requests. */
  lemma RequestRoundTrip(buf: seq<byte>, r: RequestLine, lines: seq<Header>, crlf: bool, max: nat)
    requires ValidRequestLine(r) && ValidLines(lines, true) && PrintRequest(r, lines, crlf) <= buf
    ensures ParseRequest(buf, max) == RequestOutcome(r, lines, crlf, max)
  {
    hide At, ParseRequest, RequestVersion, Outcome, ValidLines, BlockAt, PrintRequest;
    RequestAtIsPrinted(buf, r, lines, crlf);
    RequestTailParses(buf, VersionAt(r), r.minor, r.crlf, lines, crlf, max, WordsPublished(r));
    WordsParse(buf, r, max);
  }

  /** The span is published and shows the text. */
  ghost predicate Shows(buf: seq<byte>, s: Option<Span>, text: seq<byte>) {
    s.Some? && Inside(buf, s.value) && TextOf(buf, s.value) == text
  }

  lemma AtShows(buf: seq<byte>, p: nat, text: seq<byte>)
    requires At(buf, p, text)
    ensures Shows(buf, Some(Span(p, |text|)), text)
  {
    AtIsSlice(buf, p, text);
  }

  lemma WordText(buf: seq<byte>, p: nat, word: seq<byte>, gap: seq<byte>)
    requires At(buf, p, word + gap)
    ensures Shows(buf, Some(Span(p, |word|)), word)
  {
    AtSplit(buf, p, word, gap);
    AtShows(buf, p, word);
  }

  /** The outcome is the printed request: its length or the lack of room, its method, target
      and version, and the headers there is room for. */
  lemma RequestReadsBack(buf: seq<byte>, r: RequestLine, lines: seq<Header>, crlf: bool, max: nat)
    requires IsDigit(r.minor) && PrintRequest(r, lines, crlf) <= buf
    ensures var h := RequestOutcome(r, lines, crlf, max);
            && h.res == (if |lines| <= max then Ok(|PrintRequest(r, lines, crlf)|) else Err(Malformed))
            && Shows(buf, h.method', r.method') && Shows(buf, h.path, r.target)
            && h.version == Some(r.minor - 0x30)
    ensures var log, k := RequestOutcome(r, lines, crlf, max).log, Min(|lines|, max);
            |log| == 2 * k && ReadBack(buf, log, k) == Meanings(lines[..k])
  {
    hide At, PrintRequest, BlockAt, ReadBack, Meanings;
    RequestAtIsPrinted(buf, r, lines, crlf);
    WordText(buf, |r.blank|, r.method', r.gap);
    WordText(buf, TargetAt(r), r.target, r.gap');
    OutcomeReadsBack(buf, HeadersAt(r), lines, crlf, max);
  }

  lemma BlankShape(buf: seq<byte>) returns (blank: seq<byte>)
    requires SkipEmptyLine(buf).Ok?
    ensures (blank == [] || blank == Eol(true) || blank == Eol(false)) && At(buf, 0, blank)
    ensures SkipEmptyLine(buf) == Ok(|blank|)
  {
    if buf[0] == CR || buf[0] == LF {
      var crlf := BreakIsEol(buf, 0);
      blank := Eol(crlf);
    } else {
      blank := [];
    }
  }

  /** The stages of a request that parses. */
  lemma RequestStages(buf: seq<byte>, p: nat, max: nat, h: HeadRun) returns (h': HeadRun)
    requires p <= |buf| && h.method'.Some? && RequestTarget(buf, p, max, h).res.Ok?
    ensures h.method'.value.len > 0 && Word(Target, buf, p).1.Ok? && Word(Target, buf, p).0.value.len > 0
    ensures RequestVersion(buf, Word(Target, buf, p).1.value, max, h').res.Ok?
  {
    h' := h.(path := Word(Target, buf, p).0);
  }

  lemma MethodStage(buf: seq<byte>, max: nat) returns (p: nat)
    requires ParseRequest(buf, max).res.Ok?
    ensures SkipEmptyLine(buf) == Ok(p) && p <= |buf| && Word(Token(SP), buf, p).1.Ok?
    ensures RequestTarget(buf, Word(Token(SP), buf, p).1.value, max,
                          NOTHING.(method' := Word(Token(SP), buf, p).0)).res.Ok?
  {
    p := SkipEmptyLine(buf).value;
  }

  /** The words of a request that parses. */
  lemma WordsShape(buf: seq<byte>, max: nat)
    returns (blank: seq<byte>, m: seq<byte>, gap: seq<byte>, target: seq<byte>, gap': seq<byte>, h: HeadRun)
    requires ParseRequest(buf, max).res.Ok?
    ensures blank == [] || blank == Eol(true) || blank == Eol(false)
    ensures ValidWord(Token(SP), m, gap) && ValidWord(Target, target, gap')
    ensures WordsAt(buf, blank, m + gap, target + gap')
    ensures RequestVersion(buf, |blank| + |m + gap| + |target + gap'|, max, h).res.Ok?
  {
    hide At, ParseRequest, RequestVersion;
    var p := MethodStage(buf, max);
    var q := Word(Token(SP), buf, p).1.value;
    h := RequestStages(buf, q, max, NOTHING.(method' := Word(Token(SP), buf, p).0));
    blank := BlankShape(buf);
    m, gap := WordShape(Token(SP), buf, p);
    target, gap' := WordShape(Target, buf, q);
  }

  /** Printing inverts parsing for requests. */
  lemma RequestIsPrinted(buf: seq<byte>, max: nat) returns (r: RequestLine, lines: seq<Header>, crlf: bool)
    requires ParseRequest(buf, max).res.Ok?
    ensures ValidRequestLine(r) && ValidLines(lines, true) && |lines| <= max && PrintRequest(r, lines, crlf) <= buf
  {
    hide At, ParseRequest, RequestVersion, ValidLines, BlockAt, PrintRequest;
    var blank, m, gap, target, gap', h := WordsShape(buf, max);
    var minor, eol;
    minor, eol, lines, crlf := RequestTailShape(buf, |blank| + |m + gap| + |target + gap'|, max, h);
    r := RequestLine(blank, m, gap, target, gap', minor, eol);
    RequestAtIsPrinted(buf, r, lines, crlf);
  }

  /** The language of requests. */
  lemma RequestLanguage(buf: seq<byte>, max: nat)
    ensures ParseRequest(buf, max).res.Ok? <==>
            exists r: RequestLine, lines: seq<Header>, crlf: bool ::
              ValidRequestLine(r) && ValidLines(lines, true) && |lines| <= max && PrintRequest(r, lines, crlf) <= buf
  {
    if ParseRequest(buf, max).res.Ok? {
      var r, lines, crlf := RequestIsPrinted(buf, max);
    }
    if r: RequestLine, lines: seq<Header>, crlf: bool :|
      ValidRequestLine(r) && ValidLines(lines, true) && |lines| <= max && PrintRequest(r, lines, crlf) <= buf {
      RequestRoundTrip(buf, r, lines, crlf, max);
    }
  }

  // Responses.

  ghost predicate ReasonAt(buf: seq<byte>, p: nat, gap: seq<byte>, phrase: seq<byte>, eol: bool) {
    At(buf, p, gap) && At(buf, p + |gap|, phrase) && At(buf, p + |gap| + |phrase|, Eol(eol))
  }

  lemma SpacesAreText(buf: seq<byte>, p: nat, gap: seq<byte>, phrase: seq<byte>)
    requires ValidPhrase(gap, phrase) && At(buf, p, gap) && At(buf, p + |gap|, phrase)
    ensures forall i :: p <= i < p + |gap| + |phrase| ==> Accepts(Text, buf[i])
    ensures gap != [] ==> buf[p] == SP
    ensures phrase != [] ==> buf[p + |gap|] != SP
    ensures forall i :: p <= i < p + |gap| ==> Accepts(Spaces, buf[i])
  {
  }

  lemma ReasonParses(buf: seq<byte>, p: nat, gap: seq<byte>, phrase: seq<byte>, eol: bool)
    requires ValidPhrase(gap, phrase) && ReasonAt(buf, p, gap, phrase, eol)
    ensures Reason(buf, p) ==
            (Some(Span(p + |gap|, |phrase|)), Ok(p + |gap| + |phrase| + |Eol(eol)|))
  {
    hide At;
    var s, e := p + |gap|, p + |gap| + |phrase|;
    SpacesAreText(buf, p, gap, phrase);
    EolBreaks(buf, e, eol);
    SkipIs(Text, buf, p, e);
    SkipIs(Spaces, buf, p, s);
  }

  lemma ReasonShape(buf: seq<byte>, p: nat) returns (gap: seq<byte>, phrase: seq<byte>, eol: bool)
    requires p <= |buf| && Reason(buf, p).1.Ok?
    ensures ValidPhrase(gap, phrase) && ReasonAt(buf, p, gap, phrase, eol)
    ensures Reason(buf, p).1 == Ok(p + |gap| + |phrase| + |Eol(eol)|)
  {
    hide At, Eol, Skip;
    var (e, q) := ScanEol(buf, p).value;
    SpacesEndInLine(buf, p, e);
    var s := Skip(Spaces, buf, p);
    gap, phrase := buf[p..s], buf[s..e];
    eol := BreakIsEol(buf, e);
    ClassSlice(Spaces, buf, p, s);
    ClassSlice(Text, buf, s, e);
    AtSelf(buf, p, s);
    AtSelf(buf, s, e);
  }

  lemma StatusParses(buf: seq<byte>, p: nat, status: seq<byte>)
    requires AreDigits(status) && At(buf, p, status) && p + 3 < |buf|
    ensures Status(buf, p) == (Ok(p + 3), Some(StatusValue(status))) && buf[p] != SP
  {
    assert buf[p] == status[0] && buf[p + 1] == status[1] && buf[p + 2] == status[2];
  }

  lemma StatusShape(buf: seq<byte>, p: nat) returns (status: seq<byte>)
    requires p <= |buf| && Status(buf, p).0.Ok?
    ensures AreDigits(status) && At(buf, p, status) && Status(buf, p).0 == Ok(p + 3)
  {
    status := buf[p..p + 3];
    AtSelf(buf, p, p + 3);
  }

  function StatusAt(r: StatusLine): nat {
    8 + |r.gap|
  }

  function FieldsAt(r: StatusLine): nat {
    StatusAt(r) + 3 + |r.gap'| + |r.phrase| + |Eol(r.crlf)|
  }

  ghost predicate FrontAt(buf: seq<byte>, minor: byte, gap: seq<byte>, status: seq<byte>) {
    At(buf, 0, PrintVersion(minor)) && At(buf, 8, gap) && At(buf, 8 + |gap|, status)
  }

  ghost predicate ResponseAt(buf: seq<byte>, r: StatusLine, lines: seq<Header>, crlf: bool) {
    && FrontAt(buf, r.minor, r.gap, r.status) && ReasonAt(buf, StatusAt(r) + 3, r.gap', r.phrase, r.crlf)
    && BlockAt(buf, FieldsAt(r), lines, crlf)
  }

  function PrintResponse(r: StatusLine, lines: seq<Header>, crlf: bool): seq<byte> {
    PrintVersion(r.minor) + (r.gap + (r.status + (r.gap' + (r.phrase + (Eol(r.crlf) + PrintBlock(lines, crlf))))))
  }

  lemma ResponseAtIsPrinted(buf: seq<byte>, r: StatusLine, lines: seq<Header>, crlf: bool)
    requires |r.status| == 3
    ensures |PrintResponse(r, lines, crlf)| == BlockEnd(FieldsAt(r), lines, crlf)
    ensures PrintResponse(r, lines, crlf) <= buf <==> ResponseAt(buf, r, lines, crlf)
  {
    hide At;
    var block, p := PrintBlock(lines, crlf), StatusAt(r) + 3;
    var tail := r.phrase + (Eol(r.crlf) + block);
    BeginsWith(buf, PrintResponse(r, lines, crlf));
    PiecesAt(buf, 0, PrintVersion(r.minor), r.gap, r.status + (r.gap' + tail));
    PiecesAt(buf, StatusAt(r), r.status, r.gap', tail);
    PiecesAt(buf, p + |r.gap'|, r.phrase, Eol(r.crlf), block);
    BlockAtIsPrinted(buf, FieldsAt(r), lines, crlf);
  }

  /** What parsing a printed response comes to. */
  function ResponseOutcome(r: StatusLine, lines: seq<Header>, crlf: bool, max: nat): HeadRun
    requires IsDigit(r.minor) && AreDigits(r.status)
  {
    WithHeaders(NOTHING.(version := Some(Digit(r.minor)), status := Some(StatusValue(r.status)),
                         reason := Some(Span(StatusAt(r) + 3 + |r.gap'|, |r.phrase|))),
                Outcome(lines, crlf, FieldsAt(r), max))
  }

  lemma FrontParses(buf: seq<byte>, r: StatusLine, max: nat)
    requires ValidStatusLine(r) && FrontAt(buf, r.minor, r.gap, r.status) && StatusAt(r) + 3 < |buf|
    ensures ParseResponse(buf, max) ==
            ResponseReason(buf, StatusAt(r) + 3, max,
                           NOTHING.(version := Some(Digit(r.minor)), status := Some(StatusValue(r.status))))
  {
    hide PrintVersion, Version, Status, ResponseReason;
    VersionParses(buf, 0, r.minor);
    StatusParses(buf, StatusAt(r), r.status);
    assert Accepts(Spaces, r.gap[0]) && buf[8] == r.gap[0];
    SkipIs(Spaces, buf, 9, StatusAt(r));
  }

  lemma ResponseTailParses(buf: seq<byte>, r: StatusLine, lines: seq<Header>, crlf: bool, max: nat, h: HeadRun)
    requires ValidStatusLine(r) && ValidLines(lines, true) && ResponseAt(buf, r, lines, crlf)
    ensures StatusAt(r) + 3 < |buf|
    ensures ResponseReason(buf, StatusAt(r) + 3, max, h) ==
            WithHeaders(h.(reason := Some(Span(StatusAt(r) + 3 + |r.gap'|, |r.phrase|))),
                        Outcome(lines, crlf, FieldsAt(r), max))
  {
    hide At, Outcome, Reason, ValidLines, BlockAt, Eol, BlockEnd, Headers;
    var p := StatusAt(r) + 3;
    EolBreaks(buf, p + |r.gap'| + |r.phrase|, r.crlf);
    ReasonParses(buf, p, r.gap', r.phrase, r.crlf);
    BlockOutcome(buf, FieldsAt(r), lines, crlf, max);
  }

  /** Parsing inverts printing for responses. */
  lemma ResponseRoundTrip(buf: seq<byte>, r: StatusLine, lines: seq<Header>, crlf: bool, max: nat)
    requires ValidStatusLine(r) && ValidLines(lines, true) && PrintResponse(r, lines, crlf) <= buf
    ensures ParseResponse(buf, max) == ResponseOutcome(r, lines, crlf, max)
  {
    hide At, ParseResponse, ResponseReason, Outcome, ValidLines, BlockAt, PrintResponse;
    ResponseAtIsPrinted(buf, r, lines, crlf);
    var h := NOTHING.(version := Some(Digit(r.minor)), status := Some(StatusValue(r.status)));
    ResponseTailParses(buf, r, lines, crlf, max, h);
    FrontParses(buf, r, max);
  }

  /** The outcome is the printed response: its length or the lack of room, its version, status
      and phrase, and the headers there is room for. */
  lemma ResponseReadsBack(buf: seq<byte>, r: StatusLine, lines: seq<Header>, crlf: bool, max: nat)
    requires IsDigit(r.minor) && AreDigits(r.status) && PrintResponse(r, lines, crlf) <= buf
    ensures var h := ResponseOutcome(r, lines, crlf, max);
            && h.res == (if |lines| <= max then Ok(|PrintResponse(r, lines, crlf)|) else Err(Malformed))
            && h.version == Some(r.minor - 0x30)
            && h.status == Some(StatusValue(r.status))
            && Shows(buf, h.reason, r.phrase)
    ensures var log, k := ResponseOutcome(r, lines, crlf, max).log, Min(|lines|, max);
            |log| == 2 * k && ReadBack(buf, log, k) == Meanings(lines[..k])
  {
    hide At, PrintResponse, BlockAt, ReadBack, Meanings;
    ResponseAtIsPrinted(buf, r, lines, crlf);
    AtShows(buf, StatusAt(r) + 3 + |r.gap'|, r.phrase);
    OutcomeReadsBack(buf, FieldsAt(r), lines, crlf, max);
  }

  lemma StatusStage(buf: seq<byte>, q: nat, max: nat, h: HeadRun) returns (h': HeadRun)
    requires q <= |buf| && ResponseStatus(buf, q, max, h).res.Ok?
    ensures Status(buf, q).0.Ok? && q + 3 <= |buf| && ResponseReason(buf, q + 3, max, h').res.Ok?
  {
    hide ResponseReason;
    h' := h.(status := Status(buf, q).1);
  }

  lemma FrontShape(buf: seq<byte>, max: nat) returns (minor: byte, gap: seq<byte>, status: seq<byte>, h: HeadRun)
    requires ParseResponse(buf, max).res.Ok?
    ensures IsDigit(minor) && gap != [] && All(Spaces, gap) && AreDigits(status) && FrontAt(buf, minor, gap, status)
    ensures 8 + |gap| + 3 <= |buf| && ResponseReason(buf, 8 + |gap| + 3, max, h).res.Ok?
  {
    hide At, ParseResponse, ResponseStatus, ResponseReason, All, AreDigits, Version;
    var h0 := StatusIsReached(buf, max);
    var q := Skip(Spaces, buf, 8);
    h := StatusStage(buf, q, max, h0);
    minor := VersionShape(buf, 0);
    gap := buf[8..q];
    ClassSlice(Spaces, buf, 8, q);
    AtSelf(buf, 8, q);
    status := StatusShape(buf, q);
  }

  /** Printing inverts parsing for responses. */
  lemma ResponseIsPrinted(buf: seq<byte>, max: nat) returns (r: StatusLine, lines: seq<Header>, crlf: bool)
    requires ParseResponse(buf, max).res.Ok?
    ensures ValidStatusLine(r) && ValidLines(lines, true) && |lines| <= max && PrintResponse(r, lines, crlf) <= buf
  {
    hide At, ParseResponse, Reason, ValidLines, BlockAt, PrintResponse;
    var minor, gap, status, h := FrontShape(buf, max);
    var p := 8 + |gap| + 3;
    var gap', phrase, eol := ReasonShape(buf, p);
    r := StatusLine(minor, gap, status, gap', phrase, eol);
    lines, crlf := BlockShape(buf, FieldsAt(r), 0, max, []);
    ResponseAtIsPrinted(buf, r, lines, crlf);
  }

  /** The language of responses. */
  lemma ResponseLanguage(buf: seq<byte>, max: nat)
    ensures ParseResponse(buf, max).res.Ok? <==>
            exists r: StatusLine, lines: seq<Header>, crlf: bool ::
              ValidStatusLine(r) && ValidLines(lines, true) && |lines| <= max && PrintResponse(r, lines, crlf) <= buf
  {
    hide ParseResponse;
    if ParseResponse(buf, max).res.Ok? {
      var r, lines, crlf := ResponseIsPrinted(buf, max);
    }
    if r: StatusLine, lines: seq<Header>, crlf: bool :|
      ValidStatusLine(r) && ValidLines(lines, true) && |lines| <= max && PrintResponse(r, lines, crlf) <= buf {
      ResponseRoundTrip(buf, r, lines, crlf, max);
      ResponseReadsBack(buf, r, lines, crlf, max);
    }
  }

  // The version, wherever it stands.

  /** `HTTP/1.`, a digit and one byte more, from `v` on. */
  ghost predicate VersionBytes(buf: seq<byte>, v: nat) {
    && v + 8 < |buf| && buf[v..v + 7] == [0x48, 0x54, 0x54, 0x50, 0x2F, 0x31, 0x2E]
    && 0x30 <= buf[v + 7] <= 0x39
  }

  lemma VersionIsBytes(buf: seq<byte>, p: nat)
    requires p <= |buf|
    ensures Version(buf, p).Ok? <==> VersionBytes(buf, p)
    ensures Version(buf, p).Ok? ==> Version(buf, p).value == (buf[p + 7] as int - 0x30, p + 8)
  {
  }

  /** A response that parses begins with its version. */
  lemma ResponseVersion(buf: seq<byte>, max: nat)
    requires ParseResponse(buf, max).res.Ok?
    ensures |buf| > 8 && buf[..7] == [0x48, 0x54, 0x54, 0x50, 0x2F, 0x31, 0x2E] && 0x30 <= buf[7] <= 0x39
    ensures ParseResponse(buf, max).version == Some(buf[7] as int - 0x30)
  {
    hide At, PrintResponse, BlockAt, ParseResponse, Outcome, PrintVersion, ReasonAt, ValidLines, Reason;
    var r, lines, crlf := ResponseIsPrinted(buf, max);
    ResponseRoundTrip(buf, r, lines, crlf, max);
    ResponseAtIsPrinted(buf, r, lines, crlf);
    VersionParses(buf, 0, r.minor);
    VersionIsBytes(buf, 0);
  }

  lemma GapIsSpaces(buf: seq<byte>, p: nat, word: seq<byte>, gap: seq<byte>)
    requires At(buf, p, word + gap) && All(Spaces, gap)
    ensures forall i :: p + |word| <= i < p + |word + gap| ==> buf[i] == 0x20
  {
    AtSplit(buf, p, word, gap);
    forall i | p + |word| <= i < p + |word + gap| ensures buf[i] == 0x20 {
      assert Accepts(Spaces, gap[i - p - |word|]);
    }
  }

  lemma TailVersion(buf: seq<byte>, p: nat, minor: byte, eol: bool, lines: seq<Header>, crlf: bool)
    requires IsDigit(minor) && RequestTailAt(buf, p, minor, eol, lines, crlf)
    ensures p + 8 < |buf| && VersionBytes(buf, p) && buf[p + 7] == minor
  {
    hide At, BlockAt, PrintVersion;
    EolBreaks(buf, p + 8, eol);
    VersionParses(buf, p, minor);
    VersionIsBytes(buf, p);
  }

  /** A request that parses has its version behind its target and the spaces there. */
  lemma RequestVersionPlace(buf: seq<byte>, max: nat) returns (v: nat)
    requires ParseRequest(buf, max).res.Ok?
    ensures var h := ParseRequest(buf, max);
            && h.path.Some? && h.path.value.off + h.path.value.len < v < |buf|
            && (forall i :: h.path.value.off + h.path.value.len <= i < v ==> buf[i] == 0x20)
            && VersionBytes(buf, v) && h.version == Some(buf[v + 7] as int - 0x30)
  {
    hide At, PrintRequest, BlockAt, ParseRequest, Outcome, PrintVersion, Accepts, ValidLines, VersionBytes, Version;
    var r, lines, crlf := RequestIsPrinted(buf, max);
    RequestRoundTrip(buf, r, lines, crlf, max);
    RequestAtIsPrinted(buf, r, lines, crlf);
    v := VersionAt(r);
    GapIsSpaces(buf, TargetAt(r), r.target, r.gap');
    TailVersion(buf, v, r.minor, r.crlf, lines, crlf);
  }
}
