/** The language of header blocks: printing and parsing are inverse to each other. */
module HeadGrammar {
  import opened Bytes
  import opened HeadSpec
  import opened HeadFinality

  /** A header line as it is written: its parts with all their blanks. A folded line is the
      continuation of the value before it and keeps its leading blank. */
  datatype Header =
    | Named(name: seq<byte>, lead: seq<byte>, value: seq<byte>, trail: seq<byte>, crlf: bool)
    | Folded(value: seq<byte>, trail: seq<byte>, crlf: bool)

  ghost predicate All(c: Class, x: seq<byte>) {
    forall i :: 0 <= i < |x| ==> Accepts(c, x[i])
  }

  function Eol(crlf: bool): (s: seq<byte>)
    ensures |s| == if crlf then 2 else 1
  {
    if crlf then [0x0D, 0x0A] else [0x0A]
  }

  /** A value and the blanks behind it. */
  ghost predicate ValidValue(value: seq<byte>, trail: seq<byte>) {
    All(Text, value) && All(Blanks, trail) && (value != [] ==> !IsBlank(value[|value| - 1]))
  }

  ghost predicate ValidNamed(name: seq<byte>, lead: seq<byte>, value: seq<byte>, trail: seq<byte>) {
    && name != [] && All(Token(COLON), name) && All(Blanks, lead) && ValidValue(value, trail)
    && (if value != [] then !IsBlank(value[0]) else trail == [])
  }

  ghost predicate ValidFolded(value: seq<byte>, trail: seq<byte>) {
    && ValidValue(value, trail) && (value != [] || trail != [])
    && (value != [] ==> IsBlank(value[0]))
  }

  /** A valid line; the first one of a block is not folded. */
  ghost predicate ValidLine(h: Header, first: bool) {
    match h
    case Named(name, lead, value, trail, _) => ValidNamed(name, lead, value, trail)
    case Folded(value, trail, _) => !first && ValidFolded(value, trail)
  }

  ghost predicate ValidLines(lines: seq<Header>, first: bool)
    decreases |lines|
  {
    lines == [] || (ValidLine(lines[0], first) && ValidLines(lines[1..], false))
  }

  function PrintLine(h: Header): seq<byte> {
    match h
    case Named(name, lead, value, trail, crlf) => name + [COLON] + lead + value + trail + Eol(crlf)
    case Folded(value, trail, crlf) => value + trail + Eol(crlf)
  }

  /** Header lines and the blank line. */
  function PrintBlock(lines: seq<Header>, crlf: bool): seq<byte> {
    if lines == [] then Eol(crlf) else PrintLine(lines[0]) + PrintBlock(lines[1..], crlf)
  }

  // Printed text at a position.

  ghost predicate At(buf: seq<byte>, p: nat, x: seq<byte>) {
    p + |x| <= |buf| && forall i :: p <= i < p + |x| ==> buf[i] == x[i - p]
  }

  lemma AtSplit(buf: seq<byte>, p: nat, x: seq<byte>, y: seq<byte>)
    ensures At(buf, p, x + y) <==> At(buf, p, x) && At(buf, p + |x|, y)
  {
    if At(buf, p, x) && At(buf, p + |x|, y) {
      forall i | p <= i < p + |x + y| ensures buf[i] == (x + y)[i - p] {
      }
    }
    if At(buf, p, x + y) {
      forall i | p <= i < p + |x| ensures buf[i] == x[i - p] {
        assert (x + y)[i - p] == x[i - p];
      }
      forall i | p + |x| <= i < p + |x| + |y| ensures buf[i] == y[i - (p + |x|)] {
        assert (x + y)[i - p] == y[i - p - |x|];
      }
    }
  }

  lemma AtIsSlice(buf: seq<byte>, p: nat, x: seq<byte>)
    ensures At(buf, p, x) <==> p + |x| <= |buf| && buf[p..p + |x|] == x
  {
    if p + |x| <= |buf| && buf[p..p + |x|] == x {
      forall i | p <= i < p + |x| ensures buf[i] == x[i - p] {
        assert buf[p..p + |x|][i - p] == buf[i];
      }
    }
  }

  /** Where a value printed at `p` and its line end. */
  function ValueEnd(p: nat, value: seq<byte>, trail: seq<byte>, crlf: bool): nat {
    p + |value| + |trail| + if crlf then 2 else 1
  }

  function LineEnd(p: nat, h: Header): nat {
    ValueEnd(if h.Named? then p + |h.name| + 1 + |h.lead| else p, h.value, h.trail, h.crlf)
  }

  /** The parts of a line, each in its place. */
  ghost predicate ValueAt(buf: seq<byte>, p: nat, value: seq<byte>, trail: seq<byte>, crlf: bool) {
    && At(buf, p, value) && At(buf, p + |value|, trail) && At(buf, p + |value| + |trail|, Eol(crlf))
  }

  ghost predicate FieldAt(buf: seq<byte>, p: nat, name: seq<byte>, lead: seq<byte>) {
    At(buf, p, name) && At(buf, p + |name|, [COLON]) && At(buf, p + |name| + 1, lead)
  }

  ghost predicate LineAt(buf: seq<byte>, p: nat, h: Header) {
    match h
    case Named(name, lead, value, trail, crlf) =>
      FieldAt(buf, p, name, lead) && ValueAt(buf, p + |name| + 1 + |lead|, value, trail, crlf)
    case Folded(value, trail, crlf) => ValueAt(buf, p, value, trail, crlf)
  }

  ghost predicate BlockAt(buf: seq<byte>, p: nat, lines: seq<Header>, crlf: bool)
    decreases |lines|
  {
    if lines == [] then At(buf, p, Eol(crlf))
    else LineAt(buf, p, lines[0]) && BlockAt(buf, LineEnd(p, lines[0]), lines[1..], crlf)
  }

  function BlockEnd(p: nat, lines: seq<Header>, crlf: bool): nat
    decreases |lines|
  {
    if lines == [] then p + |Eol(crlf)| else BlockEnd(LineEnd(p, lines[0]), lines[1..], crlf)
  }

  lemma ValueAtIsPrinted(buf: seq<byte>, p: nat, front: seq<byte>, value: seq<byte>, trail: seq<byte>, crlf: bool)
    ensures At(buf, p, front + value + trail + Eol(crlf)) <==>
            At(buf, p, front) && ValueAt(buf, p + |front|, value, trail, crlf)
  {
    AtSplit(buf, p, front, value);
    AtSplit(buf, p, front + value, trail);
    AtSplit(buf, p, front + value + trail, Eol(crlf));
  }

  lemma NamedAtIsPrinted(buf: seq<byte>, p: nat, name: seq<byte>, lead: seq<byte>, value: seq<byte>, trail: seq<byte>,
                         crlf: bool)
    ensures At(buf, p, name + [COLON] + lead + value + trail + Eol(crlf)) <==>
            FieldAt(buf, p, name, lead) && ValueAt(buf, p + |name| + 1 + |lead|, value, trail, crlf)
  {
    ValueAtIsPrinted(buf, p, name + [COLON] + lead, value, trail, crlf);
    AtSplit(buf, p, name, [COLON]);
    AtSplit(buf, p, name + [COLON], lead);
  }

  lemma FoldedAtIsPrinted(buf: seq<byte>, p: nat, value: seq<byte>, trail: seq<byte>, crlf: bool)
    ensures At(buf, p, value + trail + Eol(crlf)) <==> ValueAt(buf, p, value, trail, crlf)
  {
    AtSplit(buf, p, value, trail);
    AtSplit(buf, p, value + trail, Eol(crlf));
  }

  lemma LineAtIsPrinted(buf: seq<byte>, p: nat, h: Header)
    ensures At(buf, p, PrintLine(h)) <==> LineAt(buf, p, h)
    ensures p + |PrintLine(h)| == LineEnd(p, h)
  {
    match h
    case Named(name, lead, value, trail, crlf) => NamedAtIsPrinted(buf, p, name, lead, value, trail, crlf);
    case Folded(value, trail, crlf) => FoldedAtIsPrinted(buf, p, value, trail, crlf);
  }

  lemma LineThenIsPrinted(buf: seq<byte>, p: nat, h: Header, tail: seq<byte>)
    ensures At(buf, p, PrintLine(h) + tail) <==> LineAt(buf, p, h) && At(buf, LineEnd(p, h), tail)
    ensures p + |PrintLine(h) + tail| == LineEnd(p, h) + |tail|
  {
    LineAtIsPrinted(buf, p, h);
    AtSplit(buf, p, PrintLine(h), tail);
  }

  lemma {:induction false} BlockAtIsPrinted(buf: seq<byte>, p: nat, lines: seq<Header>, crlf: bool)
    ensures At(buf, p, PrintBlock(lines, crlf)) <==> BlockAt(buf, p, lines, crlf)
    ensures p + |PrintBlock(lines, crlf)| == BlockEnd(p, lines, crlf)
    decreases |lines|
  {
    if lines != [] {
      LineThenIsPrinted(buf, p, lines[0], PrintBlock(lines[1..], crlf));
      BlockAtIsPrinted(buf, LineEnd(p, lines[0]), lines[1..], crlf);
    }
  }

  // Parsing what was printed.

  /** A scanner crosses text of its class and stops behind it. */
  lemma SkipsOver(c: Class, buf: seq<byte>, p: nat, x: seq<byte>)
    requires At(buf, p, x) && All(c, x)
    requires p + |x| < |buf| ==> !Accepts(c, buf[p + |x|])
    ensures Skip(c, buf, p) == p + |x|
  {
    SkipIs(c, buf, p, p + |x|);
  }

  lemma EolBreaks(buf: seq<byte>, e: nat, crlf: bool)
    requires At(buf, e, Eol(crlf))
    ensures e < |buf| && Break(buf, e) == Ok(e + |Eol(crlf)|) && (buf[e] == CR || buf[e] == LF)
  {
  }

  lemma ValueTrims(buf: seq<byte>, p: nat, value: seq<byte>, trail: seq<byte>)
    requires ValidValue(value, trail) && At(buf, p, value) && At(buf, p + |value|, trail)
    ensures RTrim(buf, p, p + |value| + |trail|) == p + |value|
    ensures forall i :: p <= i < p + |value| + |trail| ==> Accepts(Text, buf[i])
  {
    RTrimIs(buf, p, p + |value| + |trail|, p + |value|);
  }

  lemma ValueParses(buf: seq<byte>, p: nat, value: seq<byte>, trail: seq<byte>, crlf: bool, n: nat, name: Write)
    requires ValidValue(value, trail) && ValueAt(buf, p, value, trail, crlf)
    ensures ScanValue(buf, p, n, name) ==
            LineRun(Ok(ValueEnd(p, value, trail, crlf)), [name, Value(n, Span(p, |value|))])
  {
    hide At;
    var e := p + |value| + |trail|;
    ValueTrims(buf, p, value, trail);
    EolBreaks(buf, e, crlf);
    SkipIs(Text, buf, p, e);
  }

  /** The writes for a line printed at `p` as header `n`. */
  function LineWrites(h: Header, p: nat, n: nat): (log: seq<Write>)
    ensures |log| == 2
  {
    match h
    case Named(name, lead, value, _, _) =>
      [Name(n, Some(Span(p, |name|))), Value(n, Span(p + |name| + 1 + |lead|, |value|))]
    case Folded(value, _, _) => [Name(n, None), Value(n, Span(p, |value|))]
  }

  /** What follows the blanks in front of a value is not blank. */
  lemma ValueStarts(buf: seq<byte>, v: nat, value: seq<byte>, trail: seq<byte>, crlf: bool)
    requires ValueAt(buf, v, value, trail, crlf)
    requires if value != [] then !IsBlank(value[0]) else trail == []
    ensures v < |buf| && !IsBlank(buf[v])
  {
    if value == [] {
      EolBreaks(buf, v, crlf);
    }
  }

  lemma FieldParses(buf: seq<byte>, p: nat, name: seq<byte>, lead: seq<byte>)
    requires name != [] && All(Token(COLON), name) && All(Blanks, lead) && FieldAt(buf, p, name, lead)
    requires p + |name| + 1 + |lead| < |buf| && !IsBlank(buf[p + |name| + 1 + |lead|])
    ensures FieldName(buf, p) == (Some(Span(p, |name|)), Ok(p + |name| + 1 + |lead|))
    ensures IsTchar(buf[p])
  {
    SkipsOver(Token(COLON), buf, p, name);
    SkipsOver(Blanks, buf, p + |name| + 1, lead);
    assert Accepts(Token(COLON), name[0]);
  }

  lemma NamedParses(buf: seq<byte>, p: nat, name: seq<byte>, lead: seq<byte>, value: seq<byte>, trail: seq<byte>,
                    crlf: bool, n: nat)
    requires ValidNamed(name, lead, value, trail)
    requires FieldAt(buf, p, name, lead) && ValueAt(buf, p + |name| + 1 + |lead|, value, trail, crlf)
    ensures var h := Named(name, lead, value, trail, crlf);
            IsTchar(buf[p]) && NamedLine(buf, p, n) == LineRun(Ok(LineEnd(p, h)), LineWrites(h, p, n))
  {
    hide At, FieldName, ScanValue;
    var v := p + |name| + 1 + |lead|;
    ValueStarts(buf, v, value, trail, crlf);
    FieldParses(buf, p, name, lead);
    ValueParses(buf, v, value, trail, crlf, n, Name(n, Some(Span(p, |name|))));
  }

  lemma FoldedStarts(buf: seq<byte>, p: nat, value: seq<byte>, trail: seq<byte>, crlf: bool)
    requires ValidFolded(value, trail) && ValueAt(buf, p, value, trail, crlf)
    ensures p < |buf| && IsBlank(buf[p])
  {
    if value == [] {
      assert Accepts(Blanks, trail[0]);
    }
  }

  lemma LineParses(buf: seq<byte>, p: nat, h: Header, n: nat)
    requires ValidLine(h, n == 0) && LineAt(buf, p, h)
    ensures p < |buf| && buf[p] != CR && buf[p] != LF
    ensures HeaderLine(buf, p, n) == LineRun(Ok(LineEnd(p, h)), LineWrites(h, p, n))
  {
    hide At;
    match h
    case Named(name, lead, value, trail, crlf) =>
      NamedParses(buf, p, name, lead, value, trail, crlf, n);
    case Folded(value, trail, crlf) =>
      FoldedStarts(buf, p, value, trail, crlf);
      ValueParses(buf, p, value, trail, crlf, n, Name(n, None));
  }

  /** The writes for lines printed one after another from `p` on, up to the capacity. */
  function Writes(lines: seq<Header>, p: nat, n: nat, max: nat, log: seq<Write>): seq<Write>
    decreases |lines|, |log|
  {
    if lines == [] || n == max then log
    else Writes(lines[1..], LineEnd(p, lines[0]), n + 1, max, log + LineWrites(lines[0], p, n))
  }

  lemma {:induction false} BlockParses(buf: seq<byte>, p: nat, lines: seq<Header>, crlf: bool, n: nat, max: nat,
                                       log: seq<Write>)
    requires ValidLines(lines, n == 0) && BlockAt(buf, p, lines, crlf) && n <= max
    ensures p <= |buf|
    ensures Headers(buf, p, n, max, log) ==
            LineRun(if n + |lines| <= max then Ok(BlockEnd(p, lines, crlf)) else Err(Malformed),
                    Writes(lines, p, n, max, log))
    decreases |lines|
  {
    hide At, HeaderLine, LineAt, ValidLine;
    if lines == [] {
      EolBreaks(buf, p, crlf);
    } else {
      var h := lines[0];
      LineParses(buf, p, h, n);
      if n < max {
        HeadersUnfold(buf, p, n, max, log);
        BlockParses(buf, LineEnd(p, h), lines[1..], crlf, n + 1, max, log + LineWrites(h, p, n));
      }
    }
  }

  // What the caller reads back.

  /** What a header means to the caller. */
  datatype Field = Field(name: Option<seq<byte>>, value: seq<byte>)

  function Meaning(h: Header): Field {
    Field(if h.Named? then Some(h.name) else None, h.value)
  }

  function Meanings(lines: seq<Header>): (f: seq<Field>)
    ensures |f| == |lines|
  {
    if lines == [] then [] else [Meaning(lines[0])] + Meanings(lines[1..])
  }

  predicate Inside(buf: seq<byte>, s: Span) {
    s.off + s.len <= |buf|
  }

  function TextOf(buf: seq<byte>, s: Span): seq<byte>
    requires Inside(buf, s)
  {
    buf[s.off..s.off + s.len]
  }

  function ReadName(buf: seq<byte>, w: Write): Option<seq<byte>> {
    if w.Name? && w.name.Some? && Inside(buf, w.name.value) then Some(TextOf(buf, w.name.value)) else None
  }

  function ReadValue(buf: seq<byte>, w: Write): seq<byte> {
    if w.Value? && Inside(buf, w.value) then TextOf(buf, w.value) else []
  }

  /** The first `n` headers of a log, read from the buffer through their spans. */
  function ReadBack(buf: seq<byte>, log: seq<Write>, n: nat): (f: seq<Field>)
    requires 2 * n <= |log|
    ensures |f| == n
  {
    if n == 0 then []
    else ReadBack(buf, log, n - 1) + [Field(ReadName(buf, log[2 * n - 2]), ReadValue(buf, log[2 * n - 1]))]
  }

  lemma {:induction false} ReadBackStays(buf: seq<byte>, log: seq<Write>, log': seq<Write>, n: nat)
    requires log <= log' && 2 * n <= |log|
    ensures ReadBack(buf, log', n) == ReadBack(buf, log, n)
  {
    if n > 0 {
      ReadBackStays(buf, log, log', n - 1);
    }
  }

  lemma LineReadsBack(buf: seq<byte>, p: nat, h: Header, n: nat)
    requires LineAt(buf, p, h)
    ensures var w := LineWrites(h, p, n); Field(ReadName(buf, w[0]), ReadValue(buf, w[1])) == Meaning(h)
  {
    hide At;
    if h.Named? {
      AtIsSlice(buf, p, h.name);
      AtIsSlice(buf, p + |h.name| + 1 + |h.lead|, h.value);
    } else {
      AtIsSlice(buf, p, h.value);
    }
  }

  lemma OneMoreReadsBack(buf: seq<byte>, p: nat, h: Header, n: nat, log: seq<Write>)
    requires LineAt(buf, p, h) && |log| == 2 * n
    ensures ReadBack(buf, log + LineWrites(h, p, n), n + 1) == ReadBack(buf, log, n) + [Meaning(h)]
  {
    hide At;
    var log' := log + LineWrites(h, p, n);
    LineReadsBack(buf, p, h, n);
    ReadBackStays(buf, log, log', n);
    assert log'[2 * n] == LineWrites(h, p, n)[0] && log'[2 * n + 1] == LineWrites(h, p, n)[1];
  }

  function Min(a: nat, b: nat): nat {
    if a < b then a else b
  }

  lemma MeaningsUnfold(before: seq<Field>, lines: seq<Header>, k: nat)
    requires 0 < k <= |lines|
    ensures before + [Meaning(lines[0])] + Meanings(lines[1..][..k - 1]) == before + Meanings(lines[..k])
  {
    assert lines[1..][..k - 1] == lines[..k][1..];
  }

  lemma {:induction false} BlockReadsBack(buf: seq<byte>, p: nat, lines: seq<Header>, crlf: bool, n: nat, max: nat,
                                          log: seq<Write>)
    requires BlockAt(buf, p, lines, crlf) && n <= max && |log| == 2 * n
    ensures var k := Min(|lines|, max - n);
            var all := Writes(lines, p, n, max, log);
            |all| == 2 * (n + k) && ReadBack(buf, all, n + k) == ReadBack(buf, log, n) + Meanings(lines[..k])
    decreases |lines|
  {
    hide At, LineAt, ReadBack, Meanings;
    if lines == [] || n == max {
      assert ReadBack(buf, log, n) + Meanings(lines[..0]) == ReadBack(buf, log, n);
    } else {
      var h, rest := lines[0], lines[1..];
      OneMoreReadsBack(buf, p, h, n, log);
      BlockReadsBack(buf, LineEnd(p, h), rest, crlf, n + 1, max, log + LineWrites(h, p, n));
      MeaningsUnfold(ReadBack(buf, log, n), lines, Min(|lines|, max - n));
    }
  }

  lemma BeginsWith(buf: seq<byte>, x: seq<byte>)
    ensures x <= buf <==> At(buf, 0, x)
  {
    if x <= buf {
      forall i | 0 <= i < |x| ensures buf[i] == x[i - 0] {
        assert buf[..|x|][i] == buf[i];
      }
    }
  }

  /** What parsing a block printed at `p` comes to: it ends where it was printed to, or is
      refused for want of room, with the writes for the lines there is room for. */
  function Outcome(lines: seq<Header>, crlf: bool, p: nat, max: nat): LineRun {
    LineRun(if |lines| <= max then Ok(BlockEnd(p, lines, crlf)) else Err(Malformed), Writes(lines, p, 0, max, []))
  }

  lemma BlockOutcome(buf: seq<byte>, p: nat, lines: seq<Header>, crlf: bool, max: nat)
    requires ValidLines(lines, true) && BlockAt(buf, p, lines, crlf)
    ensures p <= |buf| && Headers(buf, p, 0, max, []) == Outcome(lines, crlf, p, max)
  {
    BlockParses(buf, p, lines, crlf, 0, max, []);
  }

  /** The caller reads back exactly the lines there is room for. */
  lemma OutcomeReadsBack(buf: seq<byte>, p: nat, lines: seq<Header>, crlf: bool, max: nat)
    requires BlockAt(buf, p, lines, crlf)
    ensures var log, k := Outcome(lines, crlf, p, max).log, Min(|lines|, max);
            |log| == 2 * k && ReadBack(buf, log, k) == Meanings(lines[..k])
  {
    hide BlockAt, ReadBack, Meanings, Writes, BlockEnd;
    BlockReadsBack(buf, p, lines, crlf, 0, max, []);
    assert [] + Meanings(lines[..Min(|lines|, max)]) == Meanings(lines[..Min(|lines|, max)]);
  }

  /** Parsing inverts printing: with room for all the lines the block ends where it was
      printed to, otherwise it is refused; either way the caller reads back exactly the lines
      there is room for. */
  lemma RoundTrip(lines: seq<Header>, crlf: bool, buf: seq<byte>, max: nat)
    requires ValidLines(lines, true) && PrintBlock(lines, crlf) <= buf
    ensures var h, k := ParseBlock(buf, max), Min(|lines|, max);
            && h.res == (if |lines| <= max then Ok(|PrintBlock(lines, crlf)|) else Err(Malformed))
            && |h.log| == 2 * k && ReadBack(buf, h.log, k) == Meanings(lines[..k])
  {
    BeginsWith(buf, PrintBlock(lines, crlf));
    BlockAtIsPrinted(buf, 0, lines, crlf);
    BlockOutcome(buf, 0, lines, crlf, max);
    OutcomeReadsBack(buf, 0, lines, crlf, max);
  }

  // Whatever parses was printed.

  lemma AtSelf(buf: seq<byte>, p: nat, q: nat)
    requires p <= q <= |buf|
    ensures At(buf, p, buf[p..q])
  {
  }

  lemma ClassSlice(c: Class, buf: seq<byte>, p: nat, q: nat)
    requires p <= q <= |buf| && forall i :: p <= i < q ==> Accepts(c, buf[i])
    ensures All(c, buf[p..q])
  {
    forall i | 0 <= i < q - p ensures Accepts(c, buf[p..q][i]) {
      assert buf[p..q][i] == buf[p + i];
    }
  }

  lemma SlicesValid(buf: seq<byte>, v: nat, t: nat, e: nat)
    requires v <= t <= e <= |buf|
    requires forall i :: v <= i < e ==> Accepts(Text, buf[i])
    requires forall i :: t <= i < e ==> IsBlank(buf[i])
    requires t > v ==> !IsBlank(buf[t - 1])
    ensures ValidValue(buf[v..t], buf[t..e])
  {
    ClassSlice(Text, buf, v, t);
    ClassSlice(Blanks, buf, t, e);
    assert t > v ==> buf[v..t][t - v - 1] == buf[t - 1];
  }

  lemma BreakIsEol(buf: seq<byte>, e: nat) returns (crlf: bool)
    requires e < |buf| && Break(buf, e).Ok?
    ensures At(buf, e, Eol(crlf)) && Break(buf, e) == Ok(e + if crlf then 2 else 1)
  {
    crlf := buf[e] == CR;
  }

  lemma ValueShape(buf: seq<byte>, v: nat) returns (value: seq<byte>, trail: seq<byte>, crlf: bool)
    requires v <= |buf| && ScanEol(buf, v).Ok?
    ensures ValidValue(value, trail) && ValueAt(buf, v, value, trail, crlf)
    ensures ValueEnd(v, value, trail, crlf) == ScanEol(buf, v).value.1
  {
    hide At, RTrim, ValidValue, Eol;
    var (e, q) := ScanEol(buf, v).value;
    var t := RTrim(buf, v, e);
    crlf := BreakIsEol(buf, e);
    SlicesValid(buf, v, t, e);
    value, trail := buf[v..t], buf[t..e];
    AtSelf(buf, v, t);
    AtSelf(buf, t, e);
  }

  /** How a value starts shows in how its text starts. */
  lemma ValueStart(buf: seq<byte>, v: nat, value: seq<byte>, trail: seq<byte>, crlf: bool)
    requires ValueAt(buf, v, value, trail, crlf) && All(Blanks, trail)
    ensures v < |buf|
    ensures buf[v] == if value != [] then value[0] else if trail != [] then trail[0] else Eol(crlf)[0]
    ensures value == [] && trail != [] ==> IsBlank(buf[v])
  {
    if value == [] && trail != [] {
      assert Accepts(Blanks, trail[0]);
    }
  }

  lemma FieldShape(buf: seq<byte>, p: nat) returns (name: seq<byte>, lead: seq<byte>)
    requires p <= |buf| && FieldName(buf, p).1.Ok?
    ensures name != [] && All(Token(COLON), name) && All(Blanks, lead) && FieldAt(buf, p, name, lead)
    ensures FieldName(buf, p).1.value == p + |name| + 1 + |lead| < |buf|
    ensures !IsBlank(buf[FieldName(buf, p).1.value])
  {
    var c, v := Skip(Token(COLON), buf, p), FieldName(buf, p).1.value;
    name, lead := buf[p..c], buf[c + 1..v];
    AtSelf(buf, p, c);
    AtSelf(buf, c + 1, v);
    ClassSlice(Token(COLON), buf, p, c);
    ClassSlice(Blanks, buf, c + 1, v);
  }

  lemma NamedShape(buf: seq<byte>, p: nat, n: nat) returns (h: Header)
    requires p < |buf| && NamedLine(buf, p, n).res.Ok?
    ensures h.Named? && ValidLine(h, n == 0) && LineAt(buf, p, h) && NamedLine(buf, p, n).res == Ok(LineEnd(p, h))
  {
    hide At;
    var name, lead := FieldShape(buf, p);
    var v := FieldName(buf, p).1.value;
    var value, trail, crlf := ValueShape(buf, v);
    ValueStart(buf, v, value, trail, crlf);
    h := Named(name, lead, value, trail, crlf);
  }

  lemma LineShape(buf: seq<byte>, p: nat, n: nat) returns (h: Header)
    requires p < |buf| && HeaderLine(buf, p, n).res.Ok?
    ensures ValidLine(h, n == 0) && LineAt(buf, p, h) && HeaderLine(buf, p, n).res == Ok(LineEnd(p, h))
  {
    hide At;
    if n != 0 && IsBlank(buf[p]) {
      var value, trail, crlf := ValueShape(buf, p);
      ValueStart(buf, p, value, trail, crlf);
      h := Folded(value, trail, crlf);
    } else {
      h := NamedShape(buf, p, n);
    }
  }

  lemma BlockPrepend(buf: seq<byte>, p: nat, h: Header, tail: seq<Header>, crlf: bool, first: bool)
    requires ValidLine(h, first) && LineAt(buf, p, h)
    requires ValidLines(tail, false) && BlockAt(buf, LineEnd(p, h), tail, crlf)
    ensures ValidLines([h] + tail, first) && BlockAt(buf, p, [h] + tail, crlf)
    ensures BlockEnd(p, [h] + tail, crlf) == BlockEnd(LineEnd(p, h), tail, crlf)
  {
    hide At;
    assert ([h] + tail)[1..] == tail;
  }

  /** The verdict on a block, whatever was written before it. */
  function Verdict(buf: seq<byte>, p: nat, n: nat, max: nat, log: seq<Write>): Result<nat>
    requires p <= |buf|
  {
    Headers(buf, p, n, max, log).res
  }

  lemma FirstLine(buf: seq<byte>, p: nat, n: nat, max: nat, log: seq<Write>) returns (h: Header)
    requires p < |buf| && buf[p] != CR && buf[p] != LF && Verdict(buf, p, n, max, log).Ok?
    ensures n != max && ValidLine(h, n == 0) && LineAt(buf, p, h) && LineEnd(p, h) <= |buf|
    ensures Verdict(buf, p, n, max, log) == Verdict(buf, LineEnd(p, h), n + 1, max, log + HeaderLine(buf, p, n).log)
  {
    hide At;
    HeadersUnfold(buf, p, n, max, log);
    h := LineShape(buf, p, n);
  }

  lemma BlankLine(buf: seq<byte>, p: nat, n: nat, max: nat, log: seq<Write>) returns (crlf: bool)
    requires p <= |buf| && (p < |buf| ==> buf[p] == CR || buf[p] == LF) && Verdict(buf, p, n, max, log).Ok?
    ensures BlockAt(buf, p, [], crlf) && Verdict(buf, p, n, max, log) == Ok(BlockEnd(p, [], crlf))
  {
    crlf := BreakIsEol(buf, p);
  }

  lemma {:induction false} BlockShape(buf: seq<byte>, p: nat, n: nat, max: nat, log: seq<Write>)
    returns (lines: seq<Header>, crlf: bool)
    requires p <= |buf| && n <= max && Verdict(buf, p, n, max, log).Ok?
    ensures ValidLines(lines, n == 0) && BlockAt(buf, p, lines, crlf) && n + |lines| <= max
    ensures Verdict(buf, p, n, max, log) == Ok(BlockEnd(p, lines, crlf))
    decreases |buf| - p
  {
    hide At, Verdict, HeaderLine, LineAt, ValidLine;
    if p == |buf| || buf[p] == CR || buf[p] == LF {
      lines := [];
      crlf := BlankLine(buf, p, n, max, log);
    } else {
      var h := FirstLine(buf, p, n, max, log);
      var tail;
      tail, crlf := BlockShape(buf, LineEnd(p, h), n + 1, max, log + HeaderLine(buf, p, n).log);
      BlockPrepend(buf, p, h, tail, crlf, n == 0);
      lines := [h] + tail;
    }
  }

  /** Printing inverts parsing: a block that parses is printed from a list of lines, as many
      as there is room for at most, and these lines are what the caller reads back. */
  lemma ParsedIsPrinted(buf: seq<byte>, max: nat) returns (lines: seq<Header>, crlf: bool)
    requires ParseBlock(buf, max).res.Ok?
    ensures ValidLines(lines, true) && |lines| <= max && PrintBlock(lines, crlf) <= buf
    ensures ParseBlock(buf, max).res == Ok(|PrintBlock(lines, crlf)|)
    ensures var log := ParseBlock(buf, max).log;
            |log| == 2 * |lines| && ReadBack(buf, log, |lines|) == Meanings(lines)
  {
    lines, crlf := BlockShape(buf, 0, 0, max, []);
    BlockAtIsPrinted(buf, 0, lines, crlf);
    BeginsWith(buf, PrintBlock(lines, crlf));
    RoundTrip(lines, crlf, buf, max);
    assert lines[..|lines|] == lines;
  }

  /** The language of header blocks: exactly the inputs that begin with printed lines the
      caller has room for. */
  lemma BlockLanguage(buf: seq<byte>, max: nat)
    ensures ParseBlock(buf, max).res.Ok? <==>
            exists lines: seq<Header>, crlf: bool ::
              ValidLines(lines, true) && |lines| <= max && PrintBlock(lines, crlf) <= buf
  {
    if ParseBlock(buf, max).res.Ok? {
      var lines, crlf := ParsedIsPrinted(buf, max);
    }
    if lines: seq<Header>, crlf: bool :| ValidLines(lines, true) && |lines| <= max && PrintBlock(lines, crlf) <= buf {
      RoundTrip(lines, crlf, buf, max);
    }
  }
}
