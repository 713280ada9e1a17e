/** Consuming trailers agrees with leaving them and parsing them as a header block. */
module Trailers {
  import opened Bytes
  import opened ChunkedSpec
  import opened ChunkedLedger
  import opened ChunkedGrammar
  import Head = HeadSpec
  import H = HeadGrammar
  import HeadPartial

  function CarriageReturn(crlf: bool): seq<byte> {
    if crlf then [CR] else []
  }

  /** A header line as a trailer line: without its line feed. */
  function RawLine(h: H.Header): seq<byte> {
    match h
    case Named(name, lead, value, trail, crlf) => name + [COLON] + lead + value + trail + CarriageReturn(crlf)
    case Folded(value, trail, crlf) => value + trail + CarriageReturn(crlf)
  }

  lemma RawLineIsPrinted(h: H.Header)
    ensures RawLine(h) + [LF] == H.PrintLine(h)
  {
    assert CarriageReturn(h.crlf) + [LF] == H.Eol(h.crlf);
    match h
    case Named(name, lead, value, trail, crlf) =>
      var text := name + [COLON] + lead + value + trail;
      assert text + CarriageReturn(crlf) + [LF] == text + (CarriageReturn(crlf) + [LF]);
    case Folded(value, trail, crlf) =>
      assert value + trail + CarriageReturn(crlf) + [LF] == value + trail + (CarriageReturn(crlf) + [LF]);
  }

  lemma ClassHasNoLf(c: Head.Class, x: seq<byte>)
    requires H.All(c, x) && (c == Head.Token(COLON) || c == Head.Text || c == Head.Blanks)
    ensures NoLineBreak(x)
  {
    forall i | 0 <= i < |x| ensures x[i] != CR && x[i] != LF {
      assert Head.Accepts(c, x[i]);
    }
  }

  lemma TrailerLine(text: seq<byte>, crlf: bool)
    requires text != [] && NoLineBreak(text)
    ensures NoLf(text + CarriageReturn(crlf)) && !AllCr(text + CarriageReturn(crlf))
  {
    assert (text + CarriageReturn(crlf))[0] == text[0];
  }

  lemma RawLineIsTrailer(h: H.Header, first: bool)
    requires H.ValidLine(h, first)
    ensures NoLf(RawLine(h)) && !AllCr(RawLine(h))
  {
    ClassHasNoLf(Head.Text, h.value);
    ClassHasNoLf(Head.Blanks, h.trail);
    match h
    case Named(name, lead, value, trail, crlf) =>
      ClassHasNoLf(Head.Token(COLON), name);
      ClassHasNoLf(Head.Blanks, lead);
      TrailerLine(name + [COLON] + lead + value + trail, crlf);
    case Folded(value, trail, crlf) =>
      TrailerLine(value + trail, crlf);
  }

  function RawLines(lines: seq<H.Header>): seq<seq<byte>> {
    if lines == [] then [] else [RawLine(lines[0])] + RawLines(lines[1..])
  }

  /** A header block is a trailer section. */
  lemma {:induction false} BlockIsTrailer(lines: seq<H.Header>, crlf: bool, first: bool)
    requires H.ValidLines(lines, first)
    ensures ValidTrailer(RawLines(lines), CarriageReturn(crlf))
    ensures PrintTrailer(RawLines(lines), CarriageReturn(crlf)) == H.PrintBlock(lines, crlf)
    decreases |lines|
  {
    if lines != [] {
      RawLineIsPrinted(lines[0]);
      RawLineIsTrailer(lines[0], first);
      BlockIsTrailer(lines[1..], crlf, false);
      var raw := RawLines(lines);
      assert raw[1..] == RawLines(lines[1..]);
      forall i | 0 <= i < |raw| ensures NoLf(raw[i]) && !AllCr(raw[i]) {
        assert i > 0 ==> raw[i] == raw[1..][i - 1];
      }
    }
  }

  /** The message whose trailers were left, with its trailers. */
  lemma WithTrailer(m: Message, lines: seq<H.Header>, crlf: bool) returns (m': Message)
    requires ValidMessage(m, false) && H.ValidLines(lines, true)
    ensures ValidMessage(m', true) && m'.chunks == m.chunks
    ensures Print(m', true) == Print(m, false) + H.PrintBlock(lines, crlf)
  {
    BlockIsTrailer(lines, crlf, true);
    m' := m.(lines := RawLines(lines), blank := CarriageReturn(crlf));
  }

  lemma TrailerConsumed(s: seq<byte>, m: Message, block: seq<byte>, lines: seq<H.Header>, crlf: bool)
    requires ValidMessage(m, false) && s == Print(m, false) + block
    requires H.ValidLines(lines, true) && H.PrintBlock(lines, crlf) <= block
    ensures var r := Call(Zeroed(true), s);
            r.status == Ok(|block| - |H.PrintBlock(lines, crlf)|) && r.out == Payload(m.chunks)
  {
    hide Call, Print, Payload, H.PrintBlock, H.ValidLines, ValidMessage;
    var m' := WithTrailer(m, lines, crlf);
    var rest := block[|H.PrintBlock(lines, crlf)|..];
    assert Print(m, false) + (H.PrintBlock(lines, crlf) + rest) == Print(m', true) + rest;
    assert block == H.PrintBlock(lines, crlf) + rest;
    DecodesPrinted(m', true, rest);
  }

  /** If decoding completes and leaves bytes that parse as a header block of `k` bytes, at any
      capacity, then decoding that consumes trailers completes with the same payload and
      leaves `k` bytes less. */
  lemma TrailersAgree(s: seq<byte>, left: nat, max: nat)
    requires left <= |s| && Call(Zeroed(false), s).status == Ok(left)
    requires Head.ParseBlock(s[|s| - left..], max).res.Ok?
    ensures var r, k := Call(Zeroed(true), s), Head.ParseBlock(s[|s| - left..], max).res.value;
            k <= left && r.status == Ok(left - k) && r.out == Call(Zeroed(false), s).out
  {
    hide Call, Head.ParseBlock, Print, Payload, H.PrintBlock, H.ValidLines, ValidMessage, H.ReadBack, H.Meanings;
    var m := CompletedIsPrinted(s, false);
    var block := s[|s| - left..];
    var lines, crlf := H.ParsedIsPrinted(block, max);
    assert s == Print(m, false) + block;
    TrailerConsumed(s, m, block, lines, crlf);
  }

  // The other direction: which trailer sections are header blocks.

  /** A line without the carriage return at its end. */
  function Body(x: seq<byte>): seq<byte> {
    if x != [] && x[|x| - 1] == CR then x[..|x| - 1] else x
  }

  ghost predicate TextFrom(x: seq<byte>, v: nat) {
    forall i :: v <= i < |x| ==> Head.Accepts(Head.Text, x[i])
  }

  /** A token, and a colon behind it at `c`. */
  ghost predicate ColonAt(x: seq<byte>, c: nat) {
    0 < c < |x| && x[c] == COLON && forall i :: 0 <= i < c ==> Head.IsTchar(x[i])
  }

  ghost predicate NamedText(x: seq<byte>) {
    exists c: nat :: ColonAt(x, c) && TextFrom(x, c + 1)
  }

  ghost predicate FoldedText(x: seq<byte>) {
    x != [] && Head.IsBlank(x[0]) && TextFrom(x, 0)
  }

  /** A trailer line that reads as a header line: a token, a colon and text, or a leading blank
      and text when it is not the first, with at most one carriage return, at its end. */
  ghost predicate HeaderText(x: seq<byte>, first: bool) {
    NamedText(Body(x)) || (!first && FoldedText(Body(x)))
  }

  /** A line printed with its line feed. */
  function WithLf(x: seq<byte>): (s: seq<byte>)
    ensures |s| == |x| + 1 && s[|x|] == LF && forall i :: 0 <= i < |x| ==> s[i] == x[i]
  {
    x + [LF]
  }

  lemma BodyEnds(x: seq<byte>)
    ensures var e := |Body(x)|;
            && e <= |x| && (forall i :: 0 <= i < e ==> Body(x)[i] == x[i])
            && WithLf(x)[e] == (if e < |x| then CR else LF) && Head.Break(WithLf(x), e) == Ok(|x| + 1)
  {
  }

  /** The scan of a line reaches its line feed exactly when the body is text. */
  lemma EolOfBody(x: seq<byte>, v: nat)
    requires NoLf(x) && v <= |Body(x)|
    ensures var r := Head.ScanEol(WithLf(x), v); r.Ok? && r.value.1 == |x| + 1 <==> TextFrom(Body(x), v)
  {
    var full, e := WithLf(x), |Body(x)|;
    BodyEnds(x);
    if TextFrom(Body(x), v) {
      forall i | v <= i < e ensures Head.Accepts(Head.Text, full[i]) {
        assert Head.Accepts(Head.Text, Body(x)[i]);
      }
      Head.SkipIs(Head.Text, full, v, e);
    }
    var r := Head.ScanEol(full, v);
    if r.Ok? && r.value.1 == |x| + 1 {
      assert r.value.0 == e;
    }
  }

  lemma NamedReads(x: seq<byte>, c: nat, n: nat)
    requires NoLf(x) && ColonAt(Body(x), c) && TextFrom(Body(x), c + 1)
    ensures Head.NamedLine(WithLf(x), 0, n).res == Ok(|x| + 1)
  {
    hide Body, Head.Skip;
    var full := WithLf(x);
    BodyEnds(x);
    Head.SkipIs(Head.Token(COLON), full, 0, c);
    var v := Head.Skip(Head.Blanks, full, c + 1);
    EolOfBody(x, v);
    HeadPartial.NamedUnfold(full, 0, n);
  }

  lemma NamedIsText(x: seq<byte>, n: nat)
    requires NoLf(x) && Head.NamedLine(WithLf(x), 0, n).res == Ok(|x| + 1)
    ensures NamedText(Body(x))
  {
    hide Body, Head.Skip;
    var full := WithLf(x);
    BodyEnds(x);
    HeadPartial.NamedUnfold(full, 0, n);
    var c, v := Head.Skip(Head.Token(COLON), full, 0), Head.FieldName(full, 0).1.value;
    EolOfBody(x, v);
    forall i | c < i < |Body(x)| ensures Head.Accepts(Head.Text, Body(x)[i]) {
      assert i < v ==> Head.Accepts(Head.Blanks, full[i]);
    }
    assert ColonAt(Body(x), c) && TextFrom(Body(x), c + 1);
  }

  /** The byte test is what the header parser accepts as one line. */
  lemma LineReads(x: seq<byte>, n: nat)
    requires NoLf(x) && x != []
    ensures Head.HeaderLine(WithLf(x), 0, n).res == Ok(|x| + 1) <==> HeaderText(x, n == 0)
  {
    hide Head.Skip;
    BodyEnds(x);
    EolOfBody(x, 0);
    if c: nat :| ColonAt(Body(x), c) && TextFrom(Body(x), c + 1) {
      NamedReads(x, c, n);
      assert Head.IsTchar(Body(x)[0]);
    }
    if Head.NamedLine(WithLf(x), 0, n).res == Ok(|x| + 1) {
      NamedIsText(x, n);
    }
  }

  /** A line passes the byte test exactly when it is a header line without its line feed. */
  lemma HeaderFor(x: seq<byte>, first: bool) returns (h: H.Header)
    requires NoLf(x) && x != [] && HeaderText(x, first)
    ensures H.ValidLine(h, first) && RawLine(h) == x
  {
    hide H.At, H.LineAt, H.ValidLine, Head.HeaderLine, HeaderText, RawLine;
    var full, n := WithLf(x), if first then 0 else 1;
    LineReads(x, n);
    h := H.LineShape(full, 0, n);
    H.LineAtIsPrinted(full, 0, h);
    H.AtIsSlice(full, 0, H.PrintLine(h));
    RawLineIsPrinted(h);
    assert RawLine(h) == (RawLine(h) + [LF])[..|x|] == full[..|x|] == x;
  }

  lemma WithLfAt(x: seq<byte>, s: seq<byte>)
    requires x + [LF] == s
    ensures H.At(WithLf(x), 0, s) && |s| == |x| + 1
  {
    assert WithLf(x)[0..|s|] == s;
    H.AtIsSlice(WithLf(x), 0, s);
  }

  lemma HeaderReads(h: H.Header, first: bool)
    requires H.ValidLine(h, first)
    ensures HeaderText(RawLine(h), first)
  {
    hide H.At, H.LineAt, H.ValidLine, Head.HeaderLine, HeaderText, RawLine, WithLf, H.PrintLine;
    var x, n := RawLine(h), if first then 0 else 1;
    RawLineIsTrailer(h, first);
    RawLineIsPrinted(h);
    WithLfAt(x, H.PrintLine(h));
    H.LineAtIsPrinted(WithLf(x), 0, h);
    H.LineParses(WithLf(x), 0, h, n);
    LineReads(x, n);
  }

  ghost predicate HeaderTexts(lines: seq<seq<byte>>, first: bool) {
    forall i :: 0 <= i < |lines| ==> HeaderText(lines[i], first && i == 0)
  }

  lemma {:induction false} HeadersFor(lines: seq<seq<byte>>, first: bool) returns (hs: seq<H.Header>)
    requires HeaderTexts(lines, first) && forall i :: 0 <= i < |lines| ==> NoLf(lines[i]) && !AllCr(lines[i])
    ensures H.ValidLines(hs, first) && RawLines(hs) == lines
    decreases |lines|
  {
    if lines == [] {
      hs := [];
    } else {
      var h := HeaderFor(lines[0], first);
      var rest := lines[1..];
      forall i | 0 <= i < |rest| ensures HeaderText(rest[i], false) {
        assert rest[i] == lines[i + 1];
      }
      var tail := HeadersFor(rest, false);
      hs := [h] + tail;
      assert hs[1..] == tail;
      assert lines == [lines[0]] + rest;
    }
  }

  lemma {:induction false} HeadersRead(hs: seq<H.Header>, first: bool)
    requires H.ValidLines(hs, first)
    ensures |RawLines(hs)| == |hs| && HeaderTexts(RawLines(hs), first)
    decreases |hs|
  {
    if hs != [] {
      HeaderReads(hs[0], first);
      HeadersRead(hs[1..], false);
      var raw := RawLines(hs);
      forall i | 0 <= i < |raw| ensures HeaderText(raw[i], first && i == 0) {
        assert i > 0 ==> raw[i] == RawLines(hs[1..])[i - 1];
      }
    }
  }

  lemma FirstLf(a: seq<byte>, buf: seq<byte>)
    requires NoLf(a) && a + [LF] <= buf
    ensures |a| < |buf| && buf[|a|] == LF && (forall i :: 0 <= i < |a| ==> buf[i] != LF) && buf[..|a|] == a
  {
    assert (a + [LF])[|a|] == buf[|a|];
    forall i | 0 <= i < |a| ensures buf[i] == a[i] {
      assert (a + [LF])[i] == buf[i];
    }
  }

  lemma FirstLfUnique(a: seq<byte>, b: seq<byte>, buf: seq<byte>)
    requires NoLf(a) && NoLf(b) && a + [LF] <= buf && b + [LF] <= buf
    ensures a == b
  {
    FirstLf(a, buf);
    FirstLf(b, buf);
  }

  /** The first line of a trailer section, or its blank line, and what follows. */
  function Front(lines: seq<seq<byte>>, blank: seq<byte>): seq<byte> {
    if lines == [] then blank else lines[0]
  }

  lemma FrontFirst(lines: seq<seq<byte>>, blank: seq<byte>, buf: seq<byte>)
    requires ValidTrailer(lines, blank) && PrintTrailer(lines, blank) <= buf
    ensures var x := Front(lines, blank);
            && NoLf(x) && x + [LF] <= buf && (AllCr(x) <==> lines == [])
            && (lines != [] ==> PrintTrailer(lines[1..], blank) <= buf[|x| + 1..])
  {
    var x, s := Front(lines, blank), PrintTrailer(lines, blank);
    assert s[..|x| + 1] == x + [LF];
    assert buf[..|x| + 1] == s[..|x| + 1];
    if lines != [] {
      assert s[|x| + 1..] == PrintTrailer(lines[1..], blank);
      assert buf[..|s|][|x| + 1..] == buf[|x| + 1..][..|s| - |x| - 1];
    }
  }

  /** Input begins with one trailer section at most. */
  lemma {:induction false} TrailerUnique(lines: seq<seq<byte>>, blank: seq<byte>, lines': seq<seq<byte>>,
                                         blank': seq<byte>, buf: seq<byte>)
    requires ValidTrailer(lines, blank) && PrintTrailer(lines, blank) <= buf
    requires ValidTrailer(lines', blank') && PrintTrailer(lines', blank') <= buf
    ensures lines == lines' && blank == blank'
    decreases |lines|
  {
    FrontFirst(lines, blank, buf);
    FrontFirst(lines', blank', buf);
    FirstLfUnique(Front(lines, blank), Front(lines', blank'), buf);
    if lines != [] {
      TrailerUnique(lines[1..], blank, lines'[1..], blank', buf[|lines[0]| + 1..]);
      assert lines == [lines[0]] + lines[1..] && lines' == [lines'[0]] + lines'[1..];
    }
  }

  /** A trailer section is a header block the caller has room for exactly when its lines read
      as header lines and its blank line has at most one carriage return; it is then as long
      for the one parser as for the other. */
  lemma TrailerIsBlock(lines: seq<seq<byte>>, blank: seq<byte>, buf: seq<byte>, max: nat)
    requires ValidTrailer(lines, blank) && PrintTrailer(lines, blank) <= buf
    ensures Head.ParseBlock(buf, max).res.Ok? <==> |lines| <= max && |blank| <= 1 && HeaderTexts(lines, true)
    ensures Head.ParseBlock(buf, max).res.Ok? ==> Head.ParseBlock(buf, max).res == Ok(|PrintTrailer(lines, blank)|)
  {
    hide Head.ParseBlock, HeaderTexts;
    if Head.ParseBlock(buf, max).res.Ok? {
      var hs, crlf := H.ParsedIsPrinted(buf, max);
      BlockIsTrailer(hs, crlf, true);
      HeadersRead(hs, true);
      TrailerUnique(lines, blank, RawLines(hs), CarriageReturn(crlf), buf);
    }
    if |lines| <= max && |blank| <= 1 && HeaderTexts(lines, true) {
      var hs := HeadersFor(lines, true);
      var crlf := |blank| == 1;
      assert blank == CarriageReturn(crlf);
      HeadersRead(hs, true);
      BlockIsTrailer(hs, crlf, true);
      H.RoundTrip(hs, crlf, buf, max);
    }
  }

  /** The exact converse of `TrailersAgree`: when decoding that consumes trailers completes,
      decoding that leaves them completes with the same payload and leaves its trailer section
      in front of what the other leaves; and the header parser accepts that section exactly
      when it reads as header lines, and then takes all of it. */
  lemma ConsumedTrailers(s: seq<byte>, max: nat) returns (lines: seq<seq<byte>>, blank: seq<byte>)
    requires Call(Zeroed(true), s).status.Ok?
    ensures ValidTrailer(lines, blank)
    ensures var left := Call(Zeroed(true), s).status.value + |PrintTrailer(lines, blank)|;
            && left <= |s| && PrintTrailer(lines, blank) <= s[|s| - left..]
            && Call(Zeroed(false), s).status == Ok(left) && Call(Zeroed(false), s).out == Call(Zeroed(true), s).out
            && (Head.ParseBlock(s[|s| - left..], max).res.Ok? <==>
                |lines| <= max && |blank| <= 1 && HeaderTexts(lines, true))
            && (Head.ParseBlock(s[|s| - left..], max).res.Ok? ==>
                Head.ParseBlock(s[|s| - left..], max).res == Ok(|PrintTrailer(lines, blank)|))
  {
    hide Call, Head.ParseBlock, HeaderTexts, PrintTrailer, PrintChunks, PrintSize, Payload;
    var m := CompletedIsPrinted(s, true);
    lines, blank := m.lines, m.blank;
    var rest := s[|Print(m, true)|..];
    var block := PrintTrailer(lines, blank) + rest;
    assert s == Print(m, false) + block;
    DecodesPrinted(m, false, block);
    assert s[|s| - |block|..] == block;
    TrailerIsBlock(lines, blank, block, max);
  }

  lemma ZeroSize()
    ensures ValidSize([0x30], []) && HexValue([0x30]) == 0 && PrintSize([0x30], []) == [0x30, CR, LF]
  {
    assert [0x30][1..] == [] && [0x30] + [] + CRLF == [0x30, CR, LF];
  }

  /** A zero chunk and a trailer section: what the decoder does with it and without it. */
  lemma ZeroChunk(lines: seq<seq<byte>>, blank: seq<byte>)
    requires ValidTrailer(lines, blank)
    ensures var s := [0x30, CR, LF] + PrintTrailer(lines, blank);
            Call(Zeroed(false), s).status == Ok(|s| - 3) && Call(Zeroed(true), s).status == Ok(0)
  {
    hide Call, PrintTrailer, PrintSize;
    ZeroSize();
    var m, tail := Message([], [0x30], [], lines, blank), PrintTrailer(lines, blank);
    assert Print(m, false) == [0x30, CR, LF] && Print(m, true) == [0x30, CR, LF] + tail;
    assert Print(m, true) + [] == Print(m, true);
    DecodesPrinted(m, false, tail);
    DecodesPrinted(m, true, []);
  }

  /** The condition is not always met: not by a line without a colon, nor by a blank line with
      two carriage returns. */
  lemma TrailersAreLooser(max: nat)
    ensures var s := [0x30, CR, LF, 0x78, LF, LF];
            && Call(Zeroed(false), s).status == Ok(3) && Call(Zeroed(true), s).status == Ok(0)
            && Head.ParseBlock(s[3..], max).res == Err(Malformed)
    ensures var s := [0x30, CR, LF, CR, CR, LF];
            && Call(Zeroed(false), s).status == Ok(3) && Call(Zeroed(true), s).status == Ok(0)
            && Head.ParseBlock(s[3..], max).res == Err(Malformed)
  {
    hide Call;
    TrailerLine([0x78], false);
    assert [0x78] + [] == [0x78] && [[0x78]][1..] == [];
    ZeroChunk([[0x78]], []);
    ZeroChunk([], [CR, CR]);
    assert PrintTrailer([[0x78]], []) == [0x78, LF, LF] && PrintTrailer([], [CR, CR]) == [CR, CR, LF];
    assert [0x30, CR, LF] + [0x78, LF, LF] == [0x30, CR, LF, 0x78, LF, LF];
    assert [0x30, CR, LF] + [CR, CR, LF] == [0x30, CR, LF, CR, CR, LF];
    assert [0x30, CR, LF, 0x78, LF, LF][3..] == [0x78, LF, LF] && [0x30, CR, LF, CR, CR, LF][3..] == [CR, CR, LF];
    Head.SkipIs(Head.Token(COLON), [0x78, LF, LF], 0, 1);
  }
}
