/** The language of complete chunked messages: what a single call accepts, and only that. */
module ChunkedGrammar {
  import opened Bytes
  import opened ByteMachine
  import opened ChunkedSpec
  import opened ChunkedLedger
  import opened ChunkedDelivery

  /** One chunk: the digits of its size, its extension, its data. */
  datatype Chunk = Chunk(digits: seq<byte>, ext: seq<byte>, data: seq<byte>)

  /** A complete message: chunks, the zero size line, and the trailer section with its lines
      and the carriage returns of its blank line (used only when trailers are consumed). */
  datatype Message = Message(chunks: seq<Chunk>, lastDigits: seq<byte>, lastExt: seq<byte>, lines: seq<seq<byte>>,
                             blank: seq<byte>)

  const CRLF: seq<byte> := [0x0D, 0x0A]

  ghost predicate NoLineBreak(x: seq<byte>) {
    forall i :: 0 <= i < |x| ==> x[i] != 0x0D && x[i] != 0x0A
  }

  ghost predicate NoLf(x: seq<byte>) {
    forall i :: 0 <= i < |x| ==> x[i] != 0x0A
  }

  ghost predicate AllCr(x: seq<byte>) {
    forall i :: 0 <= i < |x| ==> x[i] == 0x0D
  }

  /** An extension is empty or starts with a space, a tab or a semicolon, and stays on its line. */
  ghost predicate ValidExt(ext: seq<byte>) {
    NoLineBreak(ext) && (ext != [] ==> ext[0] == 0x20 || ext[0] == 0x09 || ext[0] == 0x3B)
  }

  ghost predicate ValidSize(digits: seq<byte>, ext: seq<byte>) {
    1 <= |digits| <= 16 && AllHex(digits) && ValidExt(ext)
  }

  ghost predicate ValidChunk(c: Chunk) {
    ValidSize(c.digits, c.ext) && c.data != [] && HexValue(c.digits) == |c.data|
  }

  ghost predicate ValidTrailer(lines: seq<seq<byte>>, blank: seq<byte>) {
    AllCr(blank) && forall i :: 0 <= i < |lines| ==> NoLf(lines[i]) && !AllCr(lines[i])
  }

  ghost predicate ValidMessage(m: Message, trailer: bool) {
    && (forall i :: 0 <= i < |m.chunks| ==> ValidChunk(m.chunks[i]))
    && ValidSize(m.lastDigits, m.lastExt) && HexValue(m.lastDigits) == 0
    && (trailer ==> ValidTrailer(m.lines, m.blank))
  }

  function PrintSize(digits: seq<byte>, ext: seq<byte>): seq<byte> {
    digits + ext + CRLF
  }

  function PrintChunk(c: Chunk): seq<byte> {
    PrintSize(c.digits, c.ext) + c.data + CRLF
  }

  function PrintChunks(cs: seq<Chunk>): seq<byte> {
    if cs == [] then [] else PrintChunk(cs[0]) + PrintChunks(cs[1..])
  }

  function PrintTrailer(lines: seq<seq<byte>>, blank: seq<byte>): seq<byte> {
    if lines == [] then blank + [0x0A] else lines[0] + [0x0A] + PrintTrailer(lines[1..], blank)
  }

  function Print(m: Message, trailer: bool): seq<byte> {
    PrintChunks(m.chunks) + PrintSize(m.lastDigits, m.lastExt) + if trailer then PrintTrailer(m.lines, m.blank) else []
  }

  function Payload(cs: seq<Chunk>): seq<byte> {
    if cs == [] then [] else cs[0].data + Payload(cs[1..])
  }

  // Printed pieces drive the decoder where they should.

  lemma LeadsJoin(t: bool, q: Core, x: seq<byte>, q': Core, out: seq<byte>, x': seq<byte>, q'': Core, out': seq<byte>)
    requires Leads(Delta(t), q, x, q', out) && Leads(Delta(t), q', x', q'', out')
    ensures Leads(Delta(t), q, x + x', q'', out + out')
  {
    hide Run;
    LeadsThen(Delta(t), q, x, q', out, x');
  }

  lemma LeadsByte(t: bool, q: Core, b: byte)
    requires Step(q, b, t).Go?
    ensures Leads(Delta(t), q, [b], Step(q, b, t).next, Emit(Step(q, b, t).emit, b))
  {
    RunOne(Delta(t), q, b);
  }

  lemma DigitLeads(t: bool, left: u64, hex: nat, b: byte)
    requires left < Pow16(hex) && hex < MAX_HEX && HexVal(b).Some?
    ensures left * 16 + HexVal(b).value < Pow16(hex + 1) <= U64
    ensures Leads(Delta(t), Core(ST_SIZE, left, hex), [b], Core(ST_SIZE, left * 16 + HexVal(b).value, hex + 1), [])
  {
    hide Pow16, Run, Wrap;
    Pow16Word();
    Pow16Grows(hex + 1, 16);
    DigitNeverWraps(Core(ST_SIZE, left, hex), HexVal(b).value);
    LeadsByte(t, Core(ST_SIZE, left, hex), b);
  }

  lemma {:induction false} AccumulateBound(left: nat, hex: nat, d: seq<byte>)
    requires left < Pow16(hex) && hex + |d| <= MAX_HEX && AllHex(d)
    ensures Accumulate(left, d) < Pow16(hex + |d|) <= U64
    decreases |d|
  {
    hide Pow16;
    Pow16Word();
    Pow16Grows(hex + |d|, 16);
    if d != [] {
      Pow16Next(hex);
      AccumulateBound(left * 16 + HexVal(d[0]).value, hex + 1, d[1..]);
    }
  }

  lemma {:induction false} DigitsLead(t: bool, left: u64, hex: nat, d: seq<byte>)
    requires left < Pow16(hex) && hex + |d| <= MAX_HEX && AllHex(d)
    ensures Accumulate(left, d) < U64
    ensures Leads(Delta(t), Core(ST_SIZE, left, hex), d, Core(ST_SIZE, Accumulate(left, d), hex + |d|), [])
    decreases |d|
  {
    hide Pow16, Run, Wrap, Step;
    AccumulateBound(left, hex, d);
    LeadsNothing(Delta(t), Core(ST_SIZE, left, hex));
    if d != [] {
      var left', rest := left * 16 + HexVal(d[0]).value, d[1..];
      DigitLeads(t, left, hex, d[0]);
      assert Accumulate(left, d) == Accumulate(left', rest);
      DigitsLead(t, left', hex + 1, rest);
      LeadsJoin(t, Core(ST_SIZE, left, hex), [d[0]], Core(ST_SIZE, left', hex + 1), [], rest,
                Core(ST_SIZE, Accumulate(left', rest), hex + |d|), []);
      assert [d[0]] + rest == d;
    }
  }

  lemma {:induction false} ExtensionLeads(t: bool, left: u64, ext: seq<byte>)
    requires NoLineBreak(ext)
    ensures Leads(Delta(t), Core(ST_EXT, left, 0), ext, Core(ST_EXT, left, 0), [])
    decreases |ext|
  {
    hide Run;
    LeadsNothing(Delta(t), Core(ST_EXT, left, 0));
    if ext != [] {
      var q := Core(ST_EXT, left, 0);
      LeadsByte(t, q, ext[0]);
      ExtensionLeads(t, left, ext[1..]);
      LeadsJoin(t, q, [ext[0]], q, [], ext[1..], q, []);
      assert [ext[0]] + ext[1..] == ext;
    }
  }

  /** From a size with digits, the rest of its line up to the carriage return. */
  lemma SizeEndLeads(t: bool, left: u64, hex: nat, ext: seq<byte>)
    requires hex > 0 && ValidExt(ext)
    ensures Leads(Delta(t), Core(ST_SIZE, left, hex), ext + [CR], Core(ST_EXPECT_LF, left, 0), [])
  {
    hide Run;
    var q, e, f := Core(ST_SIZE, left, hex), Core(ST_EXT, left, 0), Core(ST_EXPECT_LF, left, 0);
    if ext == [] {
      LeadsByte(t, q, CR);
      assert ext + [CR] == [CR];
    } else {
      LeadsByte(t, q, ext[0]);
      ExtensionLeads(t, left, ext[1..]);
      LeadsByte(t, e, CR);
      LeadsJoin(t, q, [ext[0]], e, [], ext[1..], e, []);
      assert [ext[0]] + ext[1..] == ext;
      LeadsJoin(t, q, ext, e, [], [CR], f, []);
    }
  }

  lemma SizeLineLeads(t: bool, digits: seq<byte>, ext: seq<byte>)
    requires ValidSize(digits, ext)
    ensures HexValue(digits) < U64
    ensures Leads(Delta(t), START, digits + ext + [CR], Core(ST_EXPECT_LF, HexValue(digits), 0), [])
  {
    hide Run, Accumulate;
    DigitsLead(t, 0, 0, digits);
    SizeEndLeads(t, HexValue(digits), |digits|, ext);
    LeadsJoin(t, START, digits, Core(ST_SIZE, HexValue(digits), |digits|), [], ext + [CR],
              Core(ST_EXPECT_LF, HexValue(digits), 0), []);
    assert digits + (ext + [CR]) == digits + ext + [CR];
  }

  /** A nonzero size line leads to the data, the zero one to the trailers when they are consumed. */
  lemma SizeLeads(t: bool, digits: seq<byte>, ext: seq<byte>)
    requires ValidSize(digits, ext) && (HexValue(digits) > 0 || t)
    ensures HexValue(digits) < U64
    ensures Leads(Delta(t), START, PrintSize(digits, ext),
                  if HexValue(digits) > 0 then Core(ST_DATA, HexValue(digits), 0) else Core(ST_TRAIL_HEAD, 0, 0), [])
  {
    hide Run, Accumulate;
    SizeLineLeads(t, digits, ext);
    var q := Core(ST_EXPECT_LF, HexValue(digits), 0);
    LeadsByte(t, q, LF);
    LeadsJoin(t, START, digits + ext + [CR], q, [], [LF], Step(q, LF, t).next, []);
    assert digits + ext + [CR] + [LF] == PrintSize(digits, ext);
  }

  lemma DataEndLeads(t: bool)
    ensures Leads(Delta(t), Core(ST_DATA_CR, 0, 0), CRLF, START, [])
  {
    hide Run;
    LeadsByte(t, Core(ST_DATA_CR, 0, 0), CR);
    LeadsByte(t, Core(ST_DATA_LF, 0, 0), LF);
    LeadsJoin(t, Core(ST_DATA_CR, 0, 0), [CR], Core(ST_DATA_LF, 0, 0), [], [LF], START, []);
    assert [CR] + [LF] == CRLF;
  }

  lemma ChunkLeads(t: bool, c: Chunk)
    requires ValidChunk(c)
    ensures Leads(Delta(t), START, PrintChunk(c), START, c.data)
  {
    hide Run, PrintSize, Accumulate;
    var size := PrintSize(c.digits, c.ext);
    SizeLeads(t, c.digits, c.ext);
    var q, e := Core(ST_DATA, |c.data|, 0), Core(ST_DATA_CR, 0, 0);
    DataLeads(q, c.data, t);
    LeadsJoin(t, START, size, q, [], c.data, e, c.data);
    DataEndLeads(t);
    LeadsJoin(t, START, size + c.data, e, [] + c.data, CRLF, START, []);
    assert [] + c.data + [] == c.data;
  }

  lemma {:induction false} ChunksLead(t: bool, cs: seq<Chunk>)
    requires forall i :: 0 <= i < |cs| ==> ValidChunk(cs[i])
    ensures Leads(Delta(t), START, PrintChunks(cs), START, Payload(cs))
    decreases |cs|
  {
    hide Run, PrintChunk;
    LeadsNothing(Delta(t), START);
    if cs != [] {
      ChunkLeads(t, cs[0]);
      ChunksLead(t, cs[1..]);
      LeadsJoin(t, START, PrintChunk(cs[0]), START, cs[0].data, PrintChunks(cs[1..]), START, Payload(cs[1..]));
    }
  }

  const HEAD: Core := Core(ST_TRAIL_HEAD, 0, 0)
  const MID: Core := Core(ST_TRAIL_MID, 0, 0)

  lemma {:induction false} MidLineLeads(t: bool, x: seq<byte>)
    requires NoLf(x)
    ensures Leads(Delta(t), MID, x, MID, [])
    ensures Leads(Delta(t), MID, x + [LF], HEAD, [])
    decreases |x|
  {
    hide Run;
    LeadsNothing(Delta(t), MID);
    LeadsByte(t, MID, LF);
    if x == [] {
      assert x + [LF] == [LF];
    } else {
      LeadsByte(t, MID, x[0]);
      MidLineLeads(t, x[1..]);
      LeadsJoin(t, MID, [x[0]], MID, [], x[1..], MID, []);
      LeadsJoin(t, MID, [x[0]], MID, [], x[1..] + [LF], HEAD, []);
      assert [x[0]] + x[1..] == x && [x[0]] + (x[1..] + [LF]) == x + [LF];
    }
  }

  lemma {:induction false} CrsLead(t: bool, x: seq<byte>)
    requires AllCr(x)
    ensures Leads(Delta(t), HEAD, x, HEAD, [])
    decreases |x|
  {
    hide Run;
    LeadsNothing(Delta(t), HEAD);
    if x != [] {
      LeadsByte(t, HEAD, CR);
      CrsLead(t, x[1..]);
      LeadsJoin(t, HEAD, [CR], HEAD, [], x[1..], HEAD, []);
      assert [CR] + x[1..] == x;
    }
  }

  /** A trailer line, anything but carriage returns alone, leads back to the line head. */
  lemma {:induction false} LineLeads(t: bool, x: seq<byte>)
    requires NoLf(x) && !AllCr(x)
    ensures Leads(Delta(t), HEAD, x + [LF], HEAD, [])
    decreases |x|
  {
    hide Run;
    LeadsByte(t, HEAD, x[0]);
    if x[0] == CR {
      LineLeads(t, x[1..]);
      LeadsJoin(t, HEAD, [CR], HEAD, [], x[1..] + [LF], HEAD, []);
    } else {
      MidLineLeads(t, x[1..]);
      LeadsJoin(t, HEAD, [x[0]], MID, [], x[1..] + [LF], HEAD, []);
    }
    assert [x[0]] + (x[1..] + [LF]) == x + [LF];
  }

  lemma DoneAt(t: bool, q: Core, b: byte, rest: seq<byte>)
    requires Step(q, b, t).Done?
    ensures Run(Delta(t), q, [b] + rest) == RunResult(Step(q, b, t).next, [], 1, Complete)
  {
  }

  lemma {:induction false} TrailerCompletes(t: bool, lines: seq<seq<byte>>, blank: seq<byte>, rest: seq<byte>)
    requires ValidTrailer(lines, blank)
    ensures Run(Delta(t), HEAD, PrintTrailer(lines, blank) + rest) ==
              RunResult(HEAD, [], |PrintTrailer(lines, blank)|, Complete)
    decreases |lines|
  {
    hide Run;
    if lines == [] {
      CrsLead(t, blank);
      LeadsThen(Delta(t), HEAD, blank, HEAD, [], [LF] + rest);
      DoneAt(t, HEAD, LF, rest);
      assert PrintTrailer(lines, blank) + rest == blank + ([LF] + rest);
    } else {
      var line, tail := lines[0] + [LF], PrintTrailer(lines[1..], blank);
      LineLeads(t, lines[0]);
      TrailerCompletes(t, lines[1..], blank, rest);
      LeadsThen(Delta(t), HEAD, line, HEAD, [], tail + rest);
      assert PrintTrailer(lines, blank) + rest == line + (tail + rest);
    }
  }

  lemma ZeroSizeCompletes(digits: seq<byte>, ext: seq<byte>, rest: seq<byte>)
    requires ValidSize(digits, ext) && HexValue(digits) == 0
    ensures Run(Delta(false), START, PrintSize(digits, ext) + rest)
         == RunResult(Core(ST_EXPECT_LF, 0, 0), [], |PrintSize(digits, ext)|, Complete)
  {
    hide Run, Accumulate;
    SizeLineLeads(false, digits, ext);
    var line, q := digits + ext + [CR], Core(ST_EXPECT_LF, 0, 0);
    LeadsThen(Delta(false), START, line, q, [], [LF] + rest);
    DoneAt(false, q, LF, rest);
    assert PrintSize(digits, ext) + rest == line + ([LF] + rest);
  }

  /** What follows the last chunk. */
  function PrintEnd(m: Message, t: bool): seq<byte> {
    PrintSize(m.lastDigits, m.lastExt) + if t then PrintTrailer(m.lines, m.blank) else []
  }

  lemma EndCompletes(m: Message, t: bool, rest: seq<byte>)
    requires ValidMessage(m, t)
    ensures var r := Run(Delta(t), START, PrintEnd(m, t) + rest);
            r.end.Complete? && r.out == [] && r.used == |PrintEnd(m, t)|
  {
    hide Run, PrintSize, PrintTrailer, Accumulate;
    var size := PrintSize(m.lastDigits, m.lastExt);
    if t {
      var tail := PrintTrailer(m.lines, m.blank);
      SizeLeads(t, m.lastDigits, m.lastExt);
      TrailerCompletes(t, m.lines, m.blank, rest);
      LeadsThen(Delta(t), START, size, HEAD, [], tail + rest);
      assert PrintEnd(m, t) + rest == size + (tail + rest);
    } else {
      ZeroSizeCompletes(m.lastDigits, m.lastExt, rest);
      assert PrintEnd(m, t) == size;
    }
  }

  /** Decoding inverts printing: whatever follows a printed message is left over, and the
      payload is the data of its chunks. */
  lemma DecodesPrinted(m: Message, t: bool, rest: seq<byte>)
    requires ValidMessage(m, t)
    ensures var r := Call(Zeroed(t), Print(m, t) + rest);
            && r.status == Ok(|rest|) && r.out == Payload(m.chunks) && r.used == |Print(m, t)|
  {
    hide Run, PrintChunks, PrintSize, PrintTrailer, Payload, Accumulate;
    var front := PrintChunks(m.chunks);
    ChunksLead(t, m.chunks);
    EndCompletes(m, t, rest);
    LeadsThen(Delta(t), START, front, START, Payload(m.chunks), PrintEnd(m, t) + rest);
    assert Print(m, t) == front + PrintEnd(m, t);
    assert Print(m, t) + rest == front + (PrintEnd(m, t) + rest);
  }

  // Completed messages have the printed shape.

  /** Completing from `q` means completing from where a leading piece ends. */
  lemma CompletesAfter(t: bool, q: Core, x: seq<byte>, q': Core, out: seq<byte>, y: seq<byte>)
    requires Leads(Delta(t), q, x, q', out)
    ensures Run(Delta(t), q, x + y).end == Run(Delta(t), q', y).end
  {
    hide Run;
    LeadsThen(Delta(t), q, x, q', out, y);
  }

  ghost predicate Completes(t: bool, q: Core, s: seq<byte>) {
    Run(Delta(t), q, s).end.Complete?
  }

  lemma CompletesNonempty(t: bool, q: Core, s: seq<byte>)
    requires Completes(t, q, s)
    ensures s != []
  {
  }

  lemma CompletesStep(t: bool, q: Core, s: seq<byte>)
    requires Completes(t, q, s)
    ensures s != [] && !Step(q, s[0], t).Fail?
    ensures Step(q, s[0], t).Go? ==> Completes(t, Step(q, s[0], t).next, s[1..])
  {
  }

  lemma {:induction false} ExtensionShape(t: bool, left: u64, s: seq<byte>) returns (ext: seq<byte>, rest: seq<byte>)
    requires Completes(t, Core(ST_EXT, left, 0), s)
    ensures NoLineBreak(ext) && s == ext + CRLF + rest
    decreases |s|
  {
    hide Run;
    CompletesStep(t, Core(ST_EXT, left, 0), s);
    if s[0] == CR {
      CompletesStep(t, Core(ST_EXPECT_LF, left, 0), s[1..]);
      ext, rest := [], s[2..];
    } else {
      ext, rest := ExtensionShape(t, left, s[1..]);
      ext := [s[0]] + ext;
    }
  }

  lemma SizeEndShape(t: bool, left: u64, hex: nat, s: seq<byte>) returns (ext: seq<byte>, rest: seq<byte>)
    requires Completes(t, Core(ST_SIZE, left, hex), s) && HexVal(s[0]).None?
    ensures hex > 0 && ValidExt(ext) && s == ext + CRLF + rest
  {
    CompletesNonempty(t, Core(ST_SIZE, left, hex), s);
    assert Step(Core(ST_SIZE, left, hex), s[0], t) == Step(Core(ST_EXT, left, 0), s[0], t);
    ext, rest := ExtensionShape(t, left, s);
  }

  lemma SizeDigitShape(t: bool, left: u64, hex: nat, s: seq<byte>)
    requires left < Pow16(hex) && hex <= MAX_HEX && Completes(t, Core(ST_SIZE, left, hex), s) && HexVal(s[0]).Some?
    ensures hex < MAX_HEX && left * 16 + HexVal(s[0]).value < Pow16(hex + 1) <= U64
    ensures Completes(t, Core(ST_SIZE, left * 16 + HexVal(s[0]).value, hex + 1), s[1..])
  {
    hide Run, Pow16, Wrap;
    var q := Core(ST_SIZE, left, hex);
    CompletesStep(t, q, s);
    DigitNeverWraps(q, HexVal(s[0]).value);
    Pow16Word();
    Pow16Grows(hex + 1, 16);
  }

  lemma {:induction false} SizeShape(t: bool, left: u64, hex: nat, s: seq<byte>)
    returns (digits: seq<byte>, ext: seq<byte>, rest: seq<byte>)
    requires left < Pow16(hex) && hex <= MAX_HEX && Completes(t, Core(ST_SIZE, left, hex), s)
    ensures 1 <= hex + |digits| <= MAX_HEX && AllHex(digits) && ValidExt(ext)
    ensures s == PrintSize(digits, ext) + rest
    decreases |s|
  {
    hide Run, Pow16, Step;
    CompletesNonempty(t, Core(ST_SIZE, left, hex), s);
    var b, tail := s[0], s[1..];
    assert s == [b] + tail;
    if HexVal(b).Some? {
      SizeDigitShape(t, left, hex, s);
      var digits';
      digits', ext, rest := SizeShape(t, left * 16 + HexVal(b).value, hex + 1, tail);
      assert [b] + digits' + ext == [b] + (digits' + ext);
      digits := [b] + digits';
    } else {
      ext, rest := SizeEndShape(t, left, hex, s);
      digits := [];
      assert [] + ext == ext;
    }
  }

  lemma {:induction false} WithoutLfNoEnd(t: bool, q: Core, s: seq<byte>)
    requires (q == HEAD || q == MID) && NoLf(s)
    ensures !Completes(t, q, s)
    decreases |s|
  {
    if s != [] {
      WithoutLfNoEnd(t, Step(q, s[0], t).next, s[1..]);
    }
  }

  lemma {:induction false} FirstLine(s: seq<byte>) returns (line: seq<byte>, rest: seq<byte>)
    requires !NoLf(s)
    ensures NoLf(line) && s == line + [LF] + rest
    decreases |s|
  {
    if s[0] == LF {
      line, rest := [], s[1..];
    } else {
      line, rest := FirstLine(s[1..]);
      line := [s[0]] + line;
    }
  }

  lemma {:induction false} TrailerShape(t: bool, s: seq<byte>)
    returns (lines: seq<seq<byte>>, blank: seq<byte>, rest: seq<byte>)
    requires Completes(t, HEAD, s)
    ensures ValidTrailer(lines, blank) && s == PrintTrailer(lines, blank) + rest
    decreases |s|
  {
    hide Run;
    if NoLf(s) {
      WithoutLfNoEnd(t, HEAD, s);
    }
    blank, rest := FirstLine(s);
    lines := [];
    if !AllCr(blank) {
      var line := blank;
      LineLeads(t, line);
      CompletesAfter(t, HEAD, line + [LF], HEAD, [], rest);
      var tail := rest;
      lines, blank, rest := TrailerShape(t, tail);
      lines := [line] + lines;
      assert s == line + [LF] + (PrintTrailer(lines[1..], blank) + rest);
    }
  }

  lemma DataShape(t: bool, left: u64, s: seq<byte>) returns (data: seq<byte>, rest: seq<byte>)
    requires left > 0 && Completes(t, Core(ST_DATA, left, 0), s)
    ensures |data| == left && s == data + CRLF + rest
  {
    hide Run;
    var q, e := Core(ST_DATA, left, 0), Core(ST_DATA_CR, 0, 0);
    if |s| < left {
      DataLeads(q, s, t);
    }
    data, rest := s[..left], s[left..];
    assert s == data + rest;
    DataLeads(q, data, t);
    CompletesAfter(t, q, data, e, data, rest);
    CompletesStep(t, e, rest);
    CompletesStep(t, Core(ST_DATA_LF, 0, 0), rest[1..]);
    rest := rest[2..];
    assert s == data + CRLF + rest;
  }

  /** Behind a valid size line: the rest of a chunk, then more of the message. */
  lemma ChunkShape(t: bool, digits: seq<byte>, ext: seq<byte>, tail: seq<byte>) returns (c: Chunk, rest: seq<byte>)
    requires ValidSize(digits, ext) && HexValue(digits) > 0
    requires Completes(t, START, PrintSize(digits, ext) + tail)
    ensures ValidChunk(c) && PrintSize(digits, ext) + tail == PrintChunk(c) + rest && |PrintChunk(c)| > 0
    ensures Completes(t, START, rest)
  {
    hide Run, Accumulate, PrintSize;
    SizeLeads(t, digits, ext);
    CompletesAfter(t, START, PrintSize(digits, ext), Core(ST_DATA, HexValue(digits), 0), [], tail);
    var data;
    data, rest := DataShape(t, HexValue(digits), tail);
    c := Chunk(digits, ext, data);
    assert PrintSize(digits, ext) + tail == PrintChunk(c) + rest;
    ChunkLeads(t, c);
    CompletesAfter(t, START, PrintChunk(c), START, data, rest);
  }

  lemma PrintAlone(m: Message, t: bool)
    requires m.chunks == []
    ensures Print(m, t) == PrintEnd(m, t)
  {
    hide PrintSize, PrintTrailer;
    assert [] + PrintSize(m.lastDigits, m.lastExt) == PrintSize(m.lastDigits, m.lastExt);
  }

  lemma Joined(x: seq<byte>, y: seq<byte>, z: seq<byte>)
    ensures x + (y + z) == (x + y) + z
  {
  }

  /** Behind a zero size line: the trailers, when they are consumed. */
  lemma EndShape(t: bool, digits: seq<byte>, ext: seq<byte>, tail: seq<byte>) returns (m: Message, rest: seq<byte>)
    requires ValidSize(digits, ext) && HexValue(digits) == 0
    requires Completes(t, START, PrintSize(digits, ext) + tail)
    ensures ValidMessage(m, t) && PrintSize(digits, ext) + tail == Print(m, t) + rest
  {
    hide Run, Accumulate, PrintSize, PrintTrailer;
    if t {
      SizeLeads(t, digits, ext);
      CompletesAfter(t, START, PrintSize(digits, ext), HEAD, [], tail);
      var lines, blank;
      lines, blank, rest := TrailerShape(t, tail);
      m := Message([], digits, ext, lines, blank);
      Joined(PrintSize(digits, ext), PrintTrailer(lines, blank), rest);
    } else {
      m, rest := Message([], digits, ext, [], []), tail;
      assert PrintSize(digits, ext) + [] == PrintSize(digits, ext);
    }
    PrintAlone(m, t);
  }

  lemma PrintPrepend(c: Chunk, m: Message, t: bool)
    ensures Print(m.(chunks := [c] + m.chunks), t) == PrintChunk(c) + Print(m, t)
    ensures ValidChunk(c) && ValidMessage(m, t) ==> ValidMessage(m.(chunks := [c] + m.chunks), t)
  {
    hide PrintChunk, PrintSize, PrintTrailer, ValidChunk, ValidSize, ValidTrailer;
    assert ([c] + m.chunks)[1..] == m.chunks;
    Joined(PrintChunk(c), PrintChunks(m.chunks), PrintSize(m.lastDigits, m.lastExt));
    Joined(PrintChunk(c), PrintChunks(m.chunks) + PrintSize(m.lastDigits, m.lastExt),
           if t then PrintTrailer(m.lines, m.blank) else []);
  }

  lemma {:induction false} MessageShape(t: bool, s: seq<byte>) returns (m: Message, rest: seq<byte>)
    requires Completes(t, START, s)
    ensures ValidMessage(m, t) && s == Print(m, t) + rest
    decreases |s|
  {
    hide Run, PrintSize, PrintChunk, Print, ValidMessage;
    var digits, ext, tail := SizeShape(t, 0, 0, s);
    if HexValue(digits) > 0 {
      var c, tail' := ChunkShape(t, digits, ext, tail);
      m, rest := MessageShape(t, tail');
      PrintPrepend(c, m, t);
      Joined(PrintChunk(c), Print(m, t), rest);
      m := m.(chunks := [c] + m.chunks);
    } else {
      m, rest := EndShape(t, digits, ext, tail);
    }
  }

  /** Soundness: whatever a call from a zeroed record completes on is a printed message, the
      verdict counts what follows it and the payload is its data. */
  lemma CompletedIsPrinted(s: seq<byte>, t: bool) returns (m: Message)
    requires Call(Zeroed(t), s).status.Ok?
    ensures ValidMessage(m, t) && Print(m, t) <= s
    ensures Call(Zeroed(t), s).status == Ok(|s| - |Print(m, t)|) && Call(Zeroed(t), s).out == Payload(m.chunks)
  {
    hide Run;
    var rest;
    m, rest := MessageShape(t, s);
    DecodesPrinted(m, t, rest);
  }

  /** The language: a call from a zeroed record completes exactly on the inputs that begin
      with a printed message. */
  lemma Language(s: seq<byte>, t: bool)
    ensures Call(Zeroed(t), s).status.Ok? <==> exists m: Message :: ValidMessage(m, t) && Print(m, t) <= s
  {
    hide Call, ValidMessage;
    if Call(Zeroed(t), s).status.Ok? {
      var m := CompletedIsPrinted(s, t);
    }
    if m: Message :| ValidMessage(m, t) && Print(m, t) <= s {
      var rest := s[|Print(m, t)|..];
      assert s == Print(m, t) + rest;
      DecodesPrinted(m, t, rest);
    }
  }

  // An unfinished message can always still be finished.

  lemma FinishAfter(t: bool, q: Core, x: seq<byte>, q': Core, out: seq<byte>, y: seq<byte>)
    requires Leads(Delta(t), q, x, q', out) && Completes(t, q', y)
    ensures Completes(t, q, x + y)
  {
    hide Run;
    CompletesAfter(t, q, x, q', out, y);
  }

  lemma FinishTrailer(t: bool, q: Core) returns (ext: seq<byte>)
    requires q == HEAD || q == MID
    ensures Completes(t, q, ext)
  {
    hide Run;
    DoneAt(t, HEAD, LF, []);
    ext := [LF] + [];
    if q == MID {
      LeadsByte(t, MID, LF);
      FinishAfter(t, MID, [LF], HEAD, [], ext);
      ext := [LF] + ext;
    }
  }

  lemma FinishStart(t: bool) returns (ext: seq<byte>)
    ensures Completes(t, START, ext)
  {
    var m := Message([], [0x30], [], [], []);
    assert HexValue([0x30]) == 0 by {
      assert [0x30][1..] == [];
    }
    EndCompletes(m, t, []);
    ext := PrintEnd(m, t) + [];
  }

  lemma FinishData(t: bool, q: Core) returns (ext: seq<byte>)
    requires Sound(q) && ST_DATA <= q.st <= ST_DATA_LF
    ensures Completes(t, q, ext)
  {
    hide Run;
    ext := FinishStart(t);
    LeadsByte(t, Core(ST_DATA_LF, 0, 0), LF);
    FinishAfter(t, Core(ST_DATA_LF, 0, 0), [LF], START, [], ext);
    var atLf := [LF] + ext;
    DataEndLeads(t);
    FinishAfter(t, Core(ST_DATA_CR, 0, 0), CRLF, START, [], ext);
    var atCr := CRLF + ext;
    if q.st == ST_DATA {
      var data: seq<byte> := seq(q.left, _ => 0);
      DataLeads(q, data, t);
      FinishAfter(t, q, data, Core(ST_DATA_CR, 0, 0), data, atCr);
      ext := data + atCr;
    } else {
      ext := if q.st == ST_DATA_CR then atCr else atLf;
    }
  }

  lemma FinishSizeLine(t: bool, left: u64) returns (ext: seq<byte>)
    ensures Completes(t, Core(ST_EXPECT_LF, left, 0), ext)
  {
    hide Run;
    var q := Core(ST_EXPECT_LF, left, 0);
    if left == 0 && !t {
      DoneAt(t, q, LF, []);
      ext := [LF] + [];
    } else {
      LeadsByte(t, q, LF);
      if left > 0 {
        ext := FinishData(t, Core(ST_DATA, left, 0));
      } else {
        ext := FinishTrailer(t, HEAD);
      }
      FinishAfter(t, q, [LF], Step(q, LF, t).next, [], ext);
      ext := [LF] + ext;
    }
  }

  lemma Finish(t: bool, q: Core) returns (ext: seq<byte>)
    requires Sound(q)
    ensures Completes(t, q, ext)
  {
    hide Run;
    if q == START {
      ext := FinishStart(t);
    } else if q.st == ST_SIZE || q.st == ST_EXT {
      LeadsByte(t, q, CR);
      ext := FinishSizeLine(t, q.left);
      FinishAfter(t, q, [CR], Core(ST_EXPECT_LF, q.left, 0), [], ext);
      ext := [CR] + ext;
    } else if q.st == ST_EXPECT_LF {
      ext := FinishSizeLine(t, q.left);
    } else if q.st <= ST_DATA_LF {
      ext := FinishData(t, q);
    } else {
      ext := FinishTrailer(t, q);
    }
  }

  /** Asking for more is exact: the grammar wants more bytes precisely when the input is not
      complete and some continuation of it is. */
  lemma UnfinishedIsExact(s: seq<byte>, t: bool)
    ensures Unfinished(Zeroed(t), s) <==>
            !Call(Zeroed(t), s).status.Ok? && exists ext: seq<byte> :: Call(Zeroed(t), s + ext).status.Ok?
  {
    assert Sound(START);
    if Unfinished(Zeroed(t), s) {
      var q := Run(Delta(t), START, s).q;
      RunSound(START, s, t);
      var ext := Finish(t, q);
      RunSplit(Delta(t), START, s, ext);
      assert Call(Zeroed(t), s + ext).status.Ok?;
    } else {
      forall ext: seq<byte> ensures Run(Delta(t), START, s + ext) == Run(Delta(t), START, s) {
        RunSplit(Delta(t), START, s, ext);
      }
    }
  }
}
