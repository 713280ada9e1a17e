/** What a caller of the decoder sees, in bytes written out: encoding a payload and decoding it
    again, and the verdict, totals and state of any call. */
module ChunkedCaller {
  import opened Alphabet
  import opened Bytes
  import opened ByteMachine
  import opened ChunkedSpec
  import opened ChunkedLedger
  import opened ChunkedDelivery
  import opened ChunkedGrammar
  import opened ChunkedRecord
  import Chunked
  import ChunkedC

  // An encoder, which knows nothing of the decoder.

  function DigitFor(v: nat, upper: bool): byte
    requires v < 16
  {
    HexOfValue(v);
    (if upper then HEX_UPPER[v] else HEX_LOWER[v]) as byte
  }

  /** A number in hexadecimal. */
  function ToHex(n: nat, upper: bool): (s: seq<byte>)
    ensures |s| > 0
  {
    if n < 16 then [DigitFor(n, upper)] else ToHex(n / 16, upper) + [DigitFor(n % 16, upper)]
  }

  function EncodeChunk(data: seq<byte>, upper: bool): seq<byte> {
    ToHex(|data|, upper) + [13, 10] + data + [13, 10]
  }

  function EncodeChunks(pieces: seq<seq<byte>>, upper: bool): seq<byte> {
    if pieces == [] then [] else EncodeChunk(pieces[0], upper) + EncodeChunks(pieces[1..], upper)
  }

  /** The chunks, the last chunk, and the blank line that ends the trailers. */
  function Encode(pieces: seq<seq<byte>>, upper: bool, blank: bool): seq<byte> {
    EncodeChunks(pieces, upper) + [48, 13, 10] + if blank then [13, 10] else []
  }

  ghost predicate Sendable(pieces: seq<seq<byte>>) {
    forall i :: 0 <= i < |pieces| ==> 0 < |pieces[i]| < 18446744073709551616
  }

  lemma DigitReads(d: seq<byte>, v: nat, upper: bool)
    requires v < 16 && AllHex(d)
    ensures AllHex(d + [DigitFor(v, upper)]) && HexValue(d + [DigitFor(v, upper)]) == HexValue(d) * 16 + v
  {
    HexOfValue(v);
    AccumulateLast(0, d, DigitFor(v, upper));
  }

  lemma {:induction false} HexReads(n: nat, upper: bool)
    ensures AllHex(ToHex(n, upper)) && HexValue(ToHex(n, upper)) == n
  {
    if n < 16 {
      DigitReads([], n, upper);
      assert [] + [DigitFor(n, upper)] == [DigitFor(n, upper)];
    } else {
      HexReads(n / 16, upper);
      DigitReads(ToHex(n / 16, upper), n % 16, upper);
    }
  }

  lemma {:induction false} HexIsShort(n: nat, upper: bool, k: nat)
    requires k > 0 && n < Pow16(k)
    ensures |ToHex(n, upper)| <= k
    decreases k
  {
    if n >= 16 {
      Pow16Next(k - 1);
      assert k > 1;
      HexIsShort(n / 16, upper, k - 1);
    }
  }

  /** The decoder reads any size below 2^64 that was printed in hexadecimal, in either case. */
  lemma SizesReadBack(n: nat, upper: bool)
    requires n < 18446744073709551616
    ensures AllHex(ToHex(n, upper)) && 1 <= |ToHex(n, upper)| <= 16 && HexValue(ToHex(n, upper)) == n
  {
    HexReads(n, upper);
    Pow16Word();
    HexIsShort(n, upper, 16);
  }

  // Decoding inverts the encoder.

  function ChunkOf(data: seq<byte>, upper: bool): Chunk {
    Chunk(ToHex(|data|, upper), [], data)
  }

  function ChunksOf(pieces: seq<seq<byte>>, upper: bool): seq<Chunk> {
    if pieces == [] then [] else [ChunkOf(pieces[0], upper)] + ChunksOf(pieces[1..], upper)
  }

  function MessageOf(pieces: seq<seq<byte>>, upper: bool): Message {
    Message(ChunksOf(pieces, upper), [48], [], [], [13])
  }

  lemma ChunkIsEncoded(data: seq<byte>, upper: bool)
    requires 0 < |data| < 18446744073709551616
    ensures ValidChunk(ChunkOf(data, upper)) && PrintChunk(ChunkOf(data, upper)) == EncodeChunk(data, upper)
  {
    SizesReadBack(|data|, upper);
    assert ToHex(|data|, upper) + [] == ToHex(|data|, upper);
    Separators();
  }

  lemma {:induction false} ChunksAreEncoded(pieces: seq<seq<byte>>, upper: bool)
    requires Sendable(pieces)
    ensures var cs := ChunksOf(pieces, upper);
            && (forall i :: 0 <= i < |cs| ==> ValidChunk(cs[i]))
            && PrintChunks(cs) == EncodeChunks(pieces, upper) && Payload(cs) == Concat(pieces)
    decreases |pieces|
  {
    if pieces != [] {
      var c, tail := ChunkOf(pieces[0], upper), ChunksOf(pieces[1..], upper);
      ChunkIsEncoded(pieces[0], upper);
      assert Sendable(pieces[1..]) by {
        assert forall i :: 0 <= i < |pieces[1..]| ==> pieces[1..][i] == pieces[i + 1];
      }
      ChunksAreEncoded(pieces[1..], upper);
      assert ([c] + tail)[1..] == tail;
    }
  }

  lemma ZeroSizeIsEncoded()
    ensures ValidSize([48], []) && HexValue([48]) == 0 && PrintSize([48], []) == [48, 13, 10]
    ensures PrintTrailer([], [13]) == [13, 10] && ValidTrailer([], [13])
  {
    HexReads(0, false);
    Separators();
    assert DigitFor(0, false) == 48;
    assert [48] + [] + CRLF == [48, 13, 10];
  }

  lemma MessageIsEncoded(pieces: seq<seq<byte>>, upper: bool, blank: bool)
    requires Sendable(pieces)
    ensures var m := MessageOf(pieces, upper);
            && ValidMessage(m, blank) && Print(m, blank) == Encode(pieces, upper, blank)
            && Payload(m.chunks) == Concat(pieces)
  {
    ChunksAreEncoded(pieces, upper);
    Separators();
    ZeroSizeIsEncoded();
  }

  /** The main law: whatever pieces a sender encodes, in either letter case, one call on the
      encoding and anything behind it delivers the pieces and leaves exactly what is behind. */
  lemma DecodesEncoded(pieces: seq<seq<byte>>, upper: bool, blank: bool, rest: seq<byte>)
    requires Sendable(pieces)
    ensures var r := Call(Zeroed(blank), Encode(pieces, upper, blank) + rest);
            r.status == Ok(|rest|) && r.out == Concat(pieces) && r.used == |Encode(pieces, upper, blank)|
  {
    hide Call, Encode, Print, Payload, Concat;
    MessageIsEncoded(pieces, upper, blank);
    DecodesPrinted(MessageOf(pieces, upper), blank, rest);
  }

  // The verdict on any input.

  /** Some continuation of the input completes. */
  ghost predicate Completable(t: bool, s: seq<byte>) {
    exists ext: seq<byte> :: Call(Zeroed(t), s + ext).status.Ok?
  }

  /** The exact verdict of one call from a zeroed record: complete if and only if the input begins
      with a message, and otherwise refused if and only if nothing completes it or it is wasteful. */
  lemma CallVerdict(t: bool, s: seq<byte>)
    requires |s| < 18446744073709551616
    ensures var status := Call(Zeroed(t), s).status;
            && (status.Ok? <==> exists m: Message :: ValidMessage(m, t) && Print(m, t) <= s)
            && (status == Err(Malformed) <==> !status.Ok? && (!Completable(t, s) || Wasteful(t, s)))
            && (status == Err(Partial) <==> !status.Ok? && Completable(t, s) && !Wasteful(t, s))
  {
    hide Call, Print, ValidMessage, Unfinished, RuleFires;
    Language(s, t);
    UnfinishedIsExact(s, t);
    RuleExact(t, s);
    if Unfinished(Zeroed(t), s) {
      UnfinishedVerdict(Zeroed(t), s);
    } else {
      EndsAnyway(Zeroed(t), s, []);
    }
    match Call(Zeroed(t), s).status
    case Ok(_) =>
    case Err(Partial) =>
    case Err(Malformed) =>
  }

  lemma {:induction false} RejectsInside<Q>(m: Machine<Q>, q: Q, s: seq<byte>)
    requires Run(m, q, s).end.Reject?
    ensures Run(m, q, s).used < |s|
    decreases |s|
  {
    if m(q, s[0]).Go? {
      RejectsInside(m, m(q, s[0]).next, s[1..]);
    }
  }

  /** What comes before the refused byte only wants more, and has delivered the same. */
  lemma WantsBefore<Q>(m: Machine<Q>, q: Q, a: seq<byte>, b: seq<byte>)
    requires Run(m, q, a + b).end.Reject? && Run(m, q, a + b).used == |a|
    ensures Run(m, q, a).end.NeedMore? && Run(m, q, a).out == Run(m, q, a + b).out
  {
    hide Run;
    RunSplit(m, q, a, b);
    if Run(m, q, a).end.Reject? {
      RejectsInside(m, q, a);
    }
  }

  /** The refused byte decides. */
  lemma RejectsAt<Q>(m: Machine<Q>, q: Q, a: seq<byte>, b: seq<byte>)
    requires Run(m, q, a + b).end.Reject? && Run(m, q, a + b).used < |a|
    ensures Run(m, q, a).end.Reject?
  {
    hide Run;
    RunSplit(m, q, a, b);
  }

  /** A message refused for its framing is refused at the first byte that no message can have
      there; what was delivered before it stays delivered. */
  lemma RefusedAtOnce(t: bool, s: seq<byte>)
    requires Call(Zeroed(t), s).status == Err(Malformed) && !Completable(t, s)
    ensures var r := Call(Zeroed(t), s);
            && r.used < |s| && Completable(t, s[..r.used]) && !Completable(t, s[..r.used + 1])
            && r.out == Call(Zeroed(t), s[..r.used]).out
  {
    hide Run;
    var n := Call(Zeroed(t), s).used;
    UnfinishedIsExact(s, t);
    RejectsInside(Delta(t), START, s);
    assert s[..n] + s[n..] == s && s[..n + 1] + s[n + 1..] == s;
    WantsBefore(Delta(t), START, s[..n], s[n..]);
    RejectsAt(Delta(t), START, s[..n + 1], s[n + 1..]);
    UnfinishedIsExact(s[..n], t);
    UnfinishedIsExact(s[..n + 1], t);
  }

  lemma {:induction false} RejectsFrom(t: bool, q: Core, s: seq<byte>)
    requires Run(Delta(t), q, s).end.Reject?
    ensures var r := Run(Delta(t), q, s);
            && r.used < |s|
            && var before := Run(Delta(t), q, s[..r.used]).q;
               r.q == if before.st == 0 && before.hex != 0 && s[r.used] == 0x0A then Core(1, before.left, 0) else before
    decreases |s|
  {
    RejectsInside(Delta(t), q, s);
    if Delta(t)(q, s[0]).Go? {
      var n := Run(Delta(t), q, s).used;
      RejectsFrom(t, Delta(t)(q, s[0]).next, s[1..]);
      assert s[..n][1..] == s[1..][..n - 1];
    }
  }

  /** A call on any record, refused for its framing, leaves the state the bytes before the refused
      one lead to, except that a line feed first ends the size it follows. */
  lemma RefusedState(d: Dec, s: seq<byte>)
    requires Call(d, s).status == Err(Malformed) && !Unfinished(d, s)
    ensures var r := Call(d, s);
            && r.used < |s|
            && var before := Call(d, s[..r.used]).dec.core;
               r.dec.core ==
               if before.st == 0 && before.hex != 0 && s[r.used] == 0x0A then Core(1, before.left, 0) else before
  {
    hide Run;
    RejectsFrom(d.trailer, Normalize(d.core), s);
  }

  lemma {:induction false} CompletesIn(t: bool, q: Core, s: seq<byte>)
    requires Run(Delta(t), q, s).end.Complete? && Sound(q) && (!t ==> q.st < 6)
    ensures Run(Delta(t), q, s).q == Core(if t then 6 else 2, 0, 0)
    decreases |s|
  {
    hide Pow16;
    StepSound(q, s[0], t);
    if Delta(t)(q, s[0]).Go? {
      CompletesIn(t, Delta(t)(q, s[0]).next, s[1..]);
    }
  }

  /** A complete message leaves the decoder at the start of a trailer line, or in front of the line
      feed of its last size if trailers are left to the caller. */
  lemma CompletedState(t: bool, s: seq<byte>)
    requires Call(Zeroed(t), s).status.Ok?
    ensures Call(Zeroed(t), s).dec.core == Core(if t then 6 else 2, 0, 0)
  {
    hide Run;
    CompletesIn(t, START, s);
  }

  /** The totals after any call on any record, and the rule on them: everything given counts as
      read; if it was used up, everything not delivered counts as framing. */
  lemma TotalsOfCall(d: Dec, s: seq<byte>)
    ensures var r := Call(d, s);
            r.dec.read == (d.read + |s|) % 18446744073709551616 && r.dec.trailer == d.trailer
    ensures !Unfinished(d, s) ==> Call(d, s).dec.overhead == d.overhead
    ensures Unfinished(d, s) ==>
              var r := Call(d, s);
              && r.dec.overhead == (d.overhead + (|s| - |r.out|)) % 18446744073709551616
              && r.used == |s| && r.status.Err?
              && (r.status == Err(Malformed) <==>
                    && r.dec.overhead >= 102400
                    && (r.dec.read - r.dec.overhead) % 18446744073709551616 < r.dec.read / 4)
  {
    hide Run, Wrap;
    var r := Call(d, s);
    WrapIsModulo(d.read + |s|);
    WrapIsModulo(d.overhead + (|s| - |r.out|));
    WrapIsModulo(r.dec.read - r.dec.overhead);
  }

  // Both decoders.

  datatype Decoder = Rust | C

  /** `phr_decode_chunked` of either implementation. */
  method Decode(which: Decoder, dec: PhrChunkedDecoder, buf: array<byte>) returns (ret: int, decoded: nat)
    requires dec.Valid()
    modifies dec, buf
    ensures dec.Valid() && dec.consumeTrailer == old(dec.consumeTrailer)
    ensures var r := Call(old(dec.Model()), old(buf[..]));
            && dec.Model() == r.dec && ret == Code(r.status) && decoded == |r.out|
            && buf[..] == BufferAfter(old(buf[..]), r.out, r.used)
  {
    match which {
      case Rust =>
        var status;
        status, decoded := Chunked.DecodeChunked(dec, buf);
        ret := Code(status);
      case C => ret, decoded := ChunkedC.PhrDecodeChunked(dec, buf);
    }
  }

  lemma PayloadFits(d: Dec, s: seq<byte>)
    ensures |Call(d, s).out| <= Call(d, s).used <= |s|
  {
  }

  /** The buffer behind a message that was used up: its payload, and what followed the message. */
  lemma LeftInPlace(message: seq<byte>, rest: seq<byte>, out: seq<byte>, buf: seq<byte>)
    requires |out| <= |message| && buf == BufferAfter(message + rest, out, |message|)
    ensures |buf| == |message + rest| && buf[..|out|] == out && buf[|out|..|out| + |rest|] == rest
  {
    assert (message + rest)[|message|..] == rest;
  }

  /** What a sender encodes, whatever follows it in the buffer, a fresh decoder of either
      implementation decodes in place: the pieces stand at the front, what followed stands behind
      them, and the code is how much that is. */
  method DecodeSent(which: Decoder, consumeTrailer: int, buf: array<byte>, ghost pieces: seq<seq<byte>>,
                    ghost upper: bool, ghost rest: seq<byte>)
    returns (dec: PhrChunkedDecoder, ret: int, decoded: nat)
    requires Sendable(pieces) && buf[..] == Encode(pieces, upper, consumeTrailer != 0) + rest
    modifies buf
    ensures fresh(dec) && ret == |rest| && decoded == |Concat(pieces)|
    ensures decoded + |rest| <= buf.Length
    ensures buf[..decoded] == Concat(pieces) && buf[decoded..decoded + |rest|] == rest
    ensures dec.totalRead == buf.Length % 18446744073709551616 && dec.totalOverhead == 0
  {
    hide Call, Encode, Concat, BufferAfter, Unfinished, Sendable;
    dec := new PhrChunkedDecoder(consumeTrailer);
    ghost var s, message := buf[..], Encode(pieces, upper, consumeTrailer != 0);
    DecodesEncoded(pieces, upper, consumeTrailer != 0, rest);
    TotalsOfCall(Zeroed(consumeTrailer != 0), s);
    PayloadFits(Zeroed(consumeTrailer != 0), s);
    ret, decoded := Decode(which, dec, buf);
    LeftInPlace(message, rest, Concat(pieces), buf[..]);
  }
}
