/** The caller-owned decoder record, common to both implementations. */
module ChunkedRecord {
  import opened Bytes
  import opened ChunkedSpec

  class PhrChunkedDecoder {
    var bytesLeftInChunk: u64
    var consumeTrailer: int
    var hexCount: nat
    var state: State
    var totalRead: u64
    var totalOverhead: u64

    /** The digit counter of every record a call can leave. */
    ghost predicate Valid()
      reads this
    {
      hexCount <= MAX_HEX
    }

    ghost function Model(): Dec
      reads this
    {
      Dec(Core(state, bytesLeftInChunk, hexCount), consumeTrailer != 0, totalRead, totalOverhead)
    }

    /** The zero-filled record every decoding starts from. */
    constructor (consumeTrailer: int)
      ensures Valid() && Model() == Dec(START, consumeTrailer != 0, 0, 0)
      ensures this.consumeTrailer == consumeTrailer
    {
      this.consumeTrailer := consumeTrailer;
      bytesLeftInChunk, hexCount, state, totalRead, totalOverhead := 0, 0, ST_SIZE, 0, 0;
    }

    /** Whether the next byte will be payload, whatever it is: for every record that a call
        which asked for more has left, and every other settled one. */
    method IsInData() returns (r: bool)
      ensures r <==> Model().core.st == ST_DATA
      ensures Settled(Model().core) ==> forall b: byte :: Call(Model(), [b]).out == if r then [b] else []
    {
      r := state == ST_DATA;
      if Settled(Model().core) {
        forall b: byte ensures Call(Model(), [b]).out == if state == ST_DATA then [b] else [] {
          NextByte(Model(), b);
        }
      }
    }
  }

  /** `b` with the `n` bytes at `src` written over those at `dst`. */
  function Moved(b: seq<byte>, src: nat, n: nat, dst: nat): seq<byte>
    requires dst <= src && src + n <= |b|
  {
    b[..dst] + b[src..src + n] + b[dst + n..]
  }

  /** `Moved` byte by byte. */
  lemma MovedAt(b: seq<byte>, b': seq<byte>, src: nat, n: nat, dst: nat)
    requires dst <= src && src + n <= |b| == |b'|
    requires forall i {:trigger b'[i]} :: 0 <= i < dst || dst + n <= i < |b| ==> b'[i] == b[i]
    requires forall i {:trigger b'[i]} :: dst <= i < dst + n ==> b'[i] == b[src + (i - dst)]
    ensures b' == Moved(b, src, n, dst)
  {
    var m, mid := Moved(b, src, n, dst), b[src..src + n];
    forall i | 0 <= i < |b| ensures m[i] == b'[i] {
      if i < dst {
        assert m[i] == b[..dst][i];
      } else if i < dst + n {
        assert m[i] == mid[i - dst];
        assert mid[i - dst] == b[src + (i - dst)];
      } else {
        assert m[i] == b[dst + n..][i - (dst + n)];
        assert b[dst + n..][i - (dst + n)] == b[i];
      }
    }
  }

  /** Move `n` bytes down within a buffer; source and target may overlap. */
  method CopyWithin(buf: array<byte>, src: nat, n: nat, dst: nat)
    requires dst <= src && src + n <= buf.Length
    modifies buf
    ensures buf[..] == Moved(old(buf[..]), src, n, dst)
  {
    hide Moved;
    forall i | 0 <= i < n {
      buf[dst + i] := buf[src + i];
    }
    MovedAt(old(buf[..]), buf[..], src, n, dst);
  }

  /** A buffer that received `s` and whose front now holds the payload `out`: everything
      behind the payload is still as received. */
  ghost predicate Compacted(b: seq<byte>, s: seq<byte>, out: seq<byte>) {
    |out| <= |s| && b == out + s[|out|..]
  }

  lemma CompactedAt(b: seq<byte>, s: seq<byte>, out: seq<byte>, i: nat)
    requires Compacted(b, s, out) && |out| <= i < |s|
    ensures |b| == |s| && b[i] == s[i]
  {
  }

  lemma CompactMore(b: seq<byte>, s: seq<byte>, out: seq<byte>, src: nat, n: nat)
    requires Compacted(b, s, out) && |out| <= src && src + n <= |s|
    ensures |b| == |s|
    ensures |out| + n <= |s| && Compacted(Moved(b, src, n, |out|), s, out + s[src..src + n])
    ensures |out| == src ==> Compacted(b, s, out + s[src..src + n])
  {
    assert b[src..src + n] == s[src..src + n];
    assert b[|out| + n..] == s[|out| + n..];
  }

  lemma CompactTail(b: seq<byte>, s: seq<byte>, out: seq<byte>, src: nat)
    requires Compacted(b, s, out) && |out| <= src <= |s|
    ensures |b| == |s|
    ensures Moved(b, src, |s| - src, |out|) == BufferAfter(s, out, src)
    ensures |out| == src ==> b == BufferAfter(s, out, src)
  {
  }

  /** Move `n` unread bytes down to join the payload, when there is a gap to close. */
  method JoinPayload(buf: array<byte>, src: nat, n: nat, dst: nat, ghost s: seq<byte>, ghost out: seq<byte>)
    requires Compacted(buf[..], s, out) && |out| == dst <= src && src + n <= |s|
    modifies buf
    ensures Compacted(buf[..], s, out + s[src..src + n])
  {
    hide Moved, Compacted;
    CompactMore(buf[..], s, out, src, n);
    if dst != src {
      CopyWithin(buf, src, n, dst);
    }
  }

  /** Close the gap between the payload and the unread bytes, when there is one. */
  method CloseGap(buf: array<byte>, src: nat, dst: nat, ghost s: seq<byte>, ghost out: seq<byte>)
    requires Compacted(buf[..], s, out) && |out| == dst <= src <= |s|
    modifies buf
    ensures buf[..] == BufferAfter(s, out, src)
  {
    hide BufferAfter, Moved, Compacted;
    CompactTail(buf[..], s, out, src);
    if dst != src {
      CopyWithin(buf, src, buf.Length - src, dst);
    }
  }
}
