/** The decoder with its three dispatch chains and single exit. */
module Chunked {
  import opened Bytes
  import opened ByteMachine
  import opened ChunkedSpec
  import opened ChunkedRecord

  function EndOf(err: Option<Error>): End {
    match err
    case None => Complete
    case Some(Partial) => NeedMore
    case Some(Malformed) => Reject
  }

  /** What every exit of the dispatch loop has established. */
  ghost predicate Finished(q0: Core, s: seq<byte>, t: bool, q: Core, src: nat, out: seq<byte>, err: Option<Error>) {
    Run(Delta(t), q0, s) == RunResult(q, out, src, EndOf(err))
  }

  /** The unread bytes are the ones received. */
  ghost predicate Unread(buf: array<byte>, s: seq<byte>, src: nat)
    reads buf
  {
    src <= |s| && buf.Length == |s| && forall i :: src <= i < |s| ==> buf[i] == s[i]
  }

  lemma CompactedUnread(buf: array<byte>, s: seq<byte>, out: seq<byte>, src: nat)
    requires Compacted(buf[..], s, out) && |out| <= src <= |s|
    ensures Unread(buf, s, src)
  {
    forall i | src <= i < |s| ensures buf[i] == s[i] {
      CompactedAt(buf[..], s, out, i);
    }
  }

  /** The digits of a chunk size. Stops before the byte that ends them, which is read
      again as the first byte of the extension. */
  method ReadSize(buf: array<byte>, left0: u64, hex0: nat, src0: nat, ghost t: bool, ghost q0: Core,
                  ghost s: seq<byte>, ghost out: seq<byte>)
    returns (stop: bool, err: Option<Error>, left: u64, hex: nat, src: nat)
    requires hex0 <= MAX_HEX && Unread(buf, s, src0)
    requires Reached(Delta(t), q0, s, Core(ST_SIZE, left0, hex0), src0, out)
    ensures hex <= MAX_HEX && src0 <= src <= |s|
    ensures stop ==> Finished(q0, s, t, Core(ST_SIZE, left, hex), src, out, err)
    ensures !stop ==>
              && src < |s| && Reached(Delta(t), q0, s, Core(ST_SIZE, left, hex), src, out)
              && Terminates(Core(ST_SIZE, left, hex), s[src], left, 0)
  {
    hide Run, Wrap;
    left, hex, src, err := left0, hex0, src0, None;
    while true
      invariant hex <= MAX_HEX && src0 <= src <= |s|
      invariant Reached(Delta(t), q0, s, Core(ST_SIZE, left, hex), src, out)
      decreases |s| - src
    {
      if src == buf.Length {
        OutOfInput(q0, s, t, Core(ST_SIZE, left, hex), src, out);
        return true, Some(Partial), left, hex, src;
      }
      AdvanceSize(q0, s, t, left, hex, src, out);
      match HexVal(buf[src]) {
        case None =>
          if hex == 0 {
            return true, Some(Malformed), left, hex, src;
          }
          if !SizeTerminator(buf[src]) {
            return true, Some(Malformed), left, hex, src;
          }
          return false, None, left, hex, src;
        case Some(v) =>
          if hex == MAX_HEX {
            return true, Some(Malformed), left, hex, src;
          }
          left := Wrap(Wrap(left * 16) + v);
          hex := hex + 1;
      }
      src := src + 1;
    }
  }

  /** The chunk extension, up to its carriage return. `pre` is the state before the byte
      at `src0`. */
  method SkipExtension(buf: array<byte>, src0: nat, ghost left: u64, ghost hex: nat,
                       ghost t: bool, ghost pre0: Core, ghost q0: Core, ghost s: seq<byte>, ghost out: seq<byte>)
    returns (stop: bool, err: Option<Error>, src: nat)
    requires Unread(buf, s, src0) && Reached(Delta(t), q0, s, pre0, src0, out)
    requires pre0 == Core(ST_EXT, left, hex) || (src0 < |s| && Terminates(pre0, s[src0], left, hex))
    ensures src0 <= src <= |s|
    ensures stop ==> Finished(q0, s, t, Core(ST_EXT, left, hex), src, out, err)
    ensures !stop ==> src0 < src && Reached(Delta(t), q0, s, Core(ST_EXPECT_LF, left, hex), src, out)
  {
    hide Run, Wrap;
    src := src0;
    ghost var pre := pre0;
    while true
      invariant src0 <= src <= |s|
      invariant Reached(Delta(t), q0, s, pre, src, out)
      invariant pre == Core(ST_EXT, left, hex) || (src < |s| && Terminates(pre, s[src], left, hex))
      decreases |s| - src
    {
      if src == buf.Length {
        OutOfInput(q0, s, t, pre, src, out);
        return true, Some(Partial), src;
      }
      AdvanceExt(q0, s, t, pre, left, hex, src, out);
      if buf[src] == CR {
        return false, None, src + 1;
      } else if buf[src] == LF {
        return true, Some(Malformed), src;
      }
      pre := Core(ST_EXT, left, hex);
      src := src + 1;
    }
  }

  /** Chain A: chunk size, extension, line feed. `stop` tells that the call ends here. */
  method SizeChain(buf: array<byte>, st0: State, left0: u64, hex0: nat, src0: nat, consumeTrailer: int,
                   ghost q0: Core, ghost s: seq<byte>, ghost out: seq<byte>)
    returns (stop: bool, err: Option<Error>, st: State, left: u64, hex: nat, src: nat)
    requires st0 == ST_SIZE || st0 == ST_EXT || st0 == ST_EXPECT_LF
    requires hex0 <= MAX_HEX && Unread(buf, s, src0)
    requires Reached(Delta(consumeTrailer != 0), q0, s, Core(st0, left0, hex0), src0, out)
    ensures hex <= MAX_HEX && src0 <= src <= |s|
    ensures stop ==> Finished(q0, s, consumeTrailer != 0, Core(st, left, hex), src, out, err)
    ensures !stop ==>
              && src0 < src
              && (st == ST_DATA ==> left > 0)
              && Reached(Delta(consumeTrailer != 0), q0, s, Core(st, left, hex), src, out)
  {
    hide Run, Wrap;
    ghost var t := consumeTrailer != 0;
    stop, err := true, None;
    st, left, hex, src := st0, left0, hex0, src0;
    ghost var pre := Core(st, left, hex);
    if st == ST_SIZE {
      stop, err, left, hex, src := ReadSize(buf, left, hex, src, t, q0, s, out);
      if stop {
        return;
      }
      pre := Core(st, left, hex);
      hex := 0;
      st := ST_EXT;
    }
    if st == ST_EXT {
      stop, err, src := SkipExtension(buf, src, left, hex, t, pre, q0, s, out);
      if stop {
        return;
      }
      st := ST_EXPECT_LF;
    }
    stop := true;
    if src == buf.Length {
      OutOfInput(q0, s, t, Core(st, left, hex), src, out);
      err := Some(Partial);
      return;
    }
    AdvanceExpectLf(q0, s, t, left, hex, src, out);
    if buf[src] != LF {
      err := Some(Malformed);
      return;
    }
    src := src + 1;
    if left == 0 {
      if consumeTrailer != 0 {
        st, stop := ST_TRAIL_HEAD, false;
      } else {
        err := None;
      }
      return;
    }
    st, stop := ST_DATA, false;
  }

  /** Payload: all of the chunk, or all that arrived of it. */
  method ReadData(buf: array<byte>, left0: u64, src0: nat, dst0: nat, ghost hex: nat,
                  ghost t: bool, ghost q0: Core, ghost s: seq<byte>, ghost out0: seq<byte>)
    returns (stop: bool, left: u64, src: nat, dst: nat, ghost out: seq<byte>)
    requires |out0| == dst0 <= src0 <= |s| && Compacted(buf[..], s, out0)
    requires Reached(Delta(t), q0, s, Normalize(Core(ST_DATA, left0, hex)), src0, out0)
    modifies buf
    ensures |out| == dst <= src && src0 <= src <= |s| && Compacted(buf[..], s, out)
    ensures stop ==> Finished(q0, s, t, Core(ST_DATA, left, hex), src, out, Some(Partial))
    ensures !stop ==> left == 0 && Reached(Delta(t), q0, s, Core(ST_DATA_CR, left, hex), src, out)
  {
    hide Run, Wrap;
    left, src, dst, out := left0, src0, dst0, out0;
    var avail := buf.Length - src;
    if avail < left {
      AdvanceData(q0, s, t, Core(ST_DATA, left, hex), src, out, avail);
      JoinPayload(buf, src, avail, dst, s, out);
      out := out + s[src..src + avail];
      src := src + avail;
      dst := dst + avail;
      left := left - avail;
      OutOfInput(q0, s, t, Core(ST_DATA, left, hex), src, out);
      return true, left, src, dst, out;
    }
    var n := left;
    AdvanceData(q0, s, t, Core(ST_DATA, left, hex), src, out, n);
    JoinPayload(buf, src, n, dst, s, out);
    out := out + s[src..src + n];
    src := src + n;
    dst := dst + n;
    left := 0;
    return false, left, src, dst, out;
  }

  /** The carriage return and line feed behind the payload. */
  method ReadDataEnd(buf: array<byte>, st0: State, src0: nat, ghost left: u64, ghost hex: nat,
                     ghost t: bool, ghost q0: Core, ghost s: seq<byte>, ghost out: seq<byte>)
    returns (stop: bool, err: Option<Error>, st: State, src: nat)
    requires st0 == ST_DATA_CR || st0 == ST_DATA_LF
    requires Unread(buf, s, src0) && Reached(Delta(t), q0, s, Core(st0, left, hex), src0, out)
    ensures src0 <= src <= |s|
    ensures stop ==> Finished(q0, s, t, Core(st, left, hex), src, out, err)
    ensures !stop ==> src0 < src && st == ST_SIZE && Reached(Delta(t), q0, s, Core(st, left, hex), src, out)
  {
    hide Run, Wrap;
    st, src := st0, src0;
    if st == ST_DATA_CR {
      if src == buf.Length {
        OutOfInput(q0, s, t, Core(st, left, hex), src, out);
        return true, Some(Partial), st, src;
      }
      AdvanceDataCr(q0, s, t, left, hex, src, out);
      if buf[src] != CR {
        return true, Some(Malformed), st, src;
      }
      src := src + 1;
      st := ST_DATA_LF;
    }
    if src == buf.Length {
      OutOfInput(q0, s, t, Core(st, left, hex), src, out);
      return true, Some(Partial), st, src;
    }
    AdvanceDataLf(q0, s, t, left, hex, src, out);
    if buf[src] != LF {
      return true, Some(Malformed), st, src;
    }
    return false, None, ST_SIZE, src + 1;
  }

  /** Chain B: payload, then the carriage return and line feed that end it. */
  method DataChain(buf: array<byte>, st0: State, left0: u64, src0: nat, dst0: nat, ghost hex: nat,
                   ghost t: bool, ghost q0: Core, ghost s: seq<byte>, ghost out0: seq<byte>)
    returns (stop: bool, err: Option<Error>, st: State, left: u64, src: nat, dst: nat, ghost out: seq<byte>)
    requires st0 == ST_DATA || st0 == ST_DATA_CR || st0 == ST_DATA_LF
    requires |out0| == dst0 <= src0 <= |s| && Compacted(buf[..], s, out0)
    requires Reached(Delta(t), q0, s, Normalize(Core(st0, left0, hex)), src0, out0)
    modifies buf
    ensures |out| == dst <= src && src0 <= src <= |s| && Compacted(buf[..], s, out)
    ensures stop ==> Finished(q0, s, t, Core(st, left, hex), src, out, err)
    ensures !stop ==> src0 < src && st == ST_SIZE && Reached(Delta(t), q0, s, Core(st, left, hex), src, out)
  {
    hide Run, Wrap;
    st, left, src, dst, out := st0, left0, src0, dst0, out0;
    if st == ST_DATA {
      stop, left, src, dst, out := ReadData(buf, left, src, dst, hex, t, q0, s, out);
      if stop {
        err := Some(Partial);
        return;
      }
      st := ST_DATA_CR;
    }
    CompactedUnread(buf, s, out, src);
    stop, err, st, src := ReadDataEnd(buf, st, src, left, hex, t, q0, s, out);
  }

  /** Chain C: trailer lines. */
  method TrailerChain(buf: array<byte>, st0: State, src0: nat,
                      ghost left: u64, ghost hex: nat, ghost t: bool, ghost q0: Core, ghost s: seq<byte>,
                      ghost out: seq<byte>)
    returns (stop: bool, err: Option<Error>, st: State, src: nat)
    requires st0 == ST_TRAIL_HEAD || st0 == ST_TRAIL_MID
    requires Unread(buf, s, src0)
    requires Reached(Delta(t), q0, s, Core(st0, left, hex), src0, out)
    ensures src0 <= src <= |s|
    ensures stop ==> Finished(q0, s, t, Core(st, left, hex), src, out, err)
    ensures !stop ==> src0 < src && st == ST_TRAIL_HEAD && Reached(Delta(t), q0, s, Core(st, left, hex), src, out)
  {
    hide Run, Wrap;
    stop, err := true, None;
    st, src := st0, src0;
    if st == ST_TRAIL_HEAD {
      while true
        invariant src0 <= src <= |s|
        invariant Reached(Delta(t), q0, s, Core(ST_TRAIL_HEAD, left, hex), src, out)
        decreases |s| - src
      {
        if src == buf.Length {
          OutOfInput(q0, s, t, Core(st, left, hex), src, out);
          err := Some(Partial);
          return;
        }
        AdvanceTrailHead(q0, s, t, left, hex, src, out);
        if buf[src] != CR {
          break;
        }
        src := src + 1;
      }
      var b := buf[src];
      src := src + 1;
      if b == LF {
        return;
      }
      st := ST_TRAIL_MID;
    }
    while true
      invariant src0 <= src <= |s|
      invariant Reached(Delta(t), q0, s, Core(ST_TRAIL_MID, left, hex), src, out)
      decreases |s| - src
    {
      if src == buf.Length {
        OutOfInput(q0, s, t, Core(st, left, hex), src, out);
        err := Some(Partial);
        return;
      }
      AdvanceTrailMid(q0, s, t, left, hex, src, out);
      if buf[src] == LF {
        break;
      }
      src := src + 1;
    }
    src := src + 1;
    st, stop := ST_TRAIL_HEAD, false;
  }

  /** The dispatch loop: runs the chains over the buffer, compacting payload to its front,
      until the input ends, the message completes or a byte is refused. */
  method Dispatch(buf: array<byte>, st0: State, left0: u64, hex0: nat, consumeTrailer: int)
    returns (err: Option<Error>, st: State, left: u64, hex: nat, src: nat, dst: nat, ghost out: seq<byte>)
    requires hex0 <= MAX_HEX
    modifies buf
    ensures hex <= MAX_HEX
    ensures Finished(Normalize(Core(st0, left0, hex0)), old(buf[..]), consumeTrailer != 0,
                     Core(st, left, hex), src, out, err)
    ensures |out| == dst <= src <= buf.Length
    ensures Compacted(buf[..], old(buf[..]), out)
  {
    hide Run, Wrap;
    dst, src, out := 0, 0, [];
    st, left, hex := st0, left0, hex0;
    ghost var s := buf[..];
    ghost var t := consumeTrailer != 0;
    ghost var q0 := Normalize(Core(st, left, hex));
    ReachedFirst(Delta(t), q0, s);
    while true
      invariant hex <= MAX_HEX
      invariant Reached(Delta(t), q0, s, Normalize(Core(st, left, hex)), src, out)
      invariant |out| == dst <= src <= |s|
      invariant Compacted(buf[..], s, out)
      decreases |s| - src
    {
      var stop;
      if st == ST_SIZE || st == ST_EXT || st == ST_EXPECT_LF {
        CompactedUnread(buf, s, out, src);
        stop, err, st, left, hex, src := SizeChain(buf, st, left, hex, src, consumeTrailer, q0, s, out);
      } else if st == ST_DATA || st == ST_DATA_CR || st == ST_DATA_LF {
        stop, err, st, left, src, dst, out := DataChain(buf, st, left, src, dst, hex, t, q0, s, out);
      } else {
        CompactedUnread(buf, s, out, src);
        stop, err, st, src := TrailerChain(buf, st, src, left, hex, t, q0, s, out);
      }
      if stop {
        return;
      }
    }
  }

  /** The single exit: publish the state, close the gap between payload and unread bytes,
      and apply the accounting rule to an incomplete call. */
  method Epilogue(dec: PhrChunkedDecoder, buf: array<byte>, err: Option<Error>, st: State, left: u64, hex: nat,
                  src: nat, dst: nat, ghost d: Dec, ghost s: seq<byte>, ghost out: seq<byte>)
    returns (status: Result<nat>)
    requires |out| == dst <= src <= |s| && Compacted(buf[..], s, out)
    requires dec.totalRead == Wrap(d.read + |s|) && dec.totalOverhead == d.overhead
    requires (dec.consumeTrailer != 0) == d.trailer
    modifies dec, buf
    ensures dec.consumeTrailer == old(dec.consumeTrailer) && dec.hexCount == hex
    ensures (dec.Model(), status) == Settle(d, |s|, Core(st, left, hex), src, dst, EndOf(err))
    ensures buf[..] == BufferAfter(s, out, src)
  {
    hide Wrap;
    var bufsz := buf.Length;
    dec.state := st;
    dec.bytesLeftInChunk := left;
    dec.hexCount := hex;
    CloseGap(buf, src, dst, s, out);
    match err {
      case None =>
        status := Ok(bufsz - src);
      case Some(Malformed) =>
        status := Err(Malformed);
      case Some(Partial) =>
        dec.totalOverhead := Wrap(dec.totalOverhead + (bufsz - dst));
        if dec.totalOverhead >= OVERHEAD_FLOOR && Wrap(dec.totalRead - dec.totalOverhead) < dec.totalRead / 4 {
          status := Err(Malformed);
        } else {
          status := Err(Partial);
        }
    }
  }

  /** Decode one call's worth of input in place. The record, the verdict, the payload
      length and the whole buffer are those of `Call`. */
  method DecodeChunked(dec: PhrChunkedDecoder, buf: array<byte>) returns (status: Result<nat>, decoded: nat)
    requires dec.Valid()
    modifies dec, buf
    ensures dec.Valid() && dec.consumeTrailer == old(dec.consumeTrailer)
    ensures var r := Call(old(dec.Model()), old(buf[..]));
            && dec.Model() == r.dec
            && status == r.status
            && decoded == |r.out|
            && buf[..] == BufferAfter(old(buf[..]), r.out, r.used)
  {
    hide Run;
    ghost var d, s := dec.Model(), buf[..];
    dec.totalRead := Wrap(dec.totalRead + buf.Length);
    var err, st, left, hex, src, dst, out :=
      Dispatch(buf, dec.state, dec.bytesLeftInChunk, dec.hexCount, dec.consumeTrailer);
    status := Epilogue(dec, buf, err, st, left, hex, src, dst, d, s, out);
    decoded := dst;
  }
}
