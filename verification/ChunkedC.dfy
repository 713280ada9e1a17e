/** The C decoder: one `switch` whose cases fall through and update the record as they go. */
module ChunkedC {
  import opened Bytes
  import opened ByteMachine
  import opened ChunkedSpec
  import opened ChunkedRecord
  import Chunked

  /** How control leaves a case: into the next one, back to the `switch`, or to a label. */
  datatype Jump = Through | Again | ToExit | ToComplete

  /** The steering fields of the record. */
  ghost function CoreOf(dec: PhrChunkedDecoder): Core
    reads dec
  {
    Core(dec.state, dec.bytesLeftInChunk, dec.hexCount)
  }

  /** What holds when a case has been left with `ret` set. */
  ghost predicate Left(jump: Jump, ret: int, q0: Core, s: seq<byte>, t: bool, q: Core, src: nat, out: seq<byte>) {
    src <= |s| &&
    match jump
    case Through => Reached(Delta(t), q0, s, q, src, out)
    case Again => Reached(Delta(t), q0, s, q, src, out)
    case ToExit =>
      (ret == -1 && Run(Delta(t), q0, s) == RunResult(q, out, src, Reject)) ||
      (ret == -2 && Run(Delta(t), q0, s) == RunResult(q, out, src, NeedMore))
    case ToComplete => ret == -2 && Run(Delta(t), q0, s) == RunResult(q, out, src, Complete)
  }

  /** `case CHUNKED_IN_CHUNK_SIZE`. Falls through with the byte that ended the digits unread. */
  method CaseSize(dec: PhrChunkedDecoder, buf: array<byte>, src0: nat, ghost q0: Core, ghost s: seq<byte>,
                  ghost out: seq<byte>)
    returns (jump: Jump, ret: int, src: nat, ghost pre: Core)
    requires dec.Valid() && dec.state == ST_SIZE && Chunked.Unread(buf, s, src0)
    requires Reached(Delta(dec.consumeTrailer != 0), q0, s, CoreOf(dec), src0, out)
    modifies dec`bytesLeftInChunk, dec`hexCount, dec`state
    ensures dec.Valid() && src0 <= src
    ensures jump.Through? || jump.ToExit?
    ensures jump.ToExit? ==> Left(jump, ret, q0, s, dec.consumeTrailer != 0, CoreOf(dec), src, out)
    ensures jump.Through? ==>
              && ret == -2 && dec.state == ST_EXT && dec.hexCount == 0
              && src < |s| && Reached(Delta(dec.consumeTrailer != 0), q0, s, pre, src, out)
              && Terminates(pre, s[src], dec.bytesLeftInChunk, 0)
  {
    hide Run, Wrap;
    ghost var t := dec.consumeTrailer != 0;
    src, pre := src0, CoreOf(dec);
    while true
      invariant dec.Valid() && dec.state == ST_SIZE && src0 <= src <= |s|
      invariant Reached(Delta(t), q0, s, CoreOf(dec), src, out)
      decreases |s| - src
    {
      if src == buf.Length {
        OutOfInput(q0, s, t, CoreOf(dec), src, out);
        return ToExit, -2, src, pre;
      }
      AdvanceSize(q0, s, t, dec.bytesLeftInChunk, dec.hexCount, src, out);
      var v := HexVal(buf[src]);
      if v.None? {
        if dec.hexCount == 0 {
          return ToExit, -1, src, pre;
        }
        if !SizeTerminator(buf[src]) {
          return ToExit, -1, src, pre;
        }
        break;
      }
      if dec.hexCount == MAX_HEX {
        return ToExit, -1, src, pre;
      }
      dec.bytesLeftInChunk := Wrap(Wrap(dec.bytesLeftInChunk * 16) + v.value);
      dec.hexCount := dec.hexCount + 1;
      src := src + 1;
    }
    pre := CoreOf(dec);
    dec.hexCount := 0;
    dec.state := ST_EXT;
    return Through, -2, src, pre;
  }

  /** `case CHUNKED_IN_CHUNK_EXT`. */
  method CaseExt(dec: PhrChunkedDecoder, buf: array<byte>, src0: nat, ghost pre0: Core, ghost q0: Core,
                 ghost s: seq<byte>, ghost out: seq<byte>)
    returns (jump: Jump, ret: int, src: nat)
    requires dec.state == ST_EXT && Chunked.Unread(buf, s, src0)
    requires Reached(Delta(dec.consumeTrailer != 0), q0, s, pre0, src0, out)
    requires pre0 == CoreOf(dec) || (src0 < |s| && Terminates(pre0, s[src0], dec.bytesLeftInChunk, dec.hexCount))
    modifies dec`state
    ensures src0 <= src && Left(jump, ret, q0, s, dec.consumeTrailer != 0, CoreOf(dec), src, out)
    ensures jump.ToExit? || (jump.Through? && ret == -2 && dec.state == ST_EXPECT_LF)
  {
    hide Run, Wrap;
    ghost var t := dec.consumeTrailer != 0;
    src := src0;
    ghost var pre := pre0;
    while true
      invariant dec.state == ST_EXT && CoreOf(dec) == old(CoreOf(dec)) && src0 <= src <= |s|
      invariant Reached(Delta(t), q0, s, pre, src, out)
      invariant pre == CoreOf(dec) || (src < |s| && Terminates(pre, s[src], dec.bytesLeftInChunk, dec.hexCount))
      decreases |s| - src
    {
      if src == buf.Length {
        OutOfInput(q0, s, t, pre, src, out);
        return ToExit, -2, src;
      }
      AdvanceExt(q0, s, t, pre, dec.bytesLeftInChunk, dec.hexCount, src, out);
      if buf[src] == CR {
        break;
      } else if buf[src] == LF {
        return ToExit, -1, src;
      }
      pre := CoreOf(dec);
      src := src + 1;
    }
    dec.state := ST_EXPECT_LF;
    return Through, -2, src + 1;
  }

  /** `case CHUNKED_IN_CHUNK_HEADER_EXPECT_LF`. */
  method CaseExpectLf(dec: PhrChunkedDecoder, buf: array<byte>, src: nat, ghost q0: Core, ghost s: seq<byte>,
                      ghost out: seq<byte>)
    returns (jump: Jump, ret: int, src': nat)
    requires dec.state == ST_EXPECT_LF && Chunked.Unread(buf, s, src)
    requires Reached(Delta(dec.consumeTrailer != 0), q0, s, CoreOf(dec), src, out)
    modifies dec`state
    ensures src <= src' && Left(jump, ret, q0, s, dec.consumeTrailer != 0, CoreOf(dec), src', out)
    ensures jump.Through? ==> src < src' && ret == -2 && dec.state == ST_DATA && dec.bytesLeftInChunk > 0
    ensures jump.Again? ==> src < src' && ret == -2 && dec.state == ST_TRAIL_HEAD
  {
    hide Run, Wrap;
    ghost var t := dec.consumeTrailer != 0;
    if src == buf.Length {
      OutOfInput(q0, s, t, CoreOf(dec), src, out);
      return ToExit, -2, src;
    }
    AdvanceExpectLf(q0, s, t, dec.bytesLeftInChunk, dec.hexCount, src, out);
    if buf[src] != LF {
      return ToExit, -1, src;
    }
    if dec.bytesLeftInChunk == 0 {
      if dec.consumeTrailer != 0 {
        dec.state := ST_TRAIL_HEAD;
        return Again, -2, src + 1;
      } else {
        return ToComplete, -2, src + 1;
      }
    }
    dec.state := ST_DATA;
    return Through, -2, src + 1;
  }

  /** `case CHUNKED_IN_CHUNK_DATA`. */
  method CaseData(dec: PhrChunkedDecoder, buf: array<byte>, src0: nat, dst0: nat, ghost q0: Core, ghost s: seq<byte>,
                  ghost out0: seq<byte>)
    returns (jump: Jump, ret: int, src: nat, dst: nat, ghost out: seq<byte>)
    requires dec.state == ST_DATA && |out0| == dst0 <= src0 <= |s| && Compacted(buf[..], s, out0)
    requires Reached(Delta(dec.consumeTrailer != 0), q0, s, Normalize(CoreOf(dec)), src0, out0)
    modifies dec`bytesLeftInChunk, dec`state, buf
    ensures src0 <= src && |out| == dst <= src && Compacted(buf[..], s, out)
    ensures Left(jump, ret, q0, s, dec.consumeTrailer != 0, CoreOf(dec), src, out)
    ensures jump.ToExit? || (jump.Through? && ret == -2 && dec.state == ST_DATA_CR)
  {
    hide Run, Wrap;
    ghost var t, q := dec.consumeTrailer != 0, CoreOf(dec);
    src, dst, out := src0, dst0, out0;
    var avail := buf.Length - src;
    if avail < dec.bytesLeftInChunk {
      AdvanceData(q0, s, t, q, src, out, avail);
      JoinPayload(buf, src, avail, dst, s, out);
      out := out + s[src..src + avail];
      src := src + avail;
      dst := dst + avail;
      dec.bytesLeftInChunk := dec.bytesLeftInChunk - avail;
      OutOfInput(q0, s, t, q.(left := q.left - avail), src, out);
      return ToExit, -2, src, dst, out;
    }
    AdvanceData(q0, s, t, q, src, out, q.left);
    JoinPayload(buf, src, dec.bytesLeftInChunk, dst, s, out);
    out := out + s[src..src + dec.bytesLeftInChunk];
    src := src + dec.bytesLeftInChunk;
    dst := dst + dec.bytesLeftInChunk;
    dec.bytesLeftInChunk := 0;
    dec.state := ST_DATA_CR;
    return Through, -2, src, dst, out;
  }

  /** `case CHUNKED_IN_CHUNK_DATA_EXPECT_CR`. */
  method CaseDataCr(dec: PhrChunkedDecoder, buf: array<byte>, src: nat, ghost q0: Core, ghost s: seq<byte>,
                    ghost out: seq<byte>)
    returns (jump: Jump, ret: int, src': nat)
    requires dec.state == ST_DATA_CR && Chunked.Unread(buf, s, src)
    requires Reached(Delta(dec.consumeTrailer != 0), q0, s, CoreOf(dec), src, out)
    modifies dec`state
    ensures src <= src' && Left(jump, ret, q0, s, dec.consumeTrailer != 0, CoreOf(dec), src', out)
    ensures jump.ToExit? || (jump.Through? && ret == -2 && dec.state == ST_DATA_LF)
  {
    hide Run, Wrap;
    ghost var t := dec.consumeTrailer != 0;
    if src == buf.Length {
      OutOfInput(q0, s, t, CoreOf(dec), src, out);
      return ToExit, -2, src;
    }
    AdvanceDataCr(q0, s, t, dec.bytesLeftInChunk, dec.hexCount, src, out);
    if buf[src] != CR {
      return ToExit, -1, src;
    }
    dec.state := ST_DATA_LF;
    return Through, -2, src + 1;
  }

  /** `case CHUNKED_IN_CHUNK_DATA_EXPECT_LF`. */
  method CaseDataLf(dec: PhrChunkedDecoder, buf: array<byte>, src: nat, ghost q0: Core, ghost s: seq<byte>,
                    ghost out: seq<byte>)
    returns (jump: Jump, ret: int, src': nat)
    requires dec.state == ST_DATA_LF && Chunked.Unread(buf, s, src)
    requires Reached(Delta(dec.consumeTrailer != 0), q0, s, CoreOf(dec), src, out)
    modifies dec`state
    ensures src <= src' && Left(jump, ret, q0, s, dec.consumeTrailer != 0, CoreOf(dec), src', out)
    ensures jump.ToExit? || (jump.Again? && ret == -2 && src < src' && dec.state == ST_SIZE)
  {
    hide Run, Wrap;
    ghost var t := dec.consumeTrailer != 0;
    if src == buf.Length {
      OutOfInput(q0, s, t, CoreOf(dec), src, out);
      return ToExit, -2, src;
    }
    AdvanceDataLf(q0, s, t, dec.bytesLeftInChunk, dec.hexCount, src, out);
    if buf[src] != LF {
      return ToExit, -1, src;
    }
    dec.state := ST_SIZE;
    return Again, -2, src + 1;
  }

  /** `case CHUNKED_IN_TRAILERS_LINE_HEAD`. */
  method CaseTrailHead(dec: PhrChunkedDecoder, buf: array<byte>, src0: nat, ghost q0: Core, ghost s: seq<byte>,
                       ghost out: seq<byte>)
    returns (jump: Jump, ret: int, src: nat)
    requires dec.state == ST_TRAIL_HEAD && Chunked.Unread(buf, s, src0)
    requires Reached(Delta(dec.consumeTrailer != 0), q0, s, CoreOf(dec), src0, out)
    modifies dec`state
    ensures src0 <= src && Left(jump, ret, q0, s, dec.consumeTrailer != 0, CoreOf(dec), src, out)
    ensures jump.ToExit? || jump.ToComplete? || (jump.Through? && ret == -2 && dec.state == ST_TRAIL_MID)
  {
    hide Run, Wrap;
    ghost var t := dec.consumeTrailer != 0;
    src := src0;
    while true
      invariant dec.state == ST_TRAIL_HEAD && CoreOf(dec) == old(CoreOf(dec)) && src0 <= src <= |s|
      invariant Reached(Delta(t), q0, s, CoreOf(dec), src, out)
      decreases |s| - src
    {
      if src == buf.Length {
        OutOfInput(q0, s, t, CoreOf(dec), src, out);
        return ToExit, -2, src;
      }
      AdvanceTrailHead(q0, s, t, dec.bytesLeftInChunk, dec.hexCount, src, out);
      if buf[src] != CR {
        break;
      }
      src := src + 1;
    }
    src := src + 1;
    if buf[src - 1] == LF {
      return ToComplete, -2, src;
    }
    dec.state := ST_TRAIL_MID;
    return Through, -2, src;
  }

  /** `case CHUNKED_IN_TRAILERS_LINE_MIDDLE`. */
  method CaseTrailMid(dec: PhrChunkedDecoder, buf: array<byte>, src0: nat, ghost q0: Core, ghost s: seq<byte>,
                      ghost out: seq<byte>)
    returns (jump: Jump, ret: int, src: nat)
    requires dec.state == ST_TRAIL_MID && Chunked.Unread(buf, s, src0)
    requires Reached(Delta(dec.consumeTrailer != 0), q0, s, CoreOf(dec), src0, out)
    modifies dec`state
    ensures src0 <= src && Left(jump, ret, q0, s, dec.consumeTrailer != 0, CoreOf(dec), src, out)
    ensures jump.ToExit? || (jump.Again? && ret == -2 && src0 < src && dec.state == ST_TRAIL_HEAD)
  {
    hide Run, Wrap;
    ghost var t := dec.consumeTrailer != 0;
    src := src0;
    while true
      invariant dec.state == ST_TRAIL_MID && CoreOf(dec) == old(CoreOf(dec)) && src0 <= src <= |s|
      invariant Reached(Delta(t), q0, s, CoreOf(dec), src, out)
      decreases |s| - src
    {
      if src == buf.Length {
        OutOfInput(q0, s, t, CoreOf(dec), src, out);
        return ToExit, -2, src;
      }
      AdvanceTrailMid(q0, s, t, dec.bytesLeftInChunk, dec.hexCount, src, out);
      if buf[src] == LF {
        break;
      }
      src := src + 1;
    }
    dec.state := ST_TRAIL_HEAD;
    return Again, -2, src + 1;
  }

  /** The cases of a chunk header, entered at the stored state. */
  method HeaderCases(dec: PhrChunkedDecoder, buf: array<byte>, src0: nat, ghost q0: Core, ghost s: seq<byte>,
                     ghost out: seq<byte>)
    returns (jump: Jump, ret: int, src: nat)
    requires dec.Valid() && dec.state <= ST_EXPECT_LF && Chunked.Unread(buf, s, src0)
    requires Reached(Delta(dec.consumeTrailer != 0), q0, s, CoreOf(dec), src0, out)
    modifies dec`bytesLeftInChunk, dec`hexCount, dec`state
    ensures dec.Valid() && src0 <= src && Left(jump, ret, q0, s, dec.consumeTrailer != 0, CoreOf(dec), src, out)
    ensures jump.Through? ==> src0 < src && ret == -2 && dec.state == ST_DATA && dec.bytesLeftInChunk > 0
    ensures jump.Again? ==> src0 < src && ret == -2 && dec.state == ST_TRAIL_HEAD
  {
    hide Run, Wrap;
    var entry := dec.state;
    src := src0;
    ghost var pre := CoreOf(dec);
    if entry <= ST_SIZE {
      jump, ret, src, pre := CaseSize(dec, buf, src, q0, s, out);
      if !jump.Through? {
        return;
      }
    }
    if entry <= ST_EXT {
      jump, ret, src := CaseExt(dec, buf, src, pre, q0, s, out);
      if !jump.Through? {
        return;
      }
    }
    jump, ret, src := CaseExpectLf(dec, buf, src, q0, s, out);
  }

  /** The cases of chunk data, entered at the stored state. */
  method DataCases(dec: PhrChunkedDecoder, buf: array<byte>, src0: nat, dst0: nat, ghost q0: Core, ghost s: seq<byte>,
                   ghost out0: seq<byte>)
    returns (jump: Jump, ret: int, src: nat, dst: nat, ghost out: seq<byte>)
    requires ST_DATA <= dec.state <= ST_DATA_LF
    requires |out0| == dst0 <= src0 <= |s| && Compacted(buf[..], s, out0)
    requires Reached(Delta(dec.consumeTrailer != 0), q0, s, Normalize(CoreOf(dec)), src0, out0)
    modifies dec`bytesLeftInChunk, dec`state, buf
    ensures src0 <= src && |out| == dst <= src && Compacted(buf[..], s, out)
    ensures Left(jump, ret, q0, s, dec.consumeTrailer != 0, CoreOf(dec), src, out)
    ensures jump.ToExit? || (jump.Again? && src0 < src && ret == -2 && dec.state == ST_SIZE)
  {
    hide Run, Wrap;
    var entry := dec.state;
    src, dst, out := src0, dst0, out0;
    if entry <= ST_DATA {
      jump, ret, src, dst, out := CaseData(dec, buf, src, dst, q0, s, out);
      if !jump.Through? {
        return;
      }
    }
    Chunked.CompactedUnread(buf, s, out, src);
    if entry <= ST_DATA_CR {
      jump, ret, src := CaseDataCr(dec, buf, src, q0, s, out);
      if !jump.Through? {
        return;
      }
    }
    jump, ret, src := CaseDataLf(dec, buf, src, q0, s, out);
  }

  /** The trailer cases, entered at the stored state. */
  method TrailerCases(dec: PhrChunkedDecoder, buf: array<byte>, src0: nat, ghost q0: Core, ghost s: seq<byte>,
                      ghost out: seq<byte>)
    returns (jump: Jump, ret: int, src: nat)
    requires ST_TRAIL_HEAD <= dec.state && Chunked.Unread(buf, s, src0)
    requires Reached(Delta(dec.consumeTrailer != 0), q0, s, CoreOf(dec), src0, out)
    modifies dec`state
    ensures src0 <= src && Left(jump, ret, q0, s, dec.consumeTrailer != 0, CoreOf(dec), src, out)
    ensures jump.ToExit? || jump.ToComplete? || (jump.Again? && src0 < src && ret == -2 && dec.state == ST_TRAIL_HEAD)
  {
    hide Run, Wrap;
    var entry := dec.state;
    src := src0;
    if entry <= ST_TRAIL_HEAD {
      jump, ret, src := CaseTrailHead(dec, buf, src, q0, s, out);
      if !jump.Through? {
        return;
      }
    }
    jump, ret, src := CaseTrailMid(dec, buf, src, q0, s, out);
  }

  /** One execution of the `switch`: enter at the case of the stored state, then fall
      through from case to case until a jump. */
  method Switch(dec: PhrChunkedDecoder, buf: array<byte>, src0: nat, dst0: nat, ghost q0: Core, ghost s: seq<byte>,
                ghost out0: seq<byte>)
    returns (jump: Jump, ret: int, src: nat, dst: nat, ghost out: seq<byte>)
    requires dec.Valid() && |out0| == dst0 <= src0 <= |s| && Compacted(buf[..], s, out0)
    requires Reached(Delta(dec.consumeTrailer != 0), q0, s, Normalize(CoreOf(dec)), src0, out0)
    modifies dec`bytesLeftInChunk, dec`hexCount, dec`state, buf
    ensures dec.Valid() && src0 <= src && |out| == dst <= src && Compacted(buf[..], s, out)
    ensures Left(jump, ret, q0, s, dec.consumeTrailer != 0, CoreOf(dec), src, out) && !jump.Through?
    ensures jump.Again? ==> src0 < src && ret == -2 && dec.state != ST_DATA
  {
    hide Run, Wrap;
    var entry := dec.state;
    src, dst, out := src0, dst0, out0;
    Chunked.CompactedUnread(buf, s, out, src);
    if entry <= ST_EXPECT_LF {
      jump, ret, src := HeaderCases(dec, buf, src, q0, s, out);
      if !jump.Through? {
        return;
      }
    }
    if entry <= ST_DATA_LF {
      jump, ret, src, dst, out := DataCases(dec, buf, src, dst, q0, s, out);
      return;
    }
    jump, ret, src := TrailerCases(dec, buf, src, q0, s, out);
  }

  /** The end a call came to, read off the return code it is about to give. */
  function EndOf(ret: int): End {
    if ret == -2 then NeedMore else if ret == -1 then Reject else Complete
  }

  /** Label `Exit`: close the gap and apply the accounting rule. */
  method Exit(dec: PhrChunkedDecoder, buf: array<byte>, ret0: int, src: nat, dst: nat, ghost d: Dec,
              ghost s: seq<byte>, ghost out: seq<byte>)
    returns (ret: int)
    requires |out| == dst <= src <= |s| && Compacted(buf[..], s, out)
    requires dec.totalRead == Wrap(d.read + |s|) && dec.totalOverhead == d.overhead
    requires (dec.consumeTrailer != 0) == d.trailer
    requires ret0 == -2 || ret0 == -1 || ret0 == buf.Length - src
    modifies dec`totalOverhead, buf
    ensures dec.Model() == Settle(d, |s|, CoreOf(dec), src, dst, EndOf(ret0)).0
    ensures ret == Code(Settle(d, |s|, CoreOf(dec), src, dst, EndOf(ret0)).1)
    ensures buf[..] == BufferAfter(s, out, src)
  {
    hide Wrap;
    ret := ret0;
    var bufsz := buf.Length;
    CloseGap(buf, src, dst, s, out);
    if ret == -2 {
      dec.totalOverhead := Wrap(dec.totalOverhead + (bufsz - dst));
      if dec.totalOverhead >= OVERHEAD_FLOOR && Wrap(dec.totalRead - dec.totalOverhead) < dec.totalRead / 4 {
        ret := -1;
      }
    }
  }

  /** `phr_decode_chunked`: the record, the return code, the decoded length and the whole
      buffer are those of `Call`. */
  method PhrDecodeChunked(dec: PhrChunkedDecoder, buf: array<byte>) returns (ret: int, bufsz: nat)
    requires dec.Valid()
    modifies dec, buf
    ensures dec.Valid() && dec.consumeTrailer == old(dec.consumeTrailer)
    ensures var r := Call(old(dec.Model()), old(buf[..]));
            && dec.Model() == r.dec
            && ret == Code(r.status)
            && bufsz == |r.out|
            && buf[..] == BufferAfter(old(buf[..]), r.out, r.used)
  {
    hide Run;
    ghost var d, s, q0 := dec.Model(), buf[..], Normalize(CoreOf(dec));
    ghost var out: seq<byte> := [];
    var src, dst := 0, 0;
    var jump;
    dec.totalRead := Wrap(dec.totalRead + buf.Length);
    ReachedFirst(Delta(d.trailer), q0, s);
    while true
      invariant dec.Valid() && dec.consumeTrailer == old(dec.consumeTrailer)
      invariant dec.totalRead == Wrap(d.read + |s|) && dec.totalOverhead == d.overhead
      invariant |out| == dst <= src <= |s| && Compacted(buf[..], s, out)
      invariant Reached(Delta(d.trailer), q0, s, Normalize(CoreOf(dec)), src, out)
      decreases |s| - src
    {
      jump, ret, src, dst, out := Switch(dec, buf, src, dst, q0, s, out);
      if !jump.Again? {
        break;
      }
    }
    if jump.ToComplete? {
      ret := buf.Length - src;
    }
    ret := Exit(dec, buf, ret, src, dst, d, s, out);
    bufsz := dst;
  }

  /** Two records and buffers that start out equal are left equal by the two decoders, with
      the same verdict and decoded length. */
  method DispatchesAgree(rs: PhrChunkedDecoder, rbuf: array<byte>, c: PhrChunkedDecoder, cbuf: array<byte>)
    returns (status: Result<nat>, decoded: nat, ret: int, bufsz: nat)
    requires rs != c && rbuf != cbuf
    requires rs.Valid() && rs.Model() == c.Model() && rs.consumeTrailer == c.consumeTrailer
    requires rbuf[..] == cbuf[..]
    modifies rs, rbuf, c, cbuf
    ensures ret == Code(status) && bufsz == decoded
    ensures rs.Model() == c.Model() && rs.consumeTrailer == c.consumeTrailer
    ensures rbuf[..] == cbuf[..]
  {
    status, decoded := Chunked.DecodeChunked(rs, rbuf);
    ret, bufsz := PhrDecodeChunked(c, cbuf);
  }
}
