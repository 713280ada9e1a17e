/** The two implementations leave the same outputs behind on every input, error paths
    included: each method runs both on equal caller memory. */
module HeadRefinement {
  import opened Bytes
  import opened HeadSlots
  import opened HeadFfi
  import HeadC

  method RequestsAgree(buf: seq<byte>, lastLen: nat, sse: bool,
                       rs: RequestOut, rsHeaders: array<PhrHeader>, rsCount: Count,
                       c: RequestOut, cHeaders: array<PhrHeader>, cCount: Count)
    returns (rsRet: int, cRet: int)
    requires rs != c && rsHeaders != cHeaders && rsCount != cCount
    requires rsHeaders[..] == cHeaders[..] && rsCount.n == cCount.n <= rsHeaders.Length && lastLen <= |buf|
    modifies rs, rsHeaders, rsCount, c, cHeaders, cCount
    ensures rsRet == cRet && rsCount.n == cCount.n && rsHeaders[..] == cHeaders[..]
    ensures rs.method' == c.method' && rs.methodLen == c.methodLen
    ensures rs.path == c.path && rs.pathLen == c.pathLen && rs.minorVersion == c.minorVersion
  {
    rsRet := HeadFfi.PhrParseRequest(buf, rs, rsHeaders, rsCount, lastLen);
    cRet := HeadC.PhrParseRequest(buf, c, cHeaders, cCount, lastLen, sse);
  }

  method ResponsesAgree(buf: seq<byte>, lastLen: nat, sse: bool,
                        rs: ResponseOut, rsHeaders: array<PhrHeader>, rsCount: Count,
                        c: ResponseOut, cHeaders: array<PhrHeader>, cCount: Count)
    returns (rsRet: int, cRet: int)
    requires rs != c && rsHeaders != cHeaders && rsCount != cCount
    requires rsHeaders[..] == cHeaders[..] && rsCount.n == cCount.n <= rsHeaders.Length && lastLen <= |buf|
    modifies rs, rsHeaders, rsCount, c, cHeaders, cCount
    ensures rsRet == cRet && rsCount.n == cCount.n && rsHeaders[..] == cHeaders[..]
    ensures rs.minorVersion == c.minorVersion && rs.status == c.status
    ensures rs.reason == c.reason && rs.reasonLen == c.reasonLen
  {
    rsRet := HeadFfi.PhrParseResponse(buf, rs, rsHeaders, rsCount, lastLen);
    cRet := HeadC.PhrParseResponse(buf, c, cHeaders, cCount, lastLen, sse);
  }

  method BlocksAgree(buf: seq<byte>, lastLen: nat, sse: bool,
                     rsHeaders: array<PhrHeader>, rsCount: Count, cHeaders: array<PhrHeader>, cCount: Count)
    returns (rsRet: int, cRet: int)
    requires rsHeaders != cHeaders && rsCount != cCount
    requires rsHeaders[..] == cHeaders[..] && rsCount.n == cCount.n <= rsHeaders.Length && lastLen <= |buf|
    modifies rsHeaders, rsCount, cHeaders, cCount
    ensures rsRet == cRet && rsCount.n == cCount.n && rsHeaders[..] == cHeaders[..]
  {
    rsRet := HeadFfi.PhrParseHeaders(buf, rsHeaders, rsCount, lastLen);
    cRet := HeadC.PhrParseHeaders(buf, cHeaders, cCount, lastLen, sse);
  }
}
