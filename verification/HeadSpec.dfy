/** What the head parsers compute, as functions of the whole buffer and a position in it. */
module HeadSpec {
  import opened Bytes

  // Byte classes.

  /** RFC 7230 `tchar`, section 3.2.6. */
  predicate IsTchar(b: byte) {
    || b == 0x21 || 0x23 <= b <= 0x27 || b == 0x2A || b == 0x2B || b == 0x2D || b == 0x2E
    || 0x30 <= b <= 0x39 || 0x41 <= b <= 0x5A || 0x5E <= b <= 0x7A || b == 0x7C || b == 0x7E
  }

  predicate IsDigit(b: byte) {
    0x30 <= b <= 0x39
  }

  function Digit(b: byte): nat
    requires IsDigit(b)
  {
    b - 0x30
  }

  predicate IsBlank(b: byte) {
    b == SP || b == HT
  }

  predicate IsControl(b: byte) {
    b < 0x20 || b == DEL
  }

  /** What a scanner runs over. */
  datatype Class = Token(stop: byte) | Text | Target | Spaces | Blanks

  predicate Accepts(c: Class, b: byte) {
    match c
    case Token(stop) => b != stop && IsTchar(b)
    case Text => b == HT || !IsControl(b)
    case Target => b != SP && !IsControl(b)
    case Spaces => b == SP
    case Blanks => IsBlank(b)
  }

  /** The first position from `p` whose byte is outside the class, or the end. */
  function Skip(c: Class, buf: seq<byte>, p: nat): (q: nat)
    requires p <= |buf|
    ensures p <= q <= |buf|
    ensures forall i :: p <= i < q ==> Accepts(c, buf[i])
    ensures q < |buf| ==> !Accepts(c, buf[q])
    decreases |buf| - p
  {
    if p < |buf| && Accepts(c, buf[p]) then Skip(c, buf, p + 1) else p
  }

  /** `Skip` is the only position with these properties. */
  lemma SkipIs(c: Class, buf: seq<byte>, p: nat, q: nat)
    requires p <= q <= |buf|
    requires forall i :: p <= i < q ==> Accepts(c, buf[i])
    requires q < |buf| ==> !Accepts(c, buf[q])
    ensures Skip(c, buf, p) == q
  {
    var q' := Skip(c, buf, p);
  }

  // Scanners.

  /** The first position outside a class, which must exist. */
  function SkipTo(c: Class, buf: seq<byte>, p: nat): (r: Result<nat>)
    requires p <= |buf|
    ensures r.Ok? ==> p <= r.value < |buf| && !Accepts(c, buf[r.value])
  {
    var q := Skip(c, buf, p);
    if q == |buf| then Err(Partial) else Ok(q)
  }

  /** The position of the delimiter that ends a token or a target. */
  function ScanUntil(c: Class, stop: byte, buf: seq<byte>, p: nat): (r: Result<nat>)
    requires p <= |buf|
    ensures r.Ok? ==> p <= r.value < |buf| && buf[r.value] == stop
    ensures r.Ok? ==> forall i :: p <= i < r.value ==> Accepts(c, buf[i])
  {
    var q := Skip(c, buf, p);
    if q == |buf| then Err(Partial)
    else if buf[q] == stop then Ok(q)
    else Err(Malformed)
  }

  function ScanToken(buf: seq<byte>, p: nat, stop: byte): Result<nat>
    requires p <= |buf|
  {
    ScanUntil(Token(stop), stop, buf, p)
  }

  function ScanTarget(buf: seq<byte>, p: nat): Result<nat>
    requires p <= |buf|
  {
    ScanUntil(Target, SP, buf, p)
  }

  /** The position behind the line break at `p`. */
  function Break(buf: seq<byte>, p: nat): (r: Result<nat>)
    requires p < |buf|
    ensures r.Ok? ==> p < r.value <= |buf| && buf[r.value - 1] == LF && r.value <= p + 2
  {
    if buf[p] == CR then
      if p + 1 == |buf| then Err(Partial)
      else if buf[p + 1] == LF then Ok(p + 2)
      else Err(Malformed)
    else if buf[p] == LF then Ok(p + 1)
    else Err(Malformed)
  }

  /** The end of a line of text and the position behind its line break. */
  function ScanEol(buf: seq<byte>, p: nat): (r: Result<(nat, nat)>)
    requires p <= |buf|
    ensures r.Ok? ==> p <= r.value.0 < r.value.1 <= |buf| && Break(buf, r.value.0) == Ok(r.value.1)
    ensures r.Ok? ==> forall i :: p <= i < r.value.0 ==> Accepts(Text, buf[i])
  {
    var e := Skip(Text, buf, p);
    if e == |buf| then Err(Partial)
    else match Break(buf, e)
      case Err(err) => Err(err)
      case Ok(q) => Ok((e, q))
  }

  /** The end of `buf[start..end]` without trailing blanks. */
  function RTrim(buf: seq<byte>, start: nat, end: nat): (e: nat)
    requires start <= end <= |buf|
    ensures start <= e <= end
    ensures forall i :: e <= i < end ==> IsBlank(buf[i])
    ensures e > start ==> !IsBlank(buf[e - 1])
    decreases end
  {
    if end > start && IsBlank(buf[end - 1]) then RTrim(buf, start, end - 1) else end
  }

  lemma RTrimIs(buf: seq<byte>, start: nat, end: nat, e: nat)
    requires start <= e <= end <= |buf|
    requires forall i :: e <= i < end ==> IsBlank(buf[i])
    requires e > start ==> !IsBlank(buf[e - 1])
    ensures RTrim(buf, start, end) == e
  {
    var e' := RTrim(buf, start, end);
  }

  /** `HTTP/1.` and a digit, with one byte of lookahead: the minor version and the position
      behind the digit. */
  const PREFIX: seq<byte> := [0x48, 0x54, 0x54, 0x50, 0x2F, 0x31, 0x2E]

  function Version(buf: seq<byte>, p: nat): (r: Result<(nat, nat)>)
    requires p <= |buf|
    ensures r.Ok? ==> r.value.1 == p + 8 < |buf| && r.value.0 <= 9
  {
    if |buf| - p < 9 then Err(Partial)
    else if buf[p..p + 7] != PREFIX || !IsDigit(buf[p + 7]) then Err(Malformed)
    else Ok((Digit(buf[p + 7]), p + 8))
  }

  // Header blocks.

  datatype Span = Span(off: nat, len: nat)

  /** A write to the caller's header array: names before values, one slot after another. */
  datatype Write = Name(i: nat, name: Option<Span>) | Value(i: nat, value: Span)

  /** The verdict of a header line or block and the writes made on the way to it. */
  datatype LineRun = LineRun(res: Result<nat>, log: seq<Write>)

  function ScanValue(buf: seq<byte>, p: nat, n: nat, name: Write): (r: LineRun)
    requires p <= |buf|
    ensures r.res.Ok? ==> p < r.res.value <= |buf|
  {
    match ScanEol(buf, p)
    case Err(err) => LineRun(Err(err), [name])
    case Ok((e, q)) => LineRun(Ok(q), [name, Value(n, Span(p, RTrim(buf, p, e) - p))])
  }

  /** A header name up to its colon, and where its value starts. The name is published as
      soon as it ends, even when it is empty. */
  function FieldName(buf: seq<byte>, p: nat): (r: (Option<Span>, Result<nat>))
    requires p <= |buf|
    ensures r.1.Ok? ==> r.0.Some? && p < r.1.value < |buf|
    ensures r.0.None? ==> r.1.Err?
  {
    match ScanToken(buf, p, COLON)
    case Err(err) => (None, Err(err))
    case Ok(c) => (Some(Span(p, c - p)), if c == p then Err(Malformed) else SkipTo(Blanks, buf, c + 1))
  }

  function NamedLine(buf: seq<byte>, p: nat, n: nat): (r: LineRun)
    requires p <= |buf|
    ensures r.res.Ok? ==> p < r.res.value <= |buf|
  {
    var (name, start) := FieldName(buf, p);
    if name.None? then LineRun(Err(start.error), [])
    else match start
      case Err(err) => LineRun(Err(err), [Name(n, name)])
      case Ok(v) => ScanValue(buf, v, n, Name(n, name))
  }

  function HeaderLine(buf: seq<byte>, p: nat, n: nat): (r: LineRun)
    requires p < |buf|
    ensures r.res.Ok? ==> p < r.res.value <= |buf| && |r.log| == 2
    ensures r.res.Err? ==> |r.log| <= 1
  {
    if n != 0 && IsBlank(buf[p]) then ScanValue(buf, p, n, Name(n, None)) else NamedLine(buf, p, n)
  }

  /** The header block from `p`, with `n` headers already written as `log` says and room
      for `max`. */
  function Headers(buf: seq<byte>, p: nat, n: nat, max: nat, log: seq<Write>): (r: LineRun)
    requires p <= |buf|
    ensures r.res.Ok? ==> p < r.res.value <= |buf|
    decreases |buf| - p
  {
    if p == |buf| then LineRun(Err(Partial), log)
    else if buf[p] == CR || buf[p] == LF then LineRun(Break(buf, p), log)
    else if n == max then LineRun(Err(Malformed), log)
    else
      var line := HeaderLine(buf, p, n);
      match line.res
      case Err(err) => LineRun(Err(err), log + line.log)
      case Ok(q) => Headers(buf, q, n + 1, max, log + line.log)
  }

  /** A block ends at the end of the input, at a line break, and when there is no room. */
  lemma HeadersStop(buf: seq<byte>, p: nat, n: nat, max: nat, log: seq<Write>)
    requires p <= |buf|
    ensures p == |buf| ==> Headers(buf, p, n, max, log) == LineRun(Err(Partial), log)
    ensures p < |buf| && (buf[p] == CR || buf[p] == LF) ==> Headers(buf, p, n, max, log) == LineRun(Break(buf, p), log)
    ensures p < |buf| && buf[p] != CR && buf[p] != LF && n == max ==>
              Headers(buf, p, n, max, log) == LineRun(Err(Malformed), log)
  {
  }

  /** A block continues past a complete line, and ends with a line that fails. */
  lemma HeadersUnfold(buf: seq<byte>, p: nat, n: nat, max: nat, log: seq<Write>)
    requires p < |buf| && buf[p] != CR && buf[p] != LF && n != max
    ensures Headers(buf, p, n, max, log) ==
            match HeaderLine(buf, p, n).res
            case Ok(q) => Headers(buf, q, n + 1, max, log + HeaderLine(buf, p, n).log)
            case Err(err) => LineRun(Err(err), log + HeaderLine(buf, p, n).log)
  {
  }

  /** The number of headers a log completes. */
  function Completed(log: seq<Write>): nat {
    |log| / 2
  }

  // Heads. Everything published on the way is part of the outcome, whatever the verdict.

  datatype HeadRun = HeadRun(
    res: Result<nat>,
    method': Option<Span>,
    path: Option<Span>,
    version: Option<nat>,
    status: Option<nat>,
    reason: Option<Span>,
    log: seq<Write>)

  const NOTHING: HeadRun := HeadRun(Err(Partial), None, None, None, None, None, [])

  function WithHeaders(h: HeadRun, block: LineRun): HeadRun {
    h.(res := block.res, log := block.log)
  }

  function SkipEmptyLine(buf: seq<byte>): (r: Result<nat>)
    ensures r.Ok? ==> r.value <= |buf|
  {
    if buf == [] then Err(Partial)
    else if buf[0] == CR || buf[0] == LF then Break(buf, 0)
    else Ok(0)
  }

  /** From the version of a request line on. */
  function RequestVersion(buf: seq<byte>, p: nat, max: nat, h: HeadRun): (r: HeadRun)
    requires p <= |buf|
    ensures r.res.Ok? ==> p + 8 < r.res.value <= |buf|
  {
    match Version(buf, p)
    case Err(err) => h.(res := Err(err))
    case Ok((v, q)) =>
      var h' := h.(version := Some(v));
      match Break(buf, q)
      case Err(err) => h'.(res := Err(err))
      case Ok(q') => WithHeaders(h', Headers(buf, q', 0, max, []))
  }

  /** A word of the request line, ended by a space, and what follows the spaces. The word is
      published as soon as it ends, even when nothing follows. */
  function Word(c: Class, buf: seq<byte>, p: nat): (r: (Option<Span>, Result<nat>))
    requires p <= |buf|
    ensures r.1.Ok? ==> r.0.Some? && p <= r.1.value < |buf|
  {
    match ScanUntil(c, SP, buf, p)
    case Err(err) => (None, Err(err))
    case Ok(e) => (Some(Span(p, e - p)), SkipTo(Spaces, buf, e + 1))
  }

  /** From the target on. */
  function RequestTarget(buf: seq<byte>, p: nat, max: nat, h: HeadRun): (r: HeadRun)
    requires p <= |buf| && h.method'.Some?
    ensures r.res.Ok? ==> p < r.res.value <= |buf|
  {
    var (path, next) := Word(Target, buf, p);
    var h' := h.(path := path);
    match next
    case Err(err) => h'.(res := Err(err))
    case Ok(q) =>
      if h.method'.value.len == 0 || path.value.len == 0 then h'.(res := Err(Malformed))
      else RequestVersion(buf, q, max, h')
  }

  /** From the method on. */
  function RequestMethod(buf: seq<byte>, p: nat, max: nat): (r: HeadRun)
    requires p <= |buf|
    ensures r.res.Ok? ==> p < r.res.value <= |buf|
  {
    var (method', next) := Word(Token(SP), buf, p);
    var h := NOTHING.(method' := method');
    match next
    case Err(err) => h.(res := Err(err))
    case Ok(q) => RequestTarget(buf, q, max, h)
  }

  function ParseRequest(buf: seq<byte>, max: nat): (r: HeadRun)
    ensures r.res.Ok? ==> 0 < r.res.value <= |buf|
  {
    match SkipEmptyLine(buf)
    case Err(err) => NOTHING.(res := Err(err))
    case Ok(p) => RequestMethod(buf, p, max)
  }

  /** The three status digits, with one byte of lookahead; a digit that is not one leaves
      the value read so far. */
  function Status(buf: seq<byte>, p: nat): (r: (Result<nat>, Option<nat>))
    requires p <= |buf|
    ensures r.0.Ok? ==> r.0.value == p + 3 < |buf| && r.1.Some?
  {
    if |buf| - p < 4 then (Err(Partial), None)
    else if !IsDigit(buf[p]) then (Err(Malformed), None)
    else
      var v := 100 * Digit(buf[p]);
      if !IsDigit(buf[p + 1]) then (Err(Malformed), Some(v))
      else
        var v' := v + 10 * Digit(buf[p + 1]);
        if !IsDigit(buf[p + 2]) then (Err(Malformed), Some(v'))
        else (Ok(p + 3), Some(v' + Digit(buf[p + 2])))
  }

  /** Spaces at the start of a line end at its line break at the latest. */
  lemma SpacesEndInLine(buf: seq<byte>, p: nat, e: nat)
    requires p <= e < |buf| && (buf[e] == CR || buf[e] == LF)
    ensures Skip(Spaces, buf, p) <= e
  {
  }

  /** The reason phrase and where the headers start: empty, or introduced by spaces, which
      are dropped. A phrase without that space is published and refused. */
  function Reason(buf: seq<byte>, p: nat): (r: (Option<Span>, Result<nat>))
    requires p <= |buf|
    ensures r.1.Ok? ==> r.0.Some? && p < r.1.value <= |buf|
  {
    match ScanEol(buf, p)
    case Err(err) => (None, Err(err))
    case Ok((e, q)) =>
      if e == p then (Some(Span(p, 0)), Ok(q))
      else if buf[p] == SP then
        SpacesEndInLine(buf, p, e);
        var s := Skip(Spaces, buf, p);
        (Some(Span(s, e - s)), Ok(q))
      else (Some(Span(p, e - p)), Err(Malformed))
  }

  /** From the reason phrase on. */
  function ResponseReason(buf: seq<byte>, p: nat, max: nat, h: HeadRun): (r: HeadRun)
    requires p <= |buf|
    ensures r.res.Ok? ==> p < r.res.value <= |buf|
  {
    var (reason, next) := Reason(buf, p);
    var h' := h.(reason := reason);
    match next
    case Err(err) => h'.(res := Err(err))
    case Ok(q) => WithHeaders(h', Headers(buf, q, 0, max, []))
  }

  /** From the status on. */
  function ResponseStatus(buf: seq<byte>, p: nat, max: nat, h: HeadRun): (r: HeadRun)
    requires p <= |buf|
    ensures r.res.Ok? ==> p + 3 < r.res.value <= |buf|
  {
    var (next, status) := Status(buf, p);
    var h' := h.(status := status);
    match next
    case Err(err) => h'.(res := Err(err))
    case Ok(q) => ResponseReason(buf, q, max, h')
  }

  /** From the space behind the version on. */
  function ResponseSpaces(buf: seq<byte>, p: nat, max: nat, h: HeadRun): (r: HeadRun)
    requires p < |buf|
    ensures r.res.Ok? ==> p < r.res.value <= |buf|
  {
    if buf[p] != SP then h.(res := Err(Malformed))
    else match SkipTo(Spaces, buf, p + 1)
      case Err(err) => h.(res := Err(err))
      case Ok(q) => ResponseStatus(buf, q, max, h)
  }

  function ParseResponse(buf: seq<byte>, max: nat): (r: HeadRun)
    ensures r.res.Ok? ==> 8 < r.res.value <= |buf|
  {
    match Version(buf, 0)
    case Err(err) => NOTHING.(res := Err(err))
    case Ok((v, p)) => ResponseSpaces(buf, p, max, NOTHING.(version := Some(v)))
  }

  function ParseBlock(buf: seq<byte>, max: nat): (r: HeadRun)
    ensures r.res.Ok? ==> 0 < r.res.value <= |buf|
  {
    WithHeaders(NOTHING, Headers(buf, 0, 0, max, []))
  }

  datatype Kind = Request | Response | Block

  function Parse(kind: Kind, buf: seq<byte>, max: nat): (r: HeadRun)
    ensures r.res.Ok? ==> 0 < r.res.value <= |buf|
  {
    match kind
    case Request => ParseRequest(buf, max)
    case Response => ParseResponse(buf, max)
    case Block => ParseBlock(buf, max)
  }

  // The gate against slow senders.

  /** Look for two line breaks in a row from `p`, having just seen `count`. */
  function Gate(buf: seq<byte>, p: nat, count: nat): Result<()>
    decreases |buf| - p
  {
    if p >= |buf| then Err(Partial)
    else if buf[p] == CR || buf[p] == LF then
      match Break(buf, p)
      case Err(err) => Err(err)
      case Ok(q) => if count == 1 then Ok(()) else Gate(buf, q, count + 1)
    else Gate(buf, p + 1, 0)
  }

  function GateStart(lastLen: nat): nat {
    if lastLen < 3 then 0 else lastLen - 3
  }

  /** A parse given the length of the buffer at the previous attempt: 0 means there was none. */
  function Gated(kind: Kind, buf: seq<byte>, max: nat, lastLen: nat): HeadRun {
    if lastLen == 0 then Parse(kind, buf, max)
    else match Gate(buf, GateStart(lastLen), 0)
      case Err(err) => NOTHING.(res := Err(err))
      case Ok(_) => Parse(kind, buf, max)
  }
}
