/** The caller's header array and the writes made to it. */
module HeadSlots {
  import opened Bytes
  import opened HeadSpec

  /** A pointer as the caller sees it: null, into the input, or whatever was there before. */
  datatype Ptr = Null | At(off: nat) | Foreign(id: int)

  datatype PhrHeader = PhrHeader(name: Ptr, nameLen: nat, value: Ptr, valueLen: nat)

  function SlotAfter(h: PhrHeader, w: Write): PhrHeader {
    match w
    case Name(_, None) => h.(name := Null, nameLen := 0)
    case Name(_, Some(s)) => h.(name := At(s.off), nameLen := s.len)
    case Value(_, s) => h.(value := At(s.off), valueLen := s.len)
  }

  function ApplyWrite(slots: seq<PhrHeader>, w: Write): (r: seq<PhrHeader>)
    ensures |r| == |slots|
  {
    if w.i < |slots| then slots[w.i := SlotAfter(slots[w.i], w)] else slots
  }

  /** The array after a log of writes. */
  function Apply(slots: seq<PhrHeader>, log: seq<Write>): (r: seq<PhrHeader>)
    ensures |r| == |slots|
    decreases |log|, |slots|
  {
    if log == [] then slots
    else ApplyWrite(Apply(slots, log[..|log| - 1]), log[|log| - 1])
  }

  lemma ApplyNone(slots: seq<PhrHeader>)
    ensures Apply(slots, []) == slots
  {
  }

  lemma ApplyOneMore(slots: seq<PhrHeader>, log: seq<Write>, w: Write)
    ensures Apply(slots, log + [w]) == ApplyWrite(Apply(slots, log), w)
  {
    assert (log + [w])[..|log|] == log;
  }

  lemma ApplySingle(slots: seq<PhrHeader>, w: Write)
    ensures Apply(slots, [w]) == ApplyWrite(slots, w)
  {
    ApplyOneMore(slots, [], w);
    assert [] + [w] == [w];
  }

  lemma ApplyPair(slots: seq<PhrHeader>, w: Write, v: Write)
    ensures Apply(slots, [w, v]) == ApplyWrite(ApplyWrite(slots, w), v)
  {
    ApplySingle(slots, w);
    ApplyOneMore(slots, [w], v);
    assert [w] + [v] == [w, v];
  }

  lemma {:induction false} ApplyMore(slots: seq<PhrHeader>, log: seq<Write>, more: seq<Write>)
    ensures Apply(slots, log + more) == Apply(Apply(slots, log), more)
    decreases |more|
  {
    if more == [] {
      assert log + more == log;
    } else {
      var most, w := more[..|more| - 1], more[|more| - 1];
      ApplyMore(slots, log, most);
      ApplyOneMore(slots, log + most, w);
      assert log + most + [w] == log + more;
      assert most + [w] == more;
    }
  }

  lemma ApplyFirst(slots: seq<PhrHeader>, log: seq<Write>)
    requires log != []
    ensures Apply(slots, log) == Apply(ApplyWrite(slots, log[0]), log[1..])
  {
    ApplyMore(slots, [log[0]], log[1..]);
    ApplySingle(slots, log[0]);
    assert [log[0]] + log[1..] == log;
  }

  ghost predicate WritesName(log: seq<Write>, i: nat) {
    exists k :: 0 <= k < |log| && log[k].Name? && log[k].i == i
  }

  ghost predicate WritesValue(log: seq<Write>, i: nat) {
    exists k :: 0 <= k < |log| && log[k].Value? && log[k].i == i
  }

  /** Two arrays with the same contents wherever the log does not write. */
  ghost predicate AgreeOutside(a: seq<PhrHeader>, b: seq<PhrHeader>, log: seq<Write>) {
    && |a| == |b|
    && (forall i :: 0 <= i < |a| && !WritesName(log, i) ==> a[i].name == b[i].name && a[i].nameLen == b[i].nameLen)
    && (forall i :: 0 <= i < |a| && !WritesValue(log, i) ==> a[i].value == b[i].value && a[i].valueLen == b[i].valueLen)
  }

  /** A log writes at its first write and where the rest of it writes. */
  lemma WritesFirst(log: seq<Write>, i: nat)
    requires log != []
    ensures WritesName(log, i) <==> (log[0].Name? && log[0].i == i) || WritesName(log[1..], i)
    ensures WritesValue(log, i) <==> (log[0].Value? && log[0].i == i) || WritesValue(log[1..], i)
  {
    var rest := log[1..];
    if k :| 0 <= k < |rest| && rest[k].Name? && rest[k].i == i {
      assert log[k + 1] == rest[k];
    }
    if k :| 0 <= k < |rest| && rest[k].Value? && rest[k].i == i {
      assert log[k + 1] == rest[k];
    }
    if k :| 0 <= k < |log| && log[k].Name? && log[k].i == i {
      assert k > 0 ==> rest[k - 1] == log[k];
    }
    if k :| 0 <= k < |log| && log[k].Value? && log[k].i == i {
      assert k > 0 ==> rest[k - 1] == log[k];
    }
  }

  /** Writing a log forgets whatever it writes over. */
  lemma {:induction false} ApplyForgets(a: seq<PhrHeader>, b: seq<PhrHeader>, log: seq<Write>)
    requires AgreeOutside(a, b, log)
    ensures Apply(a, log) == Apply(b, log)
    decreases |log|
  {
    if log != [] {
      ApplyFirst(a, log);
      ApplyFirst(b, log);
      forall i: nat | true
        ensures WritesName(log, i) <==> (log[0].Name? && log[0].i == i) || WritesName(log[1..], i)
        ensures WritesValue(log, i) <==> (log[0].Value? && log[0].i == i) || WritesValue(log[1..], i)
      {
        WritesFirst(log, i);
      }
      ApplyForgets(ApplyWrite(a, log[0]), ApplyWrite(b, log[0]), log[1..]);
    }
  }

  lemma {:induction false} ApplyKeeps(slots: seq<PhrHeader>, log: seq<Write>)
    ensures AgreeOutside(Apply(slots, log), slots, log)
    decreases |log|
  {
    if log != [] {
      ApplyFirst(slots, log);
      forall i: nat | true
        ensures WritesName(log, i) <==> (log[0].Name? && log[0].i == i) || WritesName(log[1..], i)
        ensures WritesValue(log, i) <==> (log[0].Value? && log[0].i == i) || WritesValue(log[1..], i)
      {
        WritesFirst(log, i);
      }
      ApplyKeeps(ApplyWrite(slots, log[0]), log[1..]);
    }
  }

  /** A parse that goes further leaves what it would have left without the attempt before. */
  lemma ApplyAgain(slots: seq<PhrHeader>, log: seq<Write>, log': seq<Write>)
    requires log <= log'
    ensures Apply(Apply(slots, log), log') == Apply(slots, log')
  {
    ApplyKeeps(slots, log);
    forall i: nat | WritesName(log, i) ensures WritesName(log', i) {
      var k :| 0 <= k < |log| && log[k].Name? && log[k].i == i;
      assert log'[k] == log[k];
    }
    forall i: nat | WritesValue(log, i) ensures WritesValue(log', i) {
      var k :| 0 <= k < |log| && log[k].Value? && log[k].i == i;
      assert log'[k] == log[k];
    }
    ApplyForgets(Apply(slots, log), slots, log');
  }

  /** What the loop of the block keeps: `spec` is the block, `log` what has been written for
      its first `n` headers, `pos` where the next one starts. */
  ghost predicate Parsing(spec: LineRun, slots: seq<PhrHeader>, slots0: seq<PhrHeader>,
                          buf: seq<byte>, pos: nat, n: nat, max: nat, log: seq<Write>) {
    && pos <= |buf| && n <= max && |log| == 2 * n
    && spec == Headers(buf, pos, n, max, log)
    && slots == Apply(slots0, log)
  }

  lemma ParsingStarts(buf: seq<byte>, pos: nat, max: nat, slots: seq<PhrHeader>) returns (log: seq<Write>)
    requires pos <= |buf|
    ensures Parsing(Headers(buf, pos, 0, max, []), slots, slots, buf, pos, 0, max, log)
  {
    log := [];
  }

  /** The sink over the caller's array. Its trace is every write made through it, in order. */
  class RawSink {
    const slots: array<PhrHeader>
    const cap: nat
    ghost var trace: seq<Write>

    ghost predicate Valid() {
      cap <= slots.Length
    }

    constructor (slots: array<PhrHeader>, cap: nat)
      requires cap <= slots.Length
      ensures Valid() && this.slots == slots && this.cap == cap && trace == []
    {
      this.slots, this.cap, trace := slots, cap, [];
    }

    method SetName(i: nat, name: Option<Span>)
      requires Valid() && i < cap
      modifies slots, `trace
      ensures slots[..] == ApplyWrite(old(slots[..]), Name(i, name))
      ensures trace == old(trace) + [Name(i, name)]
    {
      match name {
        case Some(s) => slots[i] := slots[i].(name := At(s.off), nameLen := s.len);
        case None => slots[i] := slots[i].(name := Null, nameLen := 0);
      }
      trace := trace + [Name(i, name)];
    }

    method SetValue(i: nat, value: Span)
      requires Valid() && i < cap
      modifies slots, `trace
      ensures slots[..] == ApplyWrite(old(slots[..]), Value(i, value))
      ensures trace == old(trace) + [Value(i, value)]
    {
      slots[i] := slots[i].(value := At(value.off), valueLen := value.len);
      trace := trace + [Value(i, value)];
    }
  }
}
