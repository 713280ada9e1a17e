/** What the caller reads out of its header array, slot by slot, through the pointers there. */
module HeadReadBack {
  import opened Bytes
  import opened HeadSpec
  import opened HeadGrammar
  import opened HeadProtocol
  import opened HeadPublished
  import opened HeadSlots

  // The array after any run.

  /** The slot points at the name, or has a null name of length 0. */
  ghost predicate PointsAtName(s: PhrHeader, name: Option<Span>) {
    match name
    case None => s.name == Null && s.nameLen == 0
    case Some(t) => s.name == Ptr.At(t.off) && s.nameLen == t.len
  }

  ghost predicate PointsAtValue(s: PhrHeader, t: Span) {
    s.value == Ptr.At(t.off) && s.valueLen == t.len
  }

  /** Writes that go name, value, name, value, slot after slot. */
  ghost predicate InOrder(log: seq<Write>) {
    forall k :: 0 <= k < |log| ==> log[k].i == k / 2 && (log[k].Name? <==> k % 2 == 0)
  }

  /** The slot for header `i` after the writes of a log: what was written to it, and otherwise
      what it held before. */
  ghost predicate SlotHolds(s: PhrHeader, before: PhrHeader, log: seq<Write>, i: nat)
    requires InOrder(log)
  {
    && (if 2 * i < |log| then PointsAtName(s, log[2 * i].name)
        else s.name == before.name && s.nameLen == before.nameLen)
    && (if 2 * i + 1 < |log| then PointsAtValue(s, log[2 * i + 1].value)
        else s.value == before.value && s.valueLen == before.valueLen)
  }

  lemma FollowsInOrder(buf: seq<byte>, log: seq<Write>, max: nat)
    requires Follows(buf, log, 0, max, 0)
    ensures InOrder(log)
  {
    forall k | 0 <= k < |log| ensures log[k].i == k / 2 && (log[k].Name? <==> k % 2 == 0) {
      SlotsInOrder(buf, log, 0, max, 0, k / 2);
    }
  }

  lemma {:induction false} SlotsHold(slots: seq<PhrHeader>, log: seq<Write>)
    requires InOrder(log)
    ensures forall i :: 0 <= i < |slots| ==> SlotHolds(Apply(slots, log)[i], slots[i], log, i)
    decreases |log|
  {
    if log != [] {
      var most := log[..|log| - 1];
      SlotsHold(slots, most);
    }
  }

  // Reading the array.

  /** One slot read through its two pointers and lengths, if they lie in the input. */
  function ReadSlot(buf: seq<byte>, s: PhrHeader): Option<Field> {
    if s.value.At? && s.value.off + s.valueLen <= |buf| then
      var value := buf[s.value.off..s.value.off + s.valueLen];
      if s.name == Null && s.nameLen == 0 then Some(Field(None, value))
      else if s.name.At? && s.name.off + s.nameLen <= |buf| then
        Some(Field(Some(buf[s.name.off..s.name.off + s.nameLen]), value))
      else None
    else None
  }

  /** The first slots of the array read as these headers. */
  ghost predicate ReadSlots(buf: seq<byte>, slots: seq<PhrHeader>, fields: seq<Field>) {
    |fields| <= |slots| && forall i :: 0 <= i < |fields| ==> ReadSlot(buf, slots[i]) == Some(fields[i])
  }

  lemma {:induction false} ReadBackAt(buf: seq<byte>, log: seq<Write>, n: nat, i: nat)
    requires 2 * n <= |log| && i < n
    ensures ReadBack(buf, log, n)[i] == Field(ReadName(buf, log[2 * i]), ReadValue(buf, log[2 * i + 1]))
  {
    if i < n - 1 {
      ReadBackAt(buf, log, n - 1, i);
    }
  }

  lemma SlotReads(buf: seq<byte>, s: PhrHeader, name: Write, value: Write)
    requires name.Name? && PointsAtName(s, name.name) && (name.name.Some? ==> Inside(buf, name.name.value))
    requires value.Value? && PointsAtValue(s, value.value) && Inside(buf, value.value)
    ensures ReadSlot(buf, s) == Some(Field(ReadName(buf, name), ReadValue(buf, value)))
  {
  }

  /** The array after a run reads as the writes of its completed headers do, and the slots its
      writes do not reach are untouched. */
  lemma LogReads(buf: seq<byte>, slots: seq<PhrHeader>, log: seq<Write>, max: nat)
    requires Follows(buf, log, 0, max, 0) && max <= |slots|
    ensures var n, after := |log| / 2, Apply(slots, log);
            && ReadSlots(buf, after, ReadBack(buf, log, n))
            && forall i :: n <= i < |slots| ==> InOrder(log) && SlotHolds(after[i], slots[i], log, i)
  {
    hide Follows, Apply, ReadBack, ReadSlot, ReadName, ReadValue;
    FollowsInOrder(buf, log, max);
    SlotsHold(slots, log);
    SpansFromOn(buf, log, 0, max, 0);
    var n, after := |log| / 2, Apply(slots, log);
    if n > 0 {
      SlotsInOrder(buf, log, 0, max, 0, n - 1);
    }
    forall i | 0 <= i < n ensures ReadSlot(buf, after[i]) == Some(ReadBack(buf, log, n)[i]) {
      assert SlotHolds(after[i], slots[i], log, i);
      ReadBackAt(buf, log, n, i);
      SlotReads(buf, after[i], log[2 * i], log[2 * i + 1]);
    }
  }

  // What any run over a block leaves.

  /** The slot of a line that is not complete: its name pair if the name is there. */
  ghost predicate SlotPending(buf: seq<byte>, q: nat, n: nat, max: nat, before: PhrHeader, after: PhrHeader) {
    && after.value == before.value && after.valueLen == before.valueLen
    && (forall name :: !Stops(buf, q, n, max) && NameBytes(buf, q, n, name) ==> PointsAtName(after, name))
    && ((Stops(buf, q, n, max) || forall name :: !NameBytes(buf, q, n, name)) ==> after == before)
  }

  /** The array after a block that starts at `p`, whatever the verdict. `lines` are all the
      complete lines there, up to the capacity; their slots read as they do. The next slot has the
      name of the line the run stopped in, if that is there, and keeps its value; all the other
      slots are as they were. */
  ghost predicate ArrayLeft(buf: seq<byte>, p: nat, max: nat, before: seq<PhrHeader>, after: seq<PhrHeader>,
                            count: nat, lines: seq<Header>)
  {
    var q := p + |PrintLines(lines)|;
    && ValidLines(lines, true) && q <= |buf| && buf[p..q] == PrintLines(lines)
    && (Stops(buf, q, count, max) || NoLine(buf, q, count == 0))
    && count == |lines| <= max && |after| == |before| && ReadSlots(buf, after, Meanings(lines))
    && (count < |before| ==> SlotPending(buf, q, count, max, before[count], after[count]))
    && forall i :: count < i < |before| ==> after[i] == before[i]
  }

  /** The writes of a line that is not complete. */
  ghost predicate TailIs(buf: seq<byte>, q: nat, n: nat, max: nat, tail: seq<Write>) {
    && (forall name :: !Stops(buf, q, n, max) && NameBytes(buf, q, n, name) ==> tail == [Name(n, name)])
    && ((Stops(buf, q, n, max) || forall name :: !NameBytes(buf, q, n, name)) ==> tail == [])
  }

  lemma TailWrites(buf: seq<byte>, q: nat, n: nat, max: nat)
    requires !Stops(buf, q, n, max) && HeaderLine(buf, q, n).res.Err?
    ensures NoLine(buf, q, n == 0) && TailIs(buf, q, n, max, HeaderLine(buf, q, n).log)
  {
    hide HeaderLine, NameBytes, HeadGrammar.At, ValidLine, PrintLine;
    forall h: Header | ValidLine(h, n == 0) ensures !HeadGrammar.At(buf, q, PrintLine(h)) {
      if HeadGrammar.At(buf, q, PrintLine(h)) {
        LineAtIsPrinted(buf, q, h);
        LineParses(buf, q, h, n);
      }
    }
    var log := HeaderLine(buf, q, n).log;
    forall name: Option<Span> | true ensures log == [Name(n, name)] <==> NameBytes(buf, q, n, name) {
      LineInProgress(buf, q, n, name);
    }
    LineInProgress(buf, q, n, None);
    if log != [] {
      assert log == [Name(n, log[0].name)];
    }
  }

  lemma TailPends(buf: seq<byte>, q: nat, n: nat, max: nat, all: seq<Write>, tail: seq<Write>, before: PhrHeader,
                  after: PhrHeader)
    requires |all| == 2 * n && |tail| <= 1 && TailIs(buf, q, n, max, tail)
    requires InOrder(all + tail) && SlotHolds(after, before, all + tail, n)
    ensures SlotPending(buf, q, n, max, before, after)
  {
    hide NameBytes, Stops;
    assert |tail| == 1 ==> (all + tail)[2 * n] == tail[0];
    forall name | !Stops(buf, q, n, max) && NameBytes(buf, q, n, name) ensures PointsAtName(after, name) {
      assert tail[0] == Name(n, name);
    }
  }

  /** The tail of a block's writes, where the block stopped. */
  lemma TailOf(buf: seq<byte>, q: nat, n: nat, max: nat, tail: seq<Write>)
    requires if Stops(buf, q, n, max) then tail == []
             else HeaderLine(buf, q, n).res.Err? && tail == HeaderLine(buf, q, n).log
    ensures |tail| <= 1 && TailIs(buf, q, n, max, tail) && (Stops(buf, q, n, max) || NoLine(buf, q, n == 0))
  {
    hide HeaderLine, NameBytes;
    if !Stops(buf, q, n, max) {
      LineInProgress(buf, q, n, None);
      TailWrites(buf, q, n, max);
    }
  }

  /** The slots from the last one on. */
  lemma SlotsBehind(buf: seq<byte>, q: nat, max: nat, all: seq<Write>, tail: seq<Write>, n: nat,
                    before: seq<PhrHeader>, after: seq<PhrHeader>)
    requires |all| == 2 * n && |tail| <= 1 && TailIs(buf, q, n, max, tail) && |after| == |before|
    requires InOrder(all + tail)
    requires forall i :: n <= i < |before| ==> SlotHolds(after[i], before[i], all + tail, i)
    ensures n < |before| ==> SlotPending(buf, q, n, max, before[n], after[n])
    ensures forall i :: n < i < |before| ==> after[i] == before[i]
  {
    hide TailIs, SlotPending, InOrder;
    if n < |before| {
      TailPends(buf, q, n, max, all, tail, before[n], after[n]);
    }
  }

  lemma BlockLeaves(buf: seq<byte>, p: nat, max: nat, before: seq<PhrHeader>) returns (lines: seq<Header>)
    requires p <= |buf| && max <= |before|
    ensures var log := Headers(buf, p, 0, max, []).log;
            ArrayLeft(buf, p, max, before, Apply(before, log), Completed(log), lines)
  {
    hide Headers, Apply, Follows, ReadBack, ValidLines, HeadGrammar.At, PrintLines, HeaderLine, Meanings, Stops,
         NameBytes, InOrder, NoLine, ReadSlots, SlotPending, SlotHolds, TailIs;
    var all, tail;
    lines, all, tail := BlockWrites(buf, p, 0, max, []);
    var q, n, log := p + |PrintLines(lines)|, |lines|, all + tail;
    TailOf(buf, q, n, max, tail);
    HeadersFollow(buf, p, max, []);
    FollowsInOrder(buf, log, max);
    LogReads(buf, before, log, max);
    SlotsBehind(buf, q, max, all, tail, n, before, Apply(before, log));
    ReadBackStays(buf, all, log, n);
    assert ReadBack(buf, [], 0) + Meanings(lines) == Meanings(lines) by {
      assert ReadBack(buf, [], 0) == [];
    }
    AtIsSlice(buf, p, PrintLines(lines));
  }
}
