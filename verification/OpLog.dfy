/** The operator log: a bounded ring of records polled incrementally by sequence number
    (services/matter_debug.py). */
module OpLog {
  import opened Prelude

  /** A logged line; text stands for everything but the number. */
  datatype Record = Record(number: nat, text: string)

  ghost predicate Increasing(s: seq<Record>) {
    forall i, j :: 0 <= i < j < |s| ==> s[i].number < s[j].number
  }

  // ----- What one poll returns -----

  /** The newest records the ring still holds. */
  function Held(emitted: seq<Record>, capacity: nat): seq<Record> {
    if |emitted| <= capacity then emitted else emitted[|emitted| - capacity..]
  }

  function Newer(s: seq<Record>, since: int): seq<Record> {
    if s == [] then []
    else if Last(s).number > since then Newer(Init(s), since) + [Last(s)]
    else Newer(Init(s), since)
  }

  /** The slice from minus limit on: the last limit records, all of them for 0, and for a negative limit
      all but that many at the front. */
  function FromMinus(s: seq<Record>, limit: int): seq<Record> {
    if limit > 0 then (if limit >= |s| then s else s[|s| - limit..])
    else if -limit >= |s| then []
    else s[-limit..]
  }

  function Polled(emitted: seq<Record>, capacity: nat, since: int, limit: int): seq<Record> {
    FromMinus(Newer(Held(emitted, capacity), since), limit)
  }

  /** How many records are numbered up to the cursor. */
  function Behind(s: seq<Record>, since: int): (k: nat)
    ensures k <= |s|
  {
    if s == [] then 0
    else if Last(s).number > since then Behind(Init(s), since)
    else |s|
  }

  lemma {:induction false} BehindSplits(s: seq<Record>, since: int)
    requires Increasing(s)
    ensures forall i :: 0 <= i < |s| ==> (s[i].number <= since <==> i < Behind(s, since))
  {
    if s != [] {
      BehindSplits(Init(s), since);
      forall i | 0 <= i < |s|
        ensures s[i].number <= since <==> i < Behind(s, since)
      {
        if i < |s| - 1 {
          assert Init(s)[i] == s[i] && s[i].number < Last(s).number;
        }
      }
    }
  }

  lemma {:induction false} NewerIsWhatFollows(s: seq<Record>, since: int)
    requires Increasing(s)
    ensures Newer(s, since) == s[Behind(s, since)..]
  {
    if s != [] {
      NewerIsWhatFollows(Init(s), since);
      if Last(s).number <= since {
        assert |s| > 1 ==> Last(Init(s)).number < Last(s).number;
        NothingNewer(Init(s), since);
      } else {
        TailOfSnoc(Init(s), Last(s), Behind(Init(s), since));
        assert Init(s) + [Last(s)] == s;
      }
    }
  }

  lemma NothingNewer(s: seq<Record>, since: int)
    requires s != [] ==> Last(s).number <= since
    requires Newer(s, since) == s[Behind(s, since)..]
    ensures Newer(s, since) == []
  {
  }

  lemma TailOfSnoc(s: seq<Record>, x: Record, k: nat)
    requires k <= |s|
    ensures (s + [x])[k..] == s[k..] + [x]
  {
  }

  /** The first position past both the cursor and the records the ring has dropped. */
  function FirstHeld(emitted: seq<Record>, capacity: nat, since: int): (p: nat)
    ensures p <= |emitted|
  {
    var k := Behind(emitted, since);
    if k + capacity < |emitted| then |emitted| - capacity else k
  }

  /** The first of the positions a and on that the limit leaves, of m in all. */
  function FirstWithin(m: nat, a: nat, limit: int): (p: nat)
    requires a <= m
    ensures a <= p <= m
  {
    if limit > 0 then (if a + limit < m then m - limit else a)
    else if a - limit < m then a - limit
    else m
  }

  /** The first position a poll reports. */
  function Start(emitted: seq<Record>, capacity: nat, since: int, limit: int): (p: nat)
    ensures p <= |emitted|
  {
    FirstWithin(|emitted|, FirstHeld(emitted, capacity, since), limit)
  }

  lemma DropDrop(s: seq<Record>, a: nat, b: nat)
    requires a + b <= |s|
    ensures s[a..][b..] == s[a + b..]
  {
  }

  lemma BehindOfTail(s: seq<Record>, a: nat, since: int)
    requires Increasing(s) && a <= |s|
    ensures a + Behind(s[a..], since) == if Behind(s, since) < a then a else Behind(s, since)
  {
    BehindSplits(s, since);
    BehindSplits(s[a..], since);
    var h := Behind(s[a..], since);
    if h > 0 {
      assert s[a..][h - 1] == s[a + h - 1];
    }
    if h < |s| - a {
      assert s[a..][h] == s[a + h];
    }
  }

  lemma NewerOfATail(s: seq<Record>, a: nat, since: int)
    requires Increasing(s) && a <= |s|
    ensures Newer(s[a..], since) == s[if Behind(s, since) < a then a else Behind(s, since)..]
  {
    BehindOfTail(s, a, since);
    NewerIsWhatFollows(s[a..], since);
    DropDrop(s, a, Behind(s[a..], since));
  }

  lemma HeldNewerIsATail(emitted: seq<Record>, capacity: nat, since: int)
    requires Increasing(emitted)
    ensures Newer(Held(emitted, capacity), since) == emitted[FirstHeld(emitted, capacity, since)..]
  {
    var a := if |emitted| <= capacity then 0 else |emitted| - capacity;
    NewerOfATail(emitted, a, since);
    assert emitted[a..] == Held(emitted, capacity);
  }

  lemma FromMinusOfATail(s: seq<Record>, a: nat, limit: int)
    requires a <= |s|
    ensures FromMinus(s[a..], limit) == s[FirstWithin(|s|, a, limit)..]
  {
    var p := FirstWithin(|s|, a, limit);
    DropDrop(s, a, p - a);
  }

  /** A poll reports a stretch up to the newest record, past the cursor, as far back as the ring, and the
      limit, allow. */
  lemma PollIsASuffix(emitted: seq<Record>, capacity: nat, since: int, limit: int)
    requires Increasing(emitted)
    ensures Polled(emitted, capacity, since, limit) == emitted[Start(emitted, capacity, since, limit)..]
    ensures Start(emitted, capacity, since, limit) >= Behind(emitted, since)
  {
    HeldNewerIsATail(emitted, capacity, since);
    FromMinusOfATail(emitted, FirstHeld(emitted, capacity, since), limit);
  }

  /** How many new records a poll can take without losing any. */
  function Allowance(capacity: nat, limit: int): nat {
    if limit > 0 then (if limit < capacity then limit else capacity) else if limit == 0 then capacity else 0
  }

  lemma StartsAtTheCursor(emitted: seq<Record>, capacity: nat, since: int, limit: int)
    ensures Start(emitted, capacity, since, limit) == Behind(emitted, since) <==>
            |emitted| - Behind(emitted, since) <= Allowance(capacity, limit)
  {
  }

  /** A poll reports every record past the cursor exactly when no more than its allowance has arrived: what the ring
      holds, and no more than a positive limit; with a negative limit, nothing. */
  lemma PollIsCompleteExactlyWithinAllowance(emitted: seq<Record>, capacity: nat, since: int, limit: int)
    requires Increasing(emitted)
    ensures var arrived := |emitted| - Behind(emitted, since);
            Polled(emitted, capacity, since, limit) == emitted[Behind(emitted, since)..] <==>
            arrived <= capacity && (limit > 0 ==> arrived <= limit) && (limit < 0 ==> arrived == 0)
  {
    PollIsASuffix(emitted, capacity, since, limit);
    StartsAtTheCursor(emitted, capacity, since, limit);
    TailsDiffer(emitted, Start(emitted, capacity, since, limit), Behind(emitted, since));
  }

  lemma TailsDiffer(s: seq<Record>, a: nat, b: nat)
    requires a <= |s| && b <= |s|
    ensures s[a..] == s[b..] <==> a == b
  {
    if s[a..] == s[b..] {
      assert |s[a..]| == |s| - a && |s[b..]| == |s| - b;
    }
  }

  // ----- A client that feeds back the last number it saw -----

  /** A line is logged, a line is numbered but not stored because it could not be rendered, or the client
      polls with some limit. */
  datatype Happening = Emit(text: string) | Lose | Poll(limit: int)

  /** The emitted records, the last number given out, the client's cursor, and all it was sent. */
  datatype Watch = Watch(emitted: seq<Record>, lastNumber: nat, cursor: nat, received: seq<Record>)

  const QUIET := Watch([], 0, 0, [])

  function Cursor(records: seq<Record>, since: nat): nat {
    if records == [] then since else Last(records).number
  }

  function Step(capacity: nat, w: Watch, h: Happening): Watch {
    match h
    case Emit(text) => w.(emitted := w.emitted + [Record(w.lastNumber + 1, text)], lastNumber := w.lastNumber + 1)
    case Lose => w.(lastNumber := w.lastNumber + 1)
    case Poll(limit) =>
      var records := Polled(w.emitted, capacity, w.cursor, limit);
      w.(cursor := Cursor(records, w.cursor), received := w.received + records)
  }

  function Run(capacity: nat, hs: seq<Happening>): Watch {
    if hs == [] then QUIET else Step(capacity, Run(capacity, Init(hs)), Last(hs))
  }

  ghost predicate DrawnFrom(s: seq<Record>, t: seq<Record>) {
    forall i :: 0 <= i < |s| ==> s[i] in t
  }

  /** What holds of every watch: numbers ascend, and the client was sent increasing records up to its cursor. */
  ghost predicate Sound(w: Watch) {
    && Increasing(w.emitted) && (w.emitted != [] ==> Last(w.emitted).number <= w.lastNumber)
    && (w.emitted != [] ==> w.emitted[0].number >= 1)
    && Increasing(w.received) && DrawnFrom(w.received, w.emitted) && w.cursor == Cursor(w.received, 0)
  }

  lemma IncreasingConcat(s: seq<Record>, t: seq<Record>, middle: nat)
    requires Increasing(s) && Increasing(t)
    requires s != [] ==> Last(s).number <= middle
    requires forall j :: 0 <= j < |t| ==> middle < t[j].number
    ensures Increasing(s + t)
  {
    forall i | 0 <= i < |s|
      ensures s[i].number <= middle
    {
      assert s[i].number <= Last(s).number;
    }
  }

  lemma TailIsNew(emitted: seq<Record>, p: nat, since: int)
    requires Increasing(emitted) && Behind(emitted, since) <= p <= |emitted|
    ensures Increasing(emitted[p..]) && DrawnFrom(emitted[p..], emitted)
    ensures forall j :: 0 <= j < |emitted| - p ==> since < emitted[p..][j].number
  {
    BehindSplits(emitted, since);
  }

  lemma ReceivingKeepsSound(w: Watch, records: seq<Record>)
    requires Sound(w) && Increasing(records) && DrawnFrom(records, w.emitted)
    requires forall j :: 0 <= j < |records| ==> w.cursor < records[j].number
    ensures Sound(w.(cursor := Cursor(records, w.cursor), received := w.received + records))
  {
    IncreasingConcat(w.received, records, w.cursor);
    if records == [] {
      assert w.received + records == w.received;
    }
  }

  lemma PollKeepsSound(capacity: nat, w: Watch, limit: int)
    requires Sound(w)
    ensures Sound(Step(capacity, w, Poll(limit)))
  {
    PollIsASuffix(w.emitted, capacity, w.cursor, limit);
    TailIsNew(w.emitted, Start(w.emitted, capacity, w.cursor, limit), w.cursor);
    ReceivingKeepsSound(w, Polled(w.emitted, capacity, w.cursor, limit));
  }

  /** Whatever is emitted, lost and polled with whatever limits, what the client was sent is strictly
      increasing and was emitted. */
  lemma {:induction false} ReceivedIsASubsequence(capacity: nat, hs: seq<Happening>)
    ensures Sound(Run(capacity, hs))
  {
    if hs != [] {
      var w := Run(capacity, Init(hs));
      ReceivedIsASubsequence(capacity, Init(hs));
      match Last(hs)
      case Poll(limit) => PollKeepsSound(capacity, w, limit);
      case Emit(text) =>
      case Lose =>
    }
  }

  /** How many lines were logged, stored or not. */
  function Lines(hs: seq<Happening>): nat {
    if hs == [] then 0 else Lines(Init(hs)) + if Last(hs).Poll? then 0 else 1
  }

  /** A line's number is its place among all lines logged, those not stored included. */
  lemma {:induction false} NumbersCountEveryLine(capacity: nat, hs: seq<Happening>)
    ensures Run(capacity, hs).lastNumber == Lines(hs)
    ensures hs != [] && Last(hs).Emit? ==>
              Run(capacity, hs).emitted == Run(capacity, Init(hs)).emitted + [Record(Lines(hs), Last(hs).text)]
    ensures hs != [] && !Last(hs).Emit? ==> Run(capacity, hs).emitted == Run(capacity, Init(hs)).emitted
  {
    if hs != [] {
      NumbersCountEveryLine(capacity, Init(hs));
    }
  }

  /** The client's cursor leaves no more new records than a poll with this limit can take. */
  ghost predicate KeepsUp(capacity: nat, w: Watch, limit: int) {
    |w.emitted| - Behind(w.emitted, w.cursor) <= Allowance(capacity, limit)
  }

  /** No poll finds more new records than it can take. */
  ghost predicate AlwaysKeepsUp(capacity: nat, hs: seq<Happening>) {
    forall k :: 0 <= k < |hs| && hs[k].Poll? ==> KeepsUp(capacity, Run(capacity, hs[..k]), hs[k].limit)
  }

  lemma KeepsUpBefore(capacity: nat, hs: seq<Happening>)
    requires hs != [] && AlwaysKeepsUp(capacity, hs)
    ensures AlwaysKeepsUp(capacity, Init(hs))
    ensures Last(hs).Poll? ==> KeepsUp(capacity, Run(capacity, Init(hs)), Last(hs).limit)
  {
    assert forall k :: 0 <= k < |hs| - 1 ==> Init(hs)[..k] == hs[..k] && Init(hs)[k] == hs[k];
    assert hs[..|hs| - 1] == Init(hs);
  }

  /** The client has been sent exactly the records up to its cursor. */
  ghost predicate Complete(w: Watch) {
    w.received == w.emitted[..Behind(w.emitted, w.cursor)]
  }

  lemma PollStaysComplete(capacity: nat, w: Watch, limit: int)
    requires Increasing(w.emitted) && Complete(w) && KeepsUp(capacity, w, limit)
    ensures var v := Step(capacity, w, Poll(limit)); Complete(v) && v.received == v.emitted
  {
    var k := Behind(w.emitted, w.cursor);
    PollIsCompleteExactlyWithinAllowance(w.emitted, capacity, w.cursor, limit);
    CatchingUp(w, k);
  }

  lemma CatchingUp(w: Watch, k: nat)
    requires k == Behind(w.emitted, w.cursor) && w.received == w.emitted[..k]
    ensures var cursor := Cursor(w.emitted[k..], w.cursor);
            && w.received + w.emitted[k..] == w.emitted
            && Behind(w.emitted, cursor) == |w.emitted|
  {
  }

  lemma EmitStaysComplete(w: Watch, text: string)
    requires Sound(w) && Complete(w)
    ensures Complete(w.(emitted := w.emitted + [Record(w.lastNumber + 1, text)], lastNumber := w.lastNumber + 1))
  {
    InitSnoc(w.emitted, Record(w.lastNumber + 1, text));
    if w.received != [] {
      assert Last(w.received) in w.emitted;
      assert Last(w.received).number <= Last(w.emitted).number;
    }
  }

  lemma StepStaysComplete(capacity: nat, w: Watch, h: Happening)
    requires Sound(w) && Complete(w) && (h.Poll? ==> KeepsUp(capacity, w, h.limit))
    ensures Complete(Step(capacity, w, h))
    ensures h.Poll? ==> Step(capacity, w, h).received == Step(capacity, w, h).emitted
  {
    match h
    case Poll(limit) => PollStaysComplete(capacity, w, limit);
    case Emit(text) => EmitStaysComplete(w, text);
    case Lose =>
  }

  /** When every poll keeps up, nothing is lost or repeated: the client has been sent exactly what was
      emitted up to its cursor, and right after a poll that is everything. */
  lemma {:induction false} KeepingUpLosesNothing(capacity: nat, hs: seq<Happening>)
    requires AlwaysKeepsUp(capacity, hs)
    ensures Complete(Run(capacity, hs))
    ensures hs != [] && Last(hs).Poll? ==> Run(capacity, hs).received == Run(capacity, hs).emitted
  {
    if hs != [] {
      KeepsUpBefore(capacity, hs);
      KeepingUpLosesNothing(capacity, Init(hs));
      ReceivedIsASubsequence(capacity, Init(hs));
      StepStaysComplete(capacity, Run(capacity, Init(hs)), Last(hs));
    }
  }

  // ----- The ring -----

  lemma HeldAfterEmit(emitted: seq<Record>, capacity: nat, r: Record)
    ensures var held := Held(emitted, capacity);
            Held(emitted + [r], capacity) ==
              if capacity == 0 then [] else if |held| < capacity then held + [r] else held[1..] + [r]
  {
  }

  /** Where the i-th oldest record is stored. */
  function Slot(capacity: nat, head: nat, i: nat): nat {
    if head + i < capacity then head + i else head + i - capacity
  }

  /** The stored cells hold these records, oldest first. */
  ghost predicate RingHolds(cells: seq<Record>, head: nat, records: seq<Record>) {
    && |records| <= |cells| && (head < |cells| || head == 0) && (|records| < |cells| ==> head == 0)
    && forall i :: 0 <= i < |records| ==> cells[Slot(|cells|, head, i)] == records[i]
  }

  /** Writing over the oldest record of a full ring and moving on makes it the newest. */
  lemma RingTurns(cells: seq<Record>, head: nat, records: seq<Record>, r: Record)
    requires RingHolds(cells, head, records) && |records| == |cells| > 0
    ensures RingHolds(cells[head := r], if head + 1 == |cells| then 0 else head + 1, records[1..] + [r])
  {
    var next, turned, newest := if head + 1 == |cells| then 0 else head + 1, cells[head := r], records[1..] + [r];
    forall i | 0 <= i < |newest|
      ensures turned[Slot(|turned|, next, i)] == newest[i]
    {
      if i < |records| - 1 {
        assert Slot(|cells|, next, i) == Slot(|cells|, head, i + 1) != head;
        assert newest[i] == records[i + 1];
      } else {
        assert Slot(|cells|, next, i) == head;
      }
    }
  }

  lemma RingFills(cells: seq<Record>, head: nat, records: seq<Record>, r: Record)
    requires RingHolds(cells, head, records) && |records| < |cells|
    ensures RingHolds(cells[|records| := r], head, records + [r])
  {
  }

  /** A circular buffer; the oldest record sits at head once the buffer is full. */
  class OpLogHandler {
    const buf: array<Record>
    var head: nat
    var len: nat
    var lastNumber: nat
    ghost var emitted: seq<Record>

    /** The buffer holds these records, oldest first. */
    ghost predicate Holds(records: seq<Record>)
      reads this, buf
    {
      len == |records| && RingHolds(buf[..], head, records)
    }

    ghost predicate Valid()
      reads this, buf
    {
      Holds(Held(emitted, buf.Length))
    }

    constructor (capacity: nat)
      ensures Valid() && fresh(buf) && buf.Length == capacity && lastNumber == 0 && emitted == []
    {
      buf := new Record[capacity];
      head, len, lastNumber, emitted := 0, 0, 0, [];
    }

    /** Numbers the record first; a line that cannot be rendered leaves a gap. */
    method Emit(text: string, renders: bool)
      requires Valid()
      modifies this, buf
      ensures Valid() && lastNumber == old(lastNumber) + 1
      ensures emitted == if renders then old(emitted) + [Record(lastNumber, text)] else old(emitted)
    {
      lastNumber := lastNumber + 1;
      if !renders {
        return;
      }
      var r := Record(lastNumber, text);
      HeldAfterEmit(emitted, buf.Length, r);
      if len < buf.Length {
        Fill(r, Held(emitted, buf.Length));
      } else if buf.Length > 0 {
        Turn(r, Held(emitted, buf.Length));
      }
      emitted := emitted + [r];
    }

    /** Appends to a ring with room. */
    method Fill(r: Record, ghost held: seq<Record>)
      requires Holds(held) && |held| < buf.Length
      modifies this`len, buf
      ensures Holds(held + [r])
    {
      RingFills(buf[..], head, held, r);
      ghost var filled := buf[..][len := r];
      buf[len] := r;
      len := len + 1;
      assert buf[..] == filled;
    }

    /** Appends to a full ring, over the oldest record. */
    method Turn(r: Record, ghost held: seq<Record>)
      requires Holds(held) && |held| == buf.Length > 0
      modifies this`head, buf
      ensures Holds(held[1..] + [r])
    {
      RingTurns(buf[..], head, held, r);
      ghost var turned := buf[..][head := r];
      buf[head] := r;
      head := if head + 1 == buf.Length then 0 else head + 1;
      assert buf[..] == turned;
    }

    method Tail(since: int, limit: int) returns (records: seq<Record>)
      requires Valid()
      ensures records == Polled(emitted, buf.Length, since, limit)
    {
      ghost var held := Held(emitted, buf.Length);
      var out := [];
      for i := 0 to len
        invariant out == Newer(held[..i], since)
      {
        assert Init(held[..i + 1]) == held[..i] && Last(held[..i + 1]) == held[i];
        var r := buf[Slot(buf.Length, head, i)];
        if r.number > since {
          out := out + [r];
        }
      }
      assert held[..len] == held;
      return FromMinus(out, limit);
    }

    /** A poll: the new records, and the cursor to come back with. */
    method Poll(since: nat, limit: int) returns (records: seq<Record>, lastSeq: nat)
      requires Valid()
      ensures records == Polled(emitted, buf.Length, since, limit) && lastSeq == Cursor(records, since)
    {
      records := Tail(since, limit);
      lastSeq := if |records| > 0 then records[|records| - 1].number else since;
    }
  }
}
