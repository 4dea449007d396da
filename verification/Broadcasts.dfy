/** Event fan-out to WebSocket and SSE clients through bounded queues
    (services/dashboard_broadcaster.py, services/e2e_events.py). A dashboard client hears every message, a
    test-run subscriber only those of its instance; otherwise the two broadcasters follow one protocol. */
module Broadcasts {
  import opened Prelude

  const DASHBOARD_QUEUE_SIZE := 500
  const E2E_QUEUE_SIZE := 200

  datatype Message = Message(instance: int, payload: int)

  predicate Wants(topic: Option<int>, m: Message) {
    topic.None? || topic.value == m.instance
  }

  /** The messages a client with this topic is meant to hear, in order. */
  function Matching(topic: Option<int>, ms: seq<Message>): seq<Message> {
    if ms == [] then []
    else if Wants(topic, Last(ms)) then Matching(topic, Init(ms)) + [Last(ms)]
    else Matching(topic, Init(ms))
  }

  // ----- One client -----

  /** What a client has queued, what it has already consumed, and whether it is still subscribed. */
  datatype Stream = Stream(queue: seq<Message>, taken: seq<Message>, live: bool)

  datatype Happening = Said(message: Message) | Taken | Left

  const CONNECTED := Stream([], [], true)

  /** A message that finds the queue full drops the client; consuming goes on after that. */
  function Step(topic: Option<int>, capacity: nat, s: Stream, h: Happening): Stream {
    match h
    case Said(m) =>
      if !s.live || !Wants(topic, m) then s
      else if |s.queue| < capacity then s.(queue := s.queue + [m])
      else s.(live := false)
    case Taken => if s.queue == [] then s else Stream(s.queue[1..], s.taken + [s.queue[0]], s.live)
    case Left => s.(live := false)
  }

  function Run(topic: Option<int>, capacity: nat, log: seq<Happening>): Stream {
    if log == [] then CONNECTED else Step(topic, capacity, Run(topic, capacity, Init(log)), Last(log))
  }

  function Messages(log: seq<Happening>): seq<Message> {
    if log == [] then []
    else if Last(log).Said? then Messages(Init(log)) + [Last(log).message]
    else Messages(Init(log))
  }

  /** How many happenings the client lived through before the one that ended its subscription. */
  function Lived(topic: Option<int>, capacity: nat, log: seq<Happening>): (n: nat)
    ensures n <= |log|
  {
    if Run(topic, capacity, log).live then |log|
    else if Run(topic, capacity, Init(log)).live then |log| - 1
    else Lived(topic, capacity, Init(log))
  }

  /** What one happening adds to what a subscribed client hears. */
  lemma StepHears(topic: Option<int>, capacity: nat, s: Stream, h: Happening)
    requires s.live && |s.queue| <= capacity
    ensures var t := Step(topic, capacity, s, h);
            && |t.queue| <= capacity
            && t.taken + t.queue ==
               s.taken + s.queue + if t.live && h.Said? && Wants(topic, h.message) then [h.message] else []
  {
    match h
    case Said(m) => assert s.taken + (s.queue + [m]) == s.taken + s.queue + [m];
    case Taken => assert s.queue != [] ==> (s.taken + [s.queue[0]]) + s.queue[1..] == s.taken + s.queue;
    case Left =>
  }

  lemma MatchingGrows(topic: Option<int>, log: seq<Happening>)
    requires log != []
    ensures Matching(topic, Messages(log)) ==
            Matching(topic, Messages(Init(log))) +
            if Last(log).Said? && Wants(topic, Last(log).message) then [Last(log).message] else []
  {
    if Last(log).Said? {
      InitSnoc(Messages(Init(log)), Last(log).message);
    }
  }

  /** What a client has consumed followed by what it has queued is exactly the matching part of what was
      said from its connection to the end of its subscription. */
  lemma {:induction false} HearsASlice(topic: Option<int>, capacity: nat, log: seq<Happening>)
    ensures var s := Run(topic, capacity, log);
            s.taken + s.queue == Matching(topic, Messages(log[..Lived(topic, capacity, log)])) && |s.queue| <= capacity
  {
    if log != [] {
      HearsASlice(topic, capacity, Init(log));
      var s, n := Run(topic, capacity, Init(log)), Lived(topic, capacity, log);
      if s.live {
        assert log[..|log|] == log && Init(log)[..|log| - 1] == Init(log) == log[..|log| - 1];
        StepHears(topic, capacity, s, Last(log));
        MatchingGrows(topic, log);
      } else {
        assert Init(log)[..n] == log[..n];
      }
    }
  }

  /** A subscription ends exactly when the client leaves or a message it wants finds its queue full, and
      never resumes. */
  lemma {:induction false} EndsAtFirstFullQueue(topic: Option<int>, capacity: nat, log: seq<Happening>)
    ensures var n := Lived(topic, capacity, log);
            && (forall k :: 0 <= k <= |log| ==> (Run(topic, capacity, log[..k]).live <==> k <= n))
            && (n < |log| ==>
                  log[n].Left? || (log[n].Said? && Wants(topic, log[n].message)
                                   && |Run(topic, capacity, log[..n]).queue| == capacity))
  {
    assert log[..|log|] == log;
    if log != [] {
      EndsAtFirstFullQueue(topic, capacity, Init(log));
      HearsASlice(topic, capacity, Init(log));
      var n := Lived(topic, capacity, log);
      assert Init(log)[..|log| - 1] == Init(log) == log[..|log| - 1];
      forall k | 0 <= k < |log|
        ensures Run(topic, capacity, log[..k]).live <==> k <= n
      {
        assert Init(log)[..k] == log[..k];
      }
      if n < |log| - 1 {
        assert Init(log)[..n] == log[..n];
      }
    }
  }

  /** How much of what the client should have heard it has not consumed. */
  function Unconsumed(topic: Option<int>, capacity: nat, log: seq<Happening>): int {
    |Matching(topic, Messages(log))| - |Run(topic, capacity, log).taken|
  }

  lemma LiveBacklogIsQueued(topic: Option<int>, capacity: nat, log: seq<Happening>)
    requires Run(topic, capacity, log).live
    ensures Unconsumed(topic, capacity, log) == |Run(topic, capacity, log).queue| <= capacity
  {
    HearsASlice(topic, capacity, log);
    assert log[..|log|] == log;
  }

  lemma FullQueueOverflows(topic: Option<int>, capacity: nat, log: seq<Happening>)
    requires log != [] && Run(topic, capacity, Init(log)).live && !Run(topic, capacity, log).live && !Last(log).Left?
    ensures Unconsumed(topic, capacity, log) == capacity + 1
  {
    LiveBacklogIsQueued(topic, capacity, Init(log));
    InitSnoc(Messages(Init(log)), Last(log).message);
  }

  /** A client that does not leave keeps its subscription exactly as long as, at every moment, no more than
      the queue's capacity of what it should have heard is still unconsumed. */
  lemma KeptExactlyWhileWithinCapacity(topic: Option<int>, capacity: nat, log: seq<Happening>)
    requires Left !in log
    ensures Run(topic, capacity, log).live <==>
              forall k :: 0 <= k <= |log| ==> Unconsumed(topic, capacity, log[..k]) <= capacity
  {
    EndsAtFirstFullQueue(topic, capacity, log);
    var n := Lived(topic, capacity, log);
    assert log[..|log|] == log;
    forall k | 0 <= k <= n
      ensures Unconsumed(topic, capacity, log[..k]) <= capacity
    {
      LiveBacklogIsQueued(topic, capacity, log[..k]);
    }
    if n < |log| {
      assert log[n] in log;
      assert Init(log[..n + 1]) == log[..n];
      FullQueueOverflows(topic, capacity, log[..n + 1]);
      assert Unconsumed(topic, capacity, log[..n + 1]) == capacity + 1;
    }
  }

  // ----- By topic -----

  lemma {:induction false} NoTopicMatchesAt(ms: seq<Message>, i: nat)
    ensures |Matching(None, ms)| == |ms| && (i < |ms| ==> Matching(None, ms)[i] == ms[i])
  {
    if ms != [] {
      NoTopicMatchesAt(Init(ms), i);
    }
  }

  /** A client without a topic is meant to hear everything. */
  lemma NoTopicMatchesAll(ms: seq<Message>)
    ensures Matching(None, ms) == ms
  {
    forall i: nat ensures |Matching(None, ms)| == |ms| && (i < |ms| ==> Matching(None, ms)[i] == ms[i]) {
      NoTopicMatchesAt(ms, i);
    }
    SameElements(Matching(None, ms), ms);
  }

  lemma SameElements(s: seq<Message>, t: seq<Message>)
    requires |s| == |t| && forall i: nat :: i < |t| ==> s[i] == t[i]
    ensures s == t
  {
  }

  function IsOf(instance: int): Message -> bool {
    (m: Message) => m.instance == instance
  }

  /** What a subscriber of an instance is meant to hear, in order, is the messages of that instance. */
  ghost predicate PicksInstance(ms: seq<Message>, instance: int, ps: seq<int>, picked: seq<Message>) {
    && PositionsOf(ms, IsOf(instance), ps)
    && |picked| == |ps| && forall a :: 0 <= a < |ps| ==> 0 <= ps[a] < |ms| && picked[a] == ms[ps[a]]
  }

  lemma {:induction false} TopicPicksAt(instance: int, ms: seq<Message>, a: nat)
    ensures |Matching(Some(instance), ms)| == |Positions(ms, IsOf(instance))|
    ensures a < |Positions(ms, IsOf(instance))| ==>
              var k := Positions(ms, IsOf(instance))[a]; 0 <= k < |ms| && Matching(Some(instance), ms)[a] == ms[k]
  {
    if ms != [] {
      TopicPicksAt(instance, Init(ms), a);
    }
  }

  lemma TopicPicksItsInstance(instance: int, ms: seq<Message>)
    ensures PicksInstance(ms, instance, Positions(ms, IsOf(instance)), Matching(Some(instance), ms))
  {
    PositionsAre(ms, IsOf(instance));
    forall a: nat
      ensures |Matching(Some(instance), ms)| == |Positions(ms, IsOf(instance))|
      ensures a < |Positions(ms, IsOf(instance))| ==>
                var k := Positions(ms, IsOf(instance))[a]; 0 <= k < |ms| && Matching(Some(instance), ms)[a] == ms[k]
    {
      TopicPicksAt(instance, ms, a);
    }
  }

  // ----- Removing by index, from the back -----

  /** What is left of s from position a on once the listed positions are gone. */
  function Kept<T>(s: seq<T>, dead: seq<int>, a: nat): seq<T>
    decreases |s| - a
  {
    if a >= |s| then []
    else if a in dead then Kept(s, dead, a + 1)
    else [s[a]] + Kept(s, dead, a + 1)
  }

  lemma {:induction false} KeptWhole<T>(s: seq<T>, dead: seq<int>, a: nat, b: nat)
    requires a <= b <= |s| && forall i :: a <= i < b ==> i !in dead
    ensures Kept(s, dead, a) == s[a..b] + Kept(s, dead, b)
    decreases b - a
  {
    if a < b {
      KeptWhole(s, dead, a + 1, b);
    }
  }

  /** The kept elements are those at the other positions. */
  lemma {:induction false} KeptHolds<T>(s: seq<T>, dead: seq<int>, a: nat, x: T)
    ensures x in Kept(s, dead, a) <==> exists i :: a <= i < |s| && i !in dead && s[i] == x
    decreases |s| - a
  {
    if a < |s| {
      var rest := Kept(s, dead, a + 1);
      KeptHolds(s, dead, a + 1, x);
      if a !in dead {
        assert x in [s[a]] + rest <==> x == s[a] || x in rest;
      }
    }
  }

  lemma {:induction false} KeptKeepsDistinct<T>(s: seq<T>, dead: seq<int>, a: nat)
    requires NoDup(s)
    ensures NoDup(Kept(s, dead, a))
    decreases |s| - a
  {
    if a < |s| {
      KeptKeepsDistinct(s, dead, a + 1);
      KeptHolds(s, dead, a + 1, s[a]);
    }
  }

  /** Popping ascending positions from the last to the first leaves the others in their order. */
  method PopDead<T>(s: seq<T>, dead: seq<int>) returns (rest: seq<T>)
    requires forall i :: 0 <= i < |dead| ==> 0 <= dead[i] < |s|
    requires forall i, j :: 0 <= i < j < |dead| ==> dead[i] < dead[j]
    ensures rest == Kept(s, dead, 0)
  {
    rest := s;
    var k := |dead|;
    ghost var p := |s|;
    while k > 0
      invariant 0 <= k <= |dead| && 0 <= p <= |s| && p == if k < |dead| then dead[k] else |s|
      invariant rest == s[..p] + Kept(s, dead, p)
    {
      k := k - 1;
      var idx := dead[k];
      KeptWhole(s, dead, idx + 1, p);
      rest := rest[..idx] + rest[idx + 1..];
      p := idx;
    }
    KeptWhole(s, dead, 0, p);
  }

  function Others<T(==)>(s: seq<T>, x: T): seq<T> {
    if s == [] then []
    else if Last(s) != x then Others(Init(s), x) + [Last(s)]
    else Others(Init(s), x)
  }

  lemma {:induction false} OthersHold<T>(s: seq<T>, x: T)
    ensures forall y :: y in Others(s, x) <==> y in s && y != x
    ensures NoDup(s) ==> NoDup(Others(s, x))
    ensures InOrder(Others(s, x), s)
  {
    if s != [] {
      OthersHold(Init(s), x);
      InitSnoc(Others(Init(s), x), Last(s));
      assert Init(s) + [Last(s)] == s;
      if NoDup(s) {
        assert Last(s) !in Init(s);
      }
    }
  }

  // ----- The broadcaster -----

  /** The log heard everything broadcast since the client connected and accounts for its state. */
  ghost predicate Tracks(topic: Option<int>, capacity: nat, since: nat, history: seq<Message>, log: seq<Happening>,
                         s: Stream)
  {
    since <= |history| && Messages(log) == history[since..] && s == Run(topic, capacity, log)
  }

  lemma TracksMessage(topic: Option<int>, capacity: nat, since: nat, history: seq<Message>, log: seq<Happening>,
                      s: Stream, m: Message)
    requires Tracks(topic, capacity, since, history, log, s)
    ensures Tracks(topic, capacity, since, history + [m], log + [Said(m)], Step(topic, capacity, s, Said(m)))
  {
    InitSnoc(log, Said(m));
    assert (history + [m])[since..] == history[since..] + [m];
  }

  lemma {:induction false} MessagesUpTo(log: seq<Happening>, k: nat)
    requires k <= |log|
    ensures Messages(log[..k]) <= Messages(log)
    ensures k < |log| && log[k].Said? ==>
              |Messages(log[..k])| < |Messages(log)| && Messages(log)[|Messages(log[..k])|] == log[k].message
    decreases |log|
  {
    if k == |log| {
      assert log[..k] == log;
    } else {
      MessagesUpTo(Init(log), k);
      assert Init(log)[..k] == log[..k];
    }
  }

  /** What a client has consumed and queued is the matching part of one stretch of the broadcast history,
      from its connection to now or, if it no longer is subscribed, to where it left or to the first
      message that found its queue full. */
  lemma HearsContiguousHistory(topic: Option<int>, capacity: nat, since: nat, history: seq<Message>,
                               log: seq<Happening>, s: Stream) returns (end: nat)
    requires Tracks(topic, capacity, since, history, log, s)
    ensures since <= end <= |history| && s.taken + s.queue == Matching(topic, history[since..end])
    ensures s.live ==> end == |history|
    ensures !s.live ==>
              var n := Lived(topic, capacity, log);
              && n < |log| && Messages(log[..n]) == history[since..end]
              && (log[n] == Left || (end < |history| && log[n] == Said(history[end]) && Wants(topic, history[end])
                                     && |Run(topic, capacity, log[..n]).queue| == capacity))
  {
    var n := Lived(topic, capacity, log);
    HearsASlice(topic, capacity, log);
    EndsAtFirstFullQueue(topic, capacity, log);
    MessagesUpTo(log, n);
    end := since + |Messages(log[..n])|;
    assert Messages(log[..n]) == Messages(log)[..end - since] == history[since..end];
    if s.live {
      assert log[..n] == log;
    }
  }

  /** Who hears what: a dashboard client has consumed and queued every message of its stretch of the history; a
      subscriber of an instance exactly that instance's messages of it, in order. */
  lemma HearsItsTopic(topic: Option<int>, capacity: nat, since: nat, history: seq<Message>, log: seq<Happening>, s: Stream)
    returns (end: nat, ps: seq<int>)
    requires Tracks(topic, capacity, since, history, log, s)
    ensures since <= end <= |history| && (s.live ==> end == |history|)
    ensures topic.None? ==> s.taken + s.queue == history[since..end]
    ensures topic.Some? ==> PicksInstance(history[since..end], topic.value, ps, s.taken + s.queue)
  {
    end := HearsContiguousHistory(topic, capacity, since, history, log, s);
    ps := [];
    NoTopicMatchesAll(history[since..end]);
    if topic.Some? {
      ps := Positions(history[since..end], IsOf(topic.value));
      TopicPicksItsInstance(topic.value, history[since..end]);
    }
  }

  class Client {
    const topic: Option<int>
    const capacity: nat
    var queue: seq<Message>
    ghost var taken: seq<Message>
    ghost var log: seq<Happening>
    /** How many messages had been broadcast when the client connected. */
    ghost const since: nat

    constructor (topic: Option<int>, capacity: nat, ghost since: nat)
      ensures this.topic == topic && this.capacity == capacity && this.since == since
      ensures queue == [] && taken == [] && log == []
    {
      this.topic, this.capacity, this.since := topic, capacity, since;
      queue, taken, log := [], [], [];
    }

    predicate IsFullFor(m: Message)
      reads this
    {
      Wants(topic, m) && |queue| >= capacity
    }

    ghost function Offered(m: Message): seq<Message>
      reads this
    {
      if Wants(topic, m) && |queue| < capacity then queue + [m] else queue
    }

    ghost function State(live: bool): Stream
      reads this
    {
      Stream(queue, taken, live)
    }

    /** Queues the message if the client wants it and there is room. */
    method TryPut(m: Message) returns (full: bool)
      modifies this`queue
      ensures queue == old(Offered(m)) && full == old(IsFullFor(m))
    {
      if Wants(topic, m) {
        if |queue| < capacity {
          queue := queue + [m];
        } else {
          return true;
        }
      }
      return false;
    }

    /** The client's state is what its own log makes of it, and that log heard everything broadcast since
        it connected. */
    ghost predicate Follows(history: seq<Message>, live: bool)
      reads this
    {
      Tracks(topic, capacity, since, history, log, State(live))
    }
  }

  predicate IsSet(flag: bool) {
    flag
  }

  /** The positions before n with a flag, in ascending order. */
  ghost predicate Flagged(flags: seq<bool>, n: int, dead: seq<int>)
    requires 0 <= n <= |flags|
  {
    dead == Positions(flags[..n], IsSet)
  }

  lemma FlaggedGrows(flags: seq<bool>, n: int, dead: seq<int>)
    requires 0 <= n < |flags| && Flagged(flags, n, dead)
    ensures Flagged(flags, n + 1, if flags[n] then dead + [n] else dead)
  {
    assert Init(flags[..n + 1]) == flags[..n];
    assert dead + [] == dead;
  }

  /** Which subscribers have no room for a message they want. */
  ghost function FullFlags(subscribers: seq<Client>, m: Message): (flags: seq<bool>)
    reads subscribers
    ensures |flags| == |subscribers| && forall i :: 0 <= i < |flags| ==> flags[i] == subscribers[i].IsFullFor(m)
  {
    seq(|subscribers|, i requires 0 <= i < |subscribers| reads subscribers => subscribers[i].IsFullFor(m))
  }

  /** The subscribers whose queue has no room for a message they want, by position in ascending order. */
  ghost predicate ListsFull(dead: seq<int>, subscribers: seq<Client>, m: Message)
    reads subscribers
  {
    Flagged(FullFlags(subscribers, m), |subscribers|, dead)
  }

  /** Puts the message on every matching queue with room; returns the positions of those without. */
  method Offer(subscribers: seq<Client>, m: Message) returns (dead: seq<int>)
    requires NoDup(subscribers)
    modifies subscribers`queue
    ensures old(ListsFull(dead, subscribers, m))
    ensures forall i :: 0 <= i < |subscribers| ==> subscribers[i].queue == old(subscribers[i].Offered(m))
  {
    dead := [];
    ghost var flags := FullFlags(subscribers, m);
    for idx := 0 to |subscribers|
      invariant Flagged(flags, idx, dead)
      invariant forall i :: 0 <= i < idx ==> subscribers[i].queue == old(subscribers[i].Offered(m))
      invariant forall i :: idx <= i < |subscribers| ==> subscribers[i].queue == old(subscribers[i].queue)
    {
      FlaggedGrows(flags, idx, dead);
      var full := subscribers[idx].TryPut(m);
      if full {
        dead := dead + [idx];
      }
    }
  }

  class Broadcaster {
    const capacity: nat
    var subscribers: seq<Client>
    ghost var clients: set<Client>
    ghost var history: seq<Message>

    ghost predicate Valid()
      reads this, clients
    {
      && NoDup(subscribers) && (forall c :: c in subscribers ==> c in clients)
      && (forall c :: c in clients ==> c.capacity == capacity && c.Follows(history, c in subscribers))
    }

    /** Clients of the dashboard connect without a topic. */
    constructor Dashboard()
      ensures Valid() && subscribers == [] && clients == {} && history == [] && capacity == 500
    {
      capacity := DASHBOARD_QUEUE_SIZE;
      subscribers, clients, history := [], {}, [];
    }

    /** Subscribers to test runs connect with the instance as topic. */
    constructor EndToEnd()
      ensures Valid() && subscribers == [] && clients == {} && history == [] && capacity == 200
    {
      capacity := E2E_QUEUE_SIZE;
      subscribers, clients, history := [], {}, [];
    }

    method Connect(topic: Option<int>) returns (c: Client)
      requires Valid()
      modifies this`subscribers, this`clients
      ensures Valid() && fresh(c) && c.topic == topic && c.since == |history| && c.queue == [] && c.log == []
      ensures subscribers == old(subscribers) + [c] && clients == old(clients) + {c}
    {
      c := new Client(topic, capacity, |history|);
      subscribers := subscribers + [c];
      clients := clients + {c};
    }

    /** The oldest queued message; a client with nothing queued waits. */
    method Take(c: Client) returns (m: Message)
      requires Valid() && c in clients && c.queue != []
      modifies c`queue, c`taken, c`log
      ensures Valid() && m == old(c.queue)[0] && c.queue == old(c.queue)[1..]
      ensures c.taken == old(c.taken) + [m] && c.log == old(c.log) + [Taken]
    {
      m := c.queue[0];
      c.queue := c.queue[1..];
      c.taken := c.taken + [m];
      InitSnoc(c.log, Taken);
      c.log := c.log + [Taken];
    }
  
    /** A client that leaves is taken off the list; the others stay in their order. */
    method Disconnect(c: Client)
      requires Valid() && c in clients
      modifies this`subscribers, c`log
      ensures Valid() && c.log == old(c.log) + [Left]
      ensures subscribers == Others(old(subscribers), c) && InOrder(subscribers, old(subscribers))
      ensures forall d :: d in subscribers <==> d in old(subscribers) && d != c
    {
      var rest: seq<Client> := [];
      for n := 0 to |subscribers|
        invariant rest == Others(subscribers[..n], c)
      {
        assert Init(subscribers[..n + 1]) == subscribers[..n];
        if subscribers[n] != c {
          rest := rest + [subscribers[n]];
        }
      }
      assert subscribers[..|subscribers|] == subscribers;
      OthersHold(subscribers, c);
      subscribers := rest;
      InitSnoc(c.log, Left);
      c.log := c.log + [Left];
    }

    /** Offers the message to the subscribers; returns those that remain. */
    method Deliver(m: Message) returns (rest: seq<Client>, ghost full: seq<int>)
      requires Valid()
      modifies clients`queue
      ensures old(ListsFull(full, subscribers, m)) && rest == Kept(subscribers, full, 0) && NoDup(rest)
      ensures forall c :: c in rest ==> c in subscribers
      ensures forall c :: c in clients ==>
                            && c.queue == (if c in subscribers then old(c.Offered(m)) else old(c.queue))
                            && (c in rest <==> c in subscribers && !old(c.IsFullFor(m)))
                            && c.State(c in rest) == Step(c.topic, capacity, old(c.State(c in subscribers)), Said(m))
    {
      ghost var flags := FullFlags(subscribers, m);
      assert flags[..|flags|] == flags;
      PositionsAre(flags, IsSet);
      var dead := Offer(subscribers, m);
      full := dead;
      rest := PopDead(subscribers, dead);
      KeptKeepsDistinct(subscribers, dead, 0);
      forall c | c in rest
        ensures c in subscribers
      {
        KeptHolds(subscribers, dead, 0, c);
      }
      forall c | c in clients
        ensures c in rest <==> c in subscribers && !old(c.IsFullFor(m))
      {
        KeptHolds(subscribers, dead, 0, c);
      }
      forall c | c in clients
        ensures c.queue == if c in subscribers then old(c.Offered(m)) else old(c.queue)
      {
        if c in subscribers {
          var i :| 0 <= i < |subscribers| && subscribers[i] == c;
        }
      }
    }

    /** Offers the message to every subscriber it matches and drops exactly those whose queue was full. */
    method Broadcast(m: Message) returns (ghost full: seq<int>)
      requires Valid()
      modifies this`subscribers, this`history, clients
      ensures Valid() && clients == old(clients) && history == old(history) + [m]
      ensures old(ListsFull(full, subscribers, m)) && subscribers == Kept(old(subscribers), full, 0)
      ensures forall c :: c in clients ==> c.log == old(c.log) + [Said(m)] && c.taken == old(c.taken)
      ensures forall c :: c in clients ==> c.queue == if c in old(subscribers) then old(c.Offered(m)) else old(c.queue)
    {
      var rest;
      rest, full := Deliver(m);
      forall c | c in clients
        ensures Tracks(c.topic, c.capacity, c.since, history + [m], c.log + [Said(m)], c.State(c in rest))
      {
        TracksMessage(c.topic, c.capacity, c.since, history, c.log, old(c.State(c in subscribers)), m);
      }
      forall c | c in clients {
        c.log := c.log + [Said(m)];
      }
      subscribers := rest;
      history := history + [m];
    }
  }
}
