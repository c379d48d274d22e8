/**
 The Pico's CAN receive ring: a buffer of frames with free-running 32-bit indices that
 drops its oldest frame when it is full.
 */
module CanRing {
  import opened Bytes
  import opened Codec

  // uint32_t arithmetic
  const WRAP := 0x1_0000_0000

  const RX_BUF := 32

  // ---- The ring ----

  datatype Ring = Ring(buf: seq<CanFrame>, head: nat, tail: nat, errors: nat)

  function Next(i: nat): nat {
    (i + 1) % WRAP
  }

  // The place in the buffer of an index.
  function Place(i: nat, cap: nat): (k: nat)
    requires cap > 0
    ensures k < cap
  {
    i % cap
  }

  function Count(r: Ring): nat {
    (r.head - r.tail) % WRAP
  }

  function DropIfFull(r: Ring): Ring {
    if Count(r) >= |r.buf| then r.(tail := Next(r.tail), errors := Next(r.errors)) else r
  }

  function Arrive(r: Ring, f: CanFrame): (out: Ring)
    requires r.buf != []
    ensures |out.buf| == |r.buf|
  {
    var d := DropIfFull(r);
    d.(buf := d.buf[Place(d.head, |d.buf|) := f], head := Next(d.head))
  }

  function ReadOldest(r: Ring): (out: (Option<CanFrame>, Ring))
    requires r.buf != []
    ensures out.1.buf == r.buf
  {
    if r.tail != r.head then (Some(r.buf[Place(r.tail, |r.buf|)]), r.(tail := Next(r.tail))) else (None, r)
  }

  // ---- The queue it stands for ----

  // Unread frames, frames read, and how many were dropped or lost to bus errors.
  datatype Queue = Queue(unread: seq<CanFrame>, read: seq<CanFrame>, dropped: nat, busErrors: nat)

  datatype Event = Frame(f: CanFrame) | BusError | Read

  function QueueStep(q: Queue, cap: nat, e: Event): Queue
    requires cap > 0
  {
    match e
    case Frame(f) =>
      if |q.unread| >= cap && q.unread != []
      then q.(unread := q.unread[1..] + [f], dropped := q.dropped + 1)
      else q.(unread := q.unread + [f])
    case BusError => q.(busErrors := q.busErrors + 1)
    case Read => if q.unread == [] then q else q.(unread := q.unread[1..], read := q.read + [q.unread[0]])
  }

  function QueueRun(cap: nat, es: seq<Event>): Queue
    requires cap > 0
    decreases |es|
  {
    if es == [] then Queue([], [], 0, 0)
    else QueueStep(QueueRun(cap, es[..|es| - 1]), cap, es[|es| - 1])
  }

  // The ring after the same events, and the frames it gave.
  function RingStep(s: (Ring, seq<CanFrame>), e: Event): (out: (Ring, seq<CanFrame>))
    requires s.0.buf != []
    ensures |out.0.buf| == |s.0.buf|
  {
    match e
    case Frame(f) => (Arrive(s.0, f), s.1)
    case BusError => (s.0.(errors := Next(s.0.errors)), s.1)
    case Read =>
      var r := ReadOldest(s.0);
      (r.1, if r.0.Some? then s.1 + [r.0.value] else s.1)
  }

  function RingRun(start: Ring, es: seq<Event>): (out: (Ring, seq<CanFrame>))
    requires start.buf != []
    ensures |out.0.buf| == |start.buf|
    decreases |es|
  {
    if es == [] then (start, [])
    else RingStep(RingRun(start, es[..|es| - 1]), es[|es| - 1])
  }

  // ---- The queue: newest frames, nothing lost count of ----

  function Arrived(es: seq<Event>): seq<CanFrame>
    decreases |es|
  {
    if es == [] then [] else
      var before := Arrived(es[..|es| - 1]);
      if es[|es| - 1].Frame? then before + [es[|es| - 1].f] else before
  }

  // At most `cap` frames are unread, they are the newest, and each frame that arrived
  // was read, dropped, or is unread.
  predicate Newest(q: Queue, arrived: seq<CanFrame>, cap: nat) {
    && |q.unread| <= cap
    && |arrived| == |q.read| + q.dropped + |q.unread|
    && q.unread == arrived[|arrived| - |q.unread|..]
  }

  lemma {:induction false} NewestUnread(cap: nat, es: seq<Event>)
    requires cap > 0
    ensures Newest(QueueRun(cap, es), Arrived(es), cap)
    decreases |es|
  {
    if es != [] {
      var before := es[..|es| - 1];
      NewestUnread(cap, before);
      hide Newest; hide QueueStep;
      NewestStep(QueueRun(cap, before), Arrived(before), cap, es[|es| - 1]);
    }
  }

  lemma NewestStep(p: Queue, b: seq<CanFrame>, cap: nat, e: Event)
    requires cap > 0 && Newest(p, b, cap)
    ensures Newest(QueueStep(p, cap, e), if e.Frame? then b + [e.f] else b, cap)
  {
    var n := |b| - |p.unread|;
    if e.Frame? {
      assert (b + [e.f])[n..] == p.unread + [e.f];
      assert (b + [e.f])[n..][1..] == (b + [e.f])[n + 1..];
    } else if p.unread != [] {
      assert b[n..][1..] == b[n + 1..];
    }
  }

  // Some frames of a sequence, in its order.
  predicate Within(some: seq<CanFrame>, all: seq<CanFrame>)
    decreases |all|
  {
    some == [] ||
    (all != [] &&
     (Within(some, all[..|all| - 1]) ||
      (some[|some| - 1] == all[|all| - 1] && Within(some[..|some| - 1], all[..|all| - 1]))))
  }

  lemma WithinMore(some: seq<CanFrame>, all: seq<CanFrame>, f: CanFrame)
    requires Within(some, all)
    ensures Within(some, all + [f]) && Within(some + [f], all + [f])
  {
    assert (all + [f])[..|all|] == all && (some + [f])[..|some|] == some;
  }

  // What is read are frames that arrived, in their order and none twice, all of them if
  // none was dropped.
  lemma {:induction false} ReadInOrder(cap: nat, es: seq<Event>)
    requires cap > 0
    ensures var q, all := QueueRun(cap, es), Arrived(es);
            && |q.unread| <= |all| && Within(q.read, all[..|all| - |q.unread|])
            && (q.dropped == 0 ==> q.read + q.unread == all)
    decreases |es|
  {
    if es != [] {
      var before, e := es[..|es| - 1], es[|es| - 1];
      ReadInOrder(cap, before);
      NewestUnread(cap, before);
      hide QueueRun; hide Arrived; hide Within;
      OrderStep(QueueRun(cap, before), Arrived(before), cap, e);
    }
  }

  lemma OrderStep(p: Queue, b: seq<CanFrame>, cap: nat, e: Event)
    requires cap > 0 && Newest(p, b, cap) && |p.unread| <= |b| && Within(p.read, b[..|b| - |p.unread|])
    requires p.dropped == 0 ==> p.read + p.unread == b
    ensures var q, all := QueueStep(p, cap, e), if e.Frame? then b + [e.f] else b;
            && |q.unread| <= |all| && Within(q.read, all[..|all| - |q.unread|])
            && (q.dropped == 0 ==> q.read + q.unread == all)
  {
    hide Within;
    var n := |b| - |p.unread|;
    if e.Frame? {
      assert (b + [e.f])[..n] == b[..n];
      if p.unread != [] {
        assert (b + [e.f])[..n + 1] == b[..n] + [b[n]];
        WithinMore(p.read, b[..n], b[n]);
      }
    } else if p.unread != [] {
      assert p.unread[0] == b[n];
      assert b[..n + 1] == b[..n] + [b[n]];
      WithinMore(p.read, b[..n], b[n]);
      assert p.read + [p.unread[0]] + p.unread[1..] == p.read + p.unread;
    }
  }

  // ---- Index arithmetic ----

  lemma MulAtLeast(k: nat, c: nat)
    requires k >= 1
    ensures k * c >= c
  {
    assert (k - 1) * c >= 0;
    assert k * c == (k - 1) * c + c;
  }

  lemma MulSmall(k: int, c: int)
    requires -c < k * c < c
    ensures k == 0
  {
    if k >= 1 {
      MulAtLeast(k, c);
    } else if k <= -1 {
      assert (-k) * c == -(k * c);
      MulAtLeast(-k, c);
    }
  }

  lemma ModUnique(x: nat, c: nat, q: nat, r: nat)
    requires c > 0 && r < c && x == q * c + r
    ensures x % c == r
  {
    assert x == (x / c) * c + x % c;
    assert (q - x / c) * c == q * c - (x / c) * c;
    MulSmall(q - x / c, c);
  }

  lemma ModMod(x: nat, c: nat)
    requires c > 0 && WRAP % c == 0
    ensures (x % WRAP) % c == x % c
  {
    var y, k, m := x % WRAP, x / WRAP, WRAP / c;
    assert WRAP == m * c;
    assert y == (y / c) * c + y % c;
    assert k * (m * c) == (k * m) * c;
    assert x == (k * m + y / c) * c + y % c;
    ModUnique(x, c, k * m + y / c, y % c);
  }

  lemma ModDistinct(i: nat, j: nat, c: nat)
    requires i < j < i + c
    ensures i % c != j % c
  {
    if i % c == j % c {
      assert i == (i / c) * c + i % c && j == (j / c) * c + j % c;
      assert (j / c - i / c) * c == (j / c) * c - (i / c) * c;
      MulSmall(j / c - i / c, c);
    }
  }

  lemma WrapDifference(h: nat, t: nat)
    requires t <= h < t + WRAP
    ensures (h % WRAP - t % WRAP) % WRAP == h - t
    ensures h % WRAP == t % WRAP <==> h == t
  {}

  // The place of the frame with a given number.
  function Slot(i: nat, cap: nat): (k: nat)
    requires cap > 0
    ensures k < cap
  {
    Place(i % WRAP, cap)
  }

  lemma SlotDistinct(i: nat, j: nat, cap: nat)
    requires i < j < i + cap
    requires WRAP % cap == 0 || j < WRAP
    ensures Slot(i, cap) != Slot(j, cap)
  {
    ModDistinct(i, j, cap);
    if WRAP % cap == 0 {
      ModMod(i, cap);
      ModMod(j, cap);
    }
  }

  lemma NextMod(i: nat)
    ensures Next(i % WRAP) == (i + 1) % WRAP
  {}

  // ---- The ring holds the queue ----

  // The frames numbered from t on.
  predicate Stored(buf: seq<CanFrame>, q: seq<CanFrame>, t: nat)
    requires buf != []
  {
    forall k :: t <= k < t + |q| ==> buf[Slot(k, |buf|)] == q[k - t]
  }

  lemma StoredPop(buf: seq<CanFrame>, q: seq<CanFrame>, t: nat)
    requires buf != [] && q != [] && Stored(buf, q, t)
    ensures Stored(buf, q[1..], t + 1) && buf[Slot(t, |buf|)] == q[0]
  {
    hide Slot;
    forall k | t + 1 <= k < t + |q| ensures buf[Slot(k, |buf|)] == q[1..][k - t - 1] {
      assert q[1..][k - t - 1] == q[k - t];
    }
  }

  lemma StoredPush(buf: seq<CanFrame>, q: seq<CanFrame>, t: nat, f: CanFrame)
    requires |q| < |buf| && Stored(buf, q, t)
    requires WRAP % |buf| == 0 || t + |q| < WRAP
    ensures Stored(buf[Slot(t + |q|, |buf|) := f], q + [f], t)
  {
    hide Slot;
    var h := t + |q|;
    var b := buf[Slot(h, |buf|) := f];
    forall k | t <= k < h + 1 ensures b[Slot(k, |buf|)] == (q + [f])[k - t] {
      if k < h {
        SlotDistinct(k, h, |buf|);
        assert b[Slot(k, |buf|)] == buf[Slot(k, |buf|)] == q[k - t];
      }
    }
  }

  // Frame numbers t to h are unread.
  predicate Holds(r: Ring, q: seq<CanFrame>, h: nat, t: nat) {
    && 0 < |r.buf| < WRAP
    && h == t + |q|
    && |q| <= |r.buf|
    && r.head == h % WRAP && r.tail == t % WRAP
    && Stored(r.buf, q, t)
  }

  lemma DropKeeps(r: Ring, q: seq<CanFrame>, h: nat, t: nat)
    requires Holds(r, q, h, t)
    ensures |q| < |r.buf| ==> DropIfFull(r) == r
    ensures |q| == |r.buf| ==>
              DropIfFull(r) == r.(tail := Next(r.tail), errors := Next(r.errors)) &&
              Holds(DropIfFull(r), q[1..], h, t + 1)
  {
    WrapDifference(h, t);
    NextMod(t);
    hide Slot; hide Place; hide Next;
    if |q| == |r.buf| { StoredPop(r.buf, q, t); }
    hide Stored;
  }

  lemma WriteKeeps(r: Ring, q: seq<CanFrame>, h: nat, t: nat, f: CanFrame)
    requires Holds(r, q, h, t) && |q| < |r.buf|
    requires WRAP % |r.buf| == 0 || h < WRAP
    ensures Holds(r.(buf := r.buf[Place(r.head, |r.buf|) := f], head := Next(r.head)), q + [f], h + 1, t)
  {
    StoredPush(r.buf, q, t, f);
    NextMod(h);
    hide Stored; hide Place; hide Next;
  }

  lemma ReceiveKeeps(r: Ring, q: seq<CanFrame>, h: nat, t: nat)
    requires Holds(r, q, h, t)
    ensures q == [] ==> ReadOldest(r) == (None, r)
    ensures q != [] ==> ReadOldest(r) == (Some(q[0]), r.(tail := Next(r.tail))) && Holds(ReadOldest(r).1, q[1..], h, t + 1)
  {
    WrapDifference(h, t);
    NextMod(t);
    hide Place; hide Next;
    if q != [] { StoredPop(r.buf, q, t); }
    hide Stored;
  }

  // The ring, the frames it gave and its error count agree with the queue.
  predicate Agrees(s: (Ring, seq<CanFrame>), q: Queue, h: nat) {
    && s.1 == q.read
    && s.0.errors == (q.dropped + q.busErrors) % WRAP
    && |q.unread| <= h
    && Holds(s.0, q.unread, h, h - |q.unread|)
  }

  lemma ArriveAgrees(s: (Ring, seq<CanFrame>), q: Queue, h: nat, f: CanFrame)
    requires Agrees(s, q, h)
    requires WRAP % |s.0.buf| == 0 || h < WRAP
    ensures Agrees(RingStep(s, Frame(f)), QueueStep(q, |s.0.buf|, Frame(f)), h + 1)
  {
    var r, t := s.0, h - |q.unread|;
    DropKeeps(r, q.unread, h, t);
    HoldsSizes(r, q.unread, h, t);
    if |q.unread| == |r.buf| {
      NextMod(q.dropped + q.busErrors);
      hide Holds; hide Place; hide Next; hide DropIfFull;
      WriteKeeps(r.(tail := Next(r.tail), errors := Next(r.errors)), q.unread[1..], h, t + 1, f);
    } else {
      hide Holds; hide Place; hide Next; hide DropIfFull;
      WriteKeeps(r, q.unread, h, t, f);
    }
  }

  lemma StepAgrees(s: (Ring, seq<CanFrame>), q: Queue, h: nat, e: Event)
    requires Agrees(s, q, h)
    requires WRAP % |s.0.buf| == 0 || h < WRAP
    ensures Agrees(RingStep(s, e), QueueStep(q, |s.0.buf|, e), if e.Frame? then h + 1 else h)
  {
    var r, t := s.0, h - |q.unread|;
    HoldsSizes(r, q.unread, h, t);
    match e {
      case Frame(f) =>
        ArriveAgrees(s, q, h, f);
      case BusError =>
        HoldsErrors(r, q.unread, h, t, Next(r.errors));
        NextMod(q.dropped + q.busErrors);
        hide Holds; hide Place; hide Next;
      case Read =>
        ReceiveKeeps(r, q.unread, h, t);
        hide Holds; hide Place; hide Next; hide ReadOldest;
    }
  }

  lemma HoldsSizes(r: Ring, q: seq<CanFrame>, h: nat, t: nat)
    requires Holds(r, q, h, t)
    ensures 0 < |r.buf| && |q| <= |r.buf|
  {}

  lemma HoldsErrors(r: Ring, q: seq<CanFrame>, h: nat, t: nat, errors: nat)
    requires Holds(r, q, h, t)
    ensures Holds(r.(errors := errors), q, h, t)
  {}

  // A ring of frames at its start.
  predicate Unused(r: Ring) {
    0 < |r.buf| < WRAP && r.head == 0 && r.tail == 0 && r.errors == 0
  }

  // If the capacity divides 2^32, the ring gives the queue's frames for ever.
  lemma {:induction false} RingIsQueue(start: Ring, es: seq<Event>)
    requires Unused(start) && WRAP % |start.buf| == 0
    ensures Agrees(RingRun(start, es), QueueRun(|start.buf|, es), |Arrived(es)|)
    decreases |es|
  {
    if es != [] {
      RingIsQueue(start, es[..|es| - 1]);
      hide Agrees; hide RingStep; hide QueueStep;
      StepAgrees(RingRun(start, es[..|es| - 1]), QueueRun(|start.buf|, es[..|es| - 1]), |Arrived(es[..|es| - 1])|, es[|es| - 1]);
    }
  }

  // ---- A capacity that does not divide 2^32 ----

  lemma RunSnoc(start: Ring, es: seq<Event>, e: Event)
    requires start.buf != []
    ensures RingRun(start, es + [e]) == RingStep(RingRun(start, es), e)
    ensures QueueRun(|start.buf|, es + [e]) == QueueStep(QueueRun(|start.buf|, es), |start.buf|, e)
  {
    assert (es + [e])[..|es|] == es;
  }

  // Frames that are read as they come.
  function Pairs(n: nat, a: CanFrame): seq<Event> {
    if n == 0 then [] else Pairs(n - 1, a) + [Frame(a)] + [Read]
  }

  // The last index before the wrap gets frame a, then k frames b come.
  function Burst(a: CanFrame, b: CanFrame, k: nat): seq<Event> {
    if k == 0 then Pairs(WRAP - 1, a) + [Frame(a)] else Burst(a, b, k - 1) + [Frame(b)]
  }

  lemma {:induction false} PairsRun(start: Ring, n: nat, a: CanFrame)
    requires Unused(start) && n < WRAP
    ensures Agrees(RingRun(start, Pairs(n, a)), QueueRun(|start.buf|, Pairs(n, a)), n)
    ensures QueueRun(|start.buf|, Pairs(n, a)).unread == []
  {
    hide RingStep; hide QueueStep;
    if n > 0 {
      hide RingRun; hide QueueRun; hide Agrees; hide Unused;
      PairsRun(start, n - 1, a);
      var es := Pairs(n - 1, a);
      RunSnoc(start, es, Frame(a));
      RunSnoc(start, es + [Frame(a)], Read);
      UnusedSizes(start);
      PairStep(RingRun(start, es), QueueRun(|start.buf|, es), n, a);
    }
  }

  lemma UnusedSizes(start: Ring)
    requires Unused(start)
    ensures 0 < |start.buf| < WRAP
  {}

  lemma PairStep(s: (Ring, seq<CanFrame>), q: Queue, n: nat, a: CanFrame)
    requires 0 < n < WRAP && Agrees(s, q, n - 1) && q.unread == []
    ensures var (s1, q1) := (RingStep(s, Frame(a)), QueueStep(q, |s.0.buf|, Frame(a)));
            |s1.0.buf| == |s.0.buf| && Agrees(RingStep(s1, Read), QueueStep(q1, |s.0.buf|, Read), n) &&
            QueueStep(q1, |s.0.buf|, Read).unread == []
  {
    AgreesSizes(s, q, n - 1);
    StepAgrees(s, q, n - 1, Frame(a));
    hide Agrees;
    StepAgrees(RingStep(s, Frame(a)), QueueStep(q, |s.0.buf|, Frame(a)), n, Read);
  }

  lemma AgreesSizes(s: (Ring, seq<CanFrame>), q: Queue, h: nat)
    requires Agrees(s, q, h)
    ensures s.0.buf != []
  {}

  // The ring after k frames b, and the queue. The last of them takes the place of a.
  predicate Overrun(s: (Ring, seq<CanFrame>), q: Queue, a: CanFrame, b: CanFrame, k: nat)
    requires s.0.buf != []
  {
    && s.0.head == k && s.0.tail == WRAP - 1
    && s.0.buf[Place(WRAP - 1, |s.0.buf|)] == (if k == WRAP % |s.0.buf| then b else a)
    && s.1 == q.read && |q.unread| == k + 1 && q.unread[0] == a
  }

  lemma OverrunStart(s: (Ring, seq<CanFrame>), q: Queue, a: CanFrame, b: CanFrame)
    requires Agrees(s, q, WRAP - 1) && q.unread == [] && WRAP % |s.0.buf| != 0
    ensures Overrun(RingStep(s, Frame(a)), QueueStep(q, |s.0.buf|, Frame(a)), a, b, 0)
  {
    hide Stored; hide Place;
    assert s.0.head == WRAP - 1 == s.0.tail;
    assert Next(WRAP - 1) == 0;
    assert DropIfFull(s.0) == s.0;
  }

  lemma OverrunNext(s: (Ring, seq<CanFrame>), q: Queue, a: CanFrame, b: CanFrame, k: nat)
    requires 0 < |s.0.buf| < WRAP && k < WRAP % |s.0.buf| && Overrun(s, q, a, b, k)
    ensures Overrun(RingStep(s, Frame(b)), QueueStep(q, |s.0.buf|, Frame(b)), a, b, k + 1)
  {
    LastPlace(|s.0.buf|);
    SmallPlace(k, |s.0.buf|);
    hide Place;
    assert Count(s.0) == k + 1;
    assert DropIfFull(s.0) == s.0;
    assert Next(k) == k + 1;
    hide Next; hide DropIfFull;
  }

  lemma {:induction false} BurstRun(start: Ring, a: CanFrame, b: CanFrame, k: nat)
    requires Unused(start) && k <= WRAP % |start.buf| != 0
    ensures Overrun(RingRun(start, Burst(a, b, k)), QueueRun(|start.buf|, Burst(a, b, k)), a, b, k)
  {
    if k == 0 {
      var es := Pairs(WRAP - 1, a);
      PairsRun(start, WRAP - 1, a);
      RunSnoc(start, es, Frame(a));
      hide Overrun; hide RingStep; hide QueueStep; hide RingRun; hide QueueRun; hide Pairs;
      OverrunStart(RingRun(start, es), QueueRun(|start.buf|, es), a, b);
    } else {
      var es := Burst(a, b, k - 1);
      BurstRun(start, a, b, k - 1);
      RunSnoc(start, es, Frame(b));
      hide Overrun; hide RingStep; hide QueueStep; hide RingRun; hide QueueRun; hide Pairs;
      OverrunNext(RingRun(start, es), QueueRun(|start.buf|, es), a, b, k - 1);
    }
  }

  lemma LastPlace(cap: nat)
    requires 0 < cap < WRAP && WRAP % cap != 0
    ensures Place(WRAP - 1, cap) == WRAP % cap - 1
  {
    assert WRAP - 1 == (WRAP / cap) * cap + (WRAP % cap - 1);
    ModUnique(WRAP - 1, cap, WRAP / cap, WRAP % cap - 1);
  }

  lemma SmallPlace(k: nat, cap: nat)
    requires k < cap
    ensures Place(k, cap) == k
  {}

  predicate Faithful(start: Ring, es: seq<Event>)
    requires start.buf != []
  {
    RingRun(start, es).1 == QueueRun(|start.buf|, es).read
  }

  // The ring reads as the queue in every run if and only if its capacity divides 2^32.
  lemma FaithfulIff(start: Ring, a: CanFrame, b: CanFrame)
    requires Unused(start) && a != b
    ensures (forall es: seq<Event> :: Faithful(start, es)) <==> WRAP % |start.buf| == 0
  {
    if WRAP % |start.buf| == 0 {
      forall es: seq<Event> ensures Faithful(start, es) {
        RingIsQueue(start, es);
      }
    } else {
      var es := Burst(a, b, WRAP % |start.buf|);
      BurstRun(start, a, b, WRAP % |start.buf|);
      RunSnoc(start, es, Read);
      hide RingRun; hide QueueRun; hide Burst; hide Place;
      var s, q := RingRun(start, es), QueueRun(|start.buf|, es);
      assert RingStep(s, Read).1[|s.1|] == b;
      assert QueueStep(q, |start.buf|, Read).read[|s.1|] == a;
      assert RingRun(start, es + [Read]).1 != QueueRun(|start.buf|, es + [Read]).read;
      assert !Faithful(start, es + [Read]);
    }
  }

  // ---- Frames on the bus ----

  // A message of the CAN controller: bit 31 of the id marks an extended id, bit 30 a
  // remote request.
  datatype BusMessage = BusMessage(id: bv32, dlc: nat, data: Data8)

  predicate HasEff(w: bv32) { w & 0x8000_0000 != 0 }

  predicate HasRemote(w: bv32) { w & 0x4000_0000 != 0 }

  function MaskId(id: bv32, ext: bool): bv32 {
    if ext then id & 0x1FFF_FFFF else id & 0x7FF
  }

  function BusId(id: bv32, ext: bool, rtr: bool): bv32 {
    MaskId(id, ext) | (if ext then 0x8000_0000 else 0) | (if rtr then 0x4000_0000 else 0)
  }

  function FromBus(m: BusMessage): CanFrame {
    var ext := HasEff(m.id);
    CanFrame(MaskId(m.id, ext), ext, HasRemote(m.id), OfNat(if m.dlc > 8 then 8 else m.dlc), m.data)
  }

  function ToBus(f: CanFrame): Option<BusMessage> {
    if Val(f.dlc) > 8 then None
    else Some(BusMessage(BusId(f.id, f.ext, f.rtr), Val(f.dlc), Trimmed(f).data))
  }

  lemma EffOf(id: bv32, ext: bool, rtr: bool)
    ensures HasEff(BusId(id, ext, rtr)) == ext
  {
    if ext { if rtr {} } else if rtr {}
  }

  lemma RemoteOf(id: bv32, ext: bool, rtr: bool)
    ensures HasRemote(BusId(id, ext, rtr)) == rtr
  {
    if ext { if rtr {} } else if rtr {}
  }

  lemma IdOf(id: bv32, ext: bool, rtr: bool)
    ensures MaskId(BusId(id, ext, rtr), ext) == MaskId(id, ext)
  {
    if ext { if rtr {} } else if rtr {}
  }

  lemma TrimKeepsHead(f: CanFrame)
    requires Val(f.dlc) <= 8
    ensures Trimmed(f) == CanFrame(f.id, f.ext, f.rtr, f.dlc, Trimmed(f).data)
  {
    hide Val; hide Zeros;
  }

  // What one node sends, another receives: the id cut to its width, the data to its
  // length.
  lemma BusRoundTrip(f: CanFrame)
    requires Val(f.dlc) <= 8
    ensures FromBus(ToBus(f).value) == Trimmed(f).(id := MaskId(f.id, f.ext))
  {
    hide BusId; hide HasEff; hide HasRemote; hide MaskId; hide OfNat; hide Val; hide Trimmed;
    EffOf(f.id, f.ext, f.rtr);
    RemoteOf(f.id, f.ext, f.rtr);
    IdOf(f.id, f.ext, f.rtr);
    ValInjective(OfNat(Val(f.dlc)), f.dlc);
    TrimKeepsHead(f);
  }

  lemma MaskIs(id: bv32, ext: bool)
    ensures MaskId(id, ext) == if ext then id % 0x2000_0000 else id % 0x800
  {}

  lemma MarksAre(w: bv32)
    ensures HasEff(w) <==> w / 0x8000_0000 == 1
    ensures HasRemote(w) <==> w / 0x4000_0000 % 2 == 1
  {}

  lemma BusIdIs(id: bv32, ext: bool, rtr: bool)
    ensures BusId(id, ext, rtr) ==
            (if ext then id % 0x2000_0000 + 0x8000_0000 else id % 0x800) + (if rtr then 0x4000_0000 else 0)
  {
    if ext { if rtr {} } else if rtr {}
  }

  // What arrives from the bus, in numbers: a length over 8 counts as 8.
  lemma ReceivedIs(m: BusMessage)
    ensures var f := FromBus(m);
            && (f.ext <==> m.id / 0x8000_0000 == 1) && (f.rtr <==> m.id / 0x4000_0000 % 2 == 1)
            && f.id == (if m.id / 0x8000_0000 == 1 then m.id % 0x2000_0000 else m.id % 0x800)
            && Val(f.dlc) == (if m.dlc <= 8 then m.dlc else 8) && f.data == m.data
  {
    hide HasEff; hide HasRemote; hide MaskId; hide OfNat; hide Val;
    MarksAre(m.id);
    MaskIs(m.id, HasEff(m.id));
  }

  // What goes out, and when nothing does: the id cut to its width with its marks, and
  // zeros behind the data.
  lemma SentIs(f: CanFrame)
    ensures ToBus(f).Some? <==> Val(f.dlc) <= 8
    ensures ToBus(f).Some? ==>
              var m := ToBus(f).value;
              && m.id == (if f.ext then f.id % 0x2000_0000 + 0x8000_0000 else f.id % 0x800) +
                         (if f.rtr then 0x4000_0000 else 0)
              && m.dlc == Val(f.dlc)
              && forall i :: 0 <= i < 8 ==> m.data[i] == if i < m.dlc then f.data[i] else 0
  {
    hide BusId; hide Val;
    BusIdIs(f.id, f.ext, f.rtr);
  }

  // ---- As the code keeps it ----

  class CanReceiver {
    const rxBuf: array<CanFrame>
    var head: nat
    var tail: nat
    var errors: nat

    ghost predicate Valid()
      reads this
    {
      rxBuf.Length == RX_BUF && head < WRAP && tail < WRAP && errors < WRAP
    }

    ghost function Value(): Ring
      reads this, rxBuf
    {
      Ring(rxBuf[..], head, tail, errors)
    }

    constructor ()
      ensures Valid() && fresh(rxBuf) && Unused(Value())
    {
      rxBuf := new CanFrame[RX_BUF](_ => CanFrame(0, false, false, 0, [0, 0, 0, 0, 0, 0, 0, 0]));
      head, tail, errors := 0, 0, 0;
    }

    // The controller's callback, from the interrupt.
    method RxCallback(error: bool, rx: bool, msg: BusMessage)
      requires Valid()
      modifies this, rxBuf
      ensures Valid()
      ensures Value() == if error then old(Value()).(errors := Next(old(errors)))
                         else if rx then Arrive(old(Value()), FromBus(msg))
                         else old(Value())
    {
      if error {
        errors := Next(errors);
        return;
      }
      if !rx {
        return;
      }
      if (head - tail) % WRAP >= RX_BUF {
        tail := Next(tail);
        errors := Next(errors);
      }
      rxBuf[Place(head, RX_BUF)] := FromBus(msg);
      head := Next(head);
    }

    method Receive() returns (frame: Option<CanFrame>)
      requires Valid()
      modifies this
      ensures Valid() && (frame, Value()) == ReadOldest(old(Value()))
    {
      frame := None;
      if tail != head {
        frame := Some(rxBuf[Place(tail, RX_BUF)]);
        tail := Next(tail);
      }
    }
  }
}
