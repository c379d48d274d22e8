/**
 The log makes progress: once nothing is lost and memory is there, every round of the
 main loops removes a line, and the queue runs empty.
 */
module LogProgress {
  import opened Bytes
  import opened Frames
  import opened Codec
  import opened Endpoint
  import opened LogSpec
  import opened LogProtocol

  // The Zero takes everything that is under way.
  function DrainTexts(s: System): System
    decreases |s.toZero|
  {
    if s.toZero == [] then s
    else
      var s' := Step(s, TakeText);
      assert s'.toZero == s.toZero[1..] by { TakeTextShortens(s); }
      DrainTexts(s')
  }

  lemma TakeTextShortens(s: System)
    requires s.toZero != []
    ensures Step(s, TakeText).toZero == s.toZero[1..]
  {
    hide Receive; hide TextsOf; hide FramesOf; hide TextErrorsOf;
  }

  // The Pico takes n frames.
  function DrainAcks(s: System, n: nat, now: nat): System
    decreases n
  {
    if n == 0 then s else DrainAcks(Step(s, TakeAck(now, true)), n - 1, now)
  }

  // The link loses nothing: one poll when a resend is due, then both channels drain.
  function Round(s: System): System {
    var now := s.log.sentUs + RESEND_US;
    var a := DrainTexts(PollLog(s, now));
    DrainAcks(a, |a.toPico|, now)
  }

  lemma {:induction false} TextsDrain(s: System, k: nat, j: nat) returns (k': nat, j': nat)
    requires InvAt(s, k, j) && s.zero.heap
    requires j < |s.toPico| || (s.toZero != [] && (k < |s.toZero| || |s.delivered| == |s.popped| + 1))
    ensures var s' := DrainTexts(s);
            InvAt(s', k', j') && j' < |s'.toPico| && s'.zero.heap &&
            s'.pico == s.pico && s'.log == s.log && s'.popped == s.popped && s'.logged == s.logged
    decreases |s.toZero|
  {
    hide Step; hide Ctr; hide AllText; hide AllAck; hide Numbering;
    k', j' := k, j;
    if s.toZero != [] {
      var k1, j1 := TakeTextKeeps(s, k, j);
      TakeTextShortens(s);
      TakeTextSpares(s);
      var s1 := Step(s, TakeText);
      k', j' := TextsDrain(s1, k1, j1);
    }
  }

  lemma TakeTextSpares(s: System)
    ensures var s' := Step(s, TakeText);
            s'.pico == s.pico && s'.log == s.log && s'.popped == s.popped && s'.logged == s.logged
  {
    hide Receive; hide TextsOf; hide FramesOf; hide TextErrorsOf;
  }

  lemma {:induction false} AcksDrain(s: System, now: nat, k: nat, j: nat) returns (k': nat, j': nat)
    requires InvAt(s, k, j)
    ensures var s' := DrainAcks(s, |s.toPico|, now);
            InvAt(s', k', j') && s'.pico.heap == s.pico.heap && s'.zero == s.zero && s.logged <= s'.logged &&
            (if j < |s.toPico| then s.log.queue != [] && s'.popped == s.popped + Head(s.log.queue)
             else s'.popped == s.popped)
    decreases |s.toPico|
  {
    hide Step; hide InvAt;
    InFlightParts(s, k, j);
    AcksParts(s, k, j);
    k', j' := k, j;
    if s.toPico != [] {
      var k1, j1 := TakeAckKeeps(s, now, true, k, j);
      k', j' := AcksDrain(Step(s, TakeAck(now, true)), now, k1, j1);
    }
  }

  lemma AcksParts(s: System, k: nat, j: nat)
    requires InvAt(s, k, j)
    ensures j <= |s.toPico| && (j < |s.toPico| ==> |s.delivered| == |s.popped| + 1)
  {
    hide Ctr; hide TextsAt; hide AllAck; hide Numbering;
  }

  lemma RoundKeeps(s: System)
    requires Inv(s) && s.pico.heap && s.zero.heap
    requires s.log.queue != [] && |s.log.queue[0].text| + 2 <= DATA_MAX
    ensures var s' := Round(s);
            Inv(s') && s'.pico.heap && s'.zero.heap && s.logged <= s'.logged &&
            s'.popped == s.popped + Head(s.log.queue)
  {
    hide InvAt; hide PollLog; hide DrainTexts; hide DrainAcks;
    var k, j :| InvAt(s, k, j);
    var now := s.log.sentUs + RESEND_US;
    var s1 := PollLog(s, now);
    var k1 := PollKeeps(s, now, k, j);
    PollSpares(s, now);
    var k2, j2 := TextsDrain(s1, k1, j);
    var s2 := DrainTexts(s1);
    var k3, j3 := AcksDrain(s2, now, k2, j2);
    assert InvAt(Round(s), k3, j3);
  }

  lemma PollSpares(s: System, now: nat)
    ensures var s' := PollLog(s, now);
            s'.zero == s.zero && s'.popped == s.popped && s'.logged == s.logged && s'.delivered == s.delivered
  {
    hide Poll; hide FramesOf;
  }

  function Rounds(s: System, n: nat): System
    decreases n
  {
    if n == 0 then s else Rounds(Round(s), n - 1)
  }

  lemma {:induction false} RoundsArrive(s: System, goal: nat)
    requires Inv(s) && s.pico.heap && s.zero.heap && |s.popped| <= goal <= |s.logged|
    requires forall i :: |s.popped| <= i < goal ==> |s.logged[i].text| + 2 <= DATA_MAX
    ensures var s' := Rounds(s, goal - |s.popped|);
            s'.popped == s.logged[..goal] && s.logged <= s'.logged && s'.popped <= s'.delivered
    decreases goal - |s.popped|
  {
    hide InvAt; hide Round;
    var k, j :| InvAt(s, k, j);
    LedgerParts(s, k, j);
    if |s.popped| < goal {
      assert s.log.queue[0] == s.logged[|s.popped|];
      RoundKeeps(s);
      var s1 := Round(s);
      forall i | |s1.popped| <= i < goal
        ensures |s1.logged[i].text| + 2 <= DATA_MAX
      {
        assert s1.logged[i] == s.logged[i];
      }
      RoundsArrive(s1, goal);
      assert s1.logged[..goal] == s.logged[..goal];
    }
  }

  lemma LedgerParts(s: System, k: nat, j: nat)
    requires InvAt(s, k, j)
    ensures s.logged == s.popped + s.log.queue && s.popped <= s.delivered <= s.logged
  {
    hide Ctr; hide TextsAt; hide AcksAt; hide Numbering;
  }

  // From every reachable state, with memory and a head line that fits a frame,
  // a round without loss shortens the queue by exactly its head.
  lemma RoundPopsHead(s: System)
    requires Reachable(s) && s.pico.heap && s.zero.heap
    requires s.log.queue != [] && |s.log.queue[0].text| + 2 <= DATA_MAX
    ensures Round(s).popped == s.popped + [s.log.queue[0]] && s.logged <= Round(s).logged
  {
    hide Inv; hide Round; hide Reachable;
    ReachableInv(s);
    RoundKeeps(s);
  }

  // As many rounds as lines are queued bring every line logged so far to the Zero,
  // whatever the rounds themselves add to the log.
  lemma EveryLineArrives(s: System)
    requires Reachable(s) && s.pico.heap && s.zero.heap
    requires forall line :: line in s.log.queue ==> |line.text| + 2 <= DATA_MAX
    ensures var s' := Rounds(s, |s.log.queue|);
            s'.popped == s.logged && s.logged <= s'.logged && s'.popped <= s'.delivered
  {
    hide Inv; hide Rounds;
    ReachableInv(s);
    ExactlyOnce(s);
    hide Reachable;
    assert forall i :: |s.popped| <= i < |s.logged| ==> s.logged[i] == s.log.queue[i - |s.popped|];
    RoundsArrive(s, |s.logged|);
    assert s.logged[..|s.logged|] == s.logged;
  }

  // ---- The queue runs empty ----

  // The confirmations under way follow on one another, from the last one the Pico got
  // to the next one the Zero will send.
  ghost predicate Chain(q: seq<seq<byte>>, last: byte, next: byte)
    decreases |q|
  {
    if q == [] then next == Count(last)
    else (exists c :: q[0] == Encode(AckPacket(Count(last), c))) && Chain(q[1..], Count(last), next)
  }

  ghost predicate InStep(s: System) {
    s.pico.seen[ACK_SLOT] && Chain(s.toPico, s.pico.rx[ACK_SLOT], s.zero.tx[ACK_SLOT])
  }

  // The newest confirmation under way is the last one the Zero sent.
  ghost predicate Newest(q: seq<seq<byte>>, next: byte) {
    q != [] && exists t, c :: q[|q| - 1] == Encode(AckPacket(t, c)) && Count(t) == next
  }

  lemma {:induction false} ChainSnoc(q: seq<seq<byte>>, last: byte, next: byte, c: byte)
    requires Chain(q, last, next)
    ensures Chain(q + [Encode(AckPacket(next, c))], last, Count(next))
    decreases |q|
  {
    hide Encode; hide Count;
    var f := Encode(AckPacket(next, c));
    if q == [] {
      assert (q + [f])[0] == f && (q + [f])[1..] == [];
    } else {
      ChainSnoc(q[1..], Count(last), next, c);
      assert (q + [f])[0] == q[0] && (q + [f])[1..] == q[1..] + [f];
    }
  }

  lemma EncodeInjective(p: Packet, q: Packet)
    requires Sendable(p) && Sendable(q) && Encode(p) == Encode(q)
    ensures p == q
  {
    hide Encode; hide Judge;
    JudgeEncoded(p, []);
    JudgeEncoded(q, []);
  }

  // ---- What one frame does to the confirmation counters ----

  lemma AckTx(st: State, counter: byte)
    requires st.heap
    ensures Ack(st, counter).st.tx == st.tx[ACK_SLOT := Count(st.tx[ACK_SLOT])]
    ensures Ack(st, counter).calls == [Sent(Encode(AckPacket(st.tx[ACK_SLOT], counter)))]
  {
    AckIs(st, counter);
    AckPacks(counter);
    hide Encode; hide Pack; hide Count; hide Slot; hide KindOf; hide Fits; hide Val;
  }

  lemma HandleTextAck(st: State, counter: byte, line: Line)
    requires st.heap
    ensures var h := Handle(st, TextPacket(counter, line.severity, line.source, line.text));
            FramesOf(h.calls) == [Encode(AckPacket(st.tx[ACK_SLOT], counter))] &&
            h.st.tx == st.tx[ACK_SLOT := Count(st.tx[ACK_SLOT])]
  {
    TextUnpacks(counter, line);
    var p := TextPacket(counter, line.severity, line.source, line.text);
    hide Slot; hide KindOf; hide Unpack; hide Count; hide Fits; hide Ack; hide Encode;
    var noted := if IsRepeat(st, p) then st else Note(st, p).st;
    AckTx(noted, counter);
    var a := Ack(noted, counter).calls;
    var d := if noted.handled[TEXT_SLOT] then [Delivered(0x06, Text(line.severity, line.source, line.text))] else [];
    FramesOfAck(a[0].frame, d, if IsRepeat(st, p) then [] else Note(st, p).calls);
  }

  lemma FramesOfAck(f: seq<byte>, d: seq<Call>, lost: seq<Call>)
    requires |d| <= 1 && (d != [] ==> d[0].Delivered?)
    requires |lost| <= 1 && (lost != [] ==> lost[0].Reported?)
    ensures FramesOf([Sent(f)]) == [f] && FramesOf(lost + ([Sent(f)] + d)) == [f]
  {
    OneFrame(f);
    var a := [Sent(f)] + d;
    assert a[1..] == d;
    if d != [] { assert d[1..] == []; }
    assert FramesOf(d) == [] && FramesOf(a) == [f];
    if lost != [] {
      assert (lost + a)[1..] == a;
    } else {
      assert lost + a == a;
    }
  }

  // The Zero takes a text with memory at hand: one confirmation goes out.
  lemma TakeTextAcks(s: System, k: nat, j: nat)
    requires InvAt(s, k, j) && s.toZero != [] && s.zero.heap
    ensures var s' := Step(s, TakeText);
            exists c :: s'.toPico == s.toPico + [Encode(AckPacket(s.zero.tx[ACK_SLOT], c))] &&
                        s'.zero.tx[ACK_SLOT] == Count(s.zero.tx[ACK_SLOT])
  {
    hide Ctr; hide ZeroReads; hide Encode; hide Handle; hide Count; hide CoreAt; hide InvAt; hide IsTextFrame;
    hide TextsOf; hide FramesOf; hide TextErrorsOf;
    var counter, line, k' := FirstText(s, k, j);
    var s0 := s.(toZero := s.toZero[1..]);
    InvText(s0, k', j);
    var p := TextPacket(counter, line.severity, line.source, line.text);
    TextFrameIs(s.toZero[0], counter, line);
    ZeroReadsFrame(s0, p);
    HandleTextAck(s0.zero, counter, line);
  }

  lemma TextFrameIs(frame: seq<byte>, counter: byte, line: Line)
    requires IsTextFrame(frame, counter, line)
    ensures var p := TextPacket(counter, line.severity, line.source, line.text);
            Sendable(p) && frame == Encode(p)
  {}

  lemma NewestSnoc(q: seq<seq<byte>>, t: byte, c: byte)
    ensures Newest(q + [Encode(AckPacket(t, c))], Count(t))
  {
    hide Encode; hide Count;
  }

  // Taking all texts: the confirmations stay in step, and the newest is under way.
  lemma {:induction false} DrainTextsAcks(s: System, k: nat, j: nat)
    requires InvAt(s, k, j) && s.zero.heap
    ensures var s' := DrainTexts(s);
            && (InStep(s) ==> InStep(s'))
            && (s.toZero != [] || Newest(s.toPico, s.zero.tx[ACK_SLOT]) ==> Newest(s'.toPico, s'.zero.tx[ACK_SLOT]))
            && |s'.toPico| == |s.toPico| + |s.toZero| && s'.logged == s.logged && s'.pico == s.pico
    decreases |s.toZero|
  {
    hide Step; hide InvAt; hide Chain; hide Newest; hide Encode; hide Count;
    if s.toZero != [] {
      var k1, j1 := TakeTextKeeps(s, k, j);
      TakeTextAcks(s, k, j);
      TakeTextSpares(s);
      var s1 := Step(s, TakeText);
      var t := s.zero.tx[ACK_SLOT];
      var c :| s1.toPico == s.toPico + [Encode(AckPacket(t, c))];
      NewestSnoc(s.toPico, t, c);
      if InStep(s) { ChainSnoc(s.toPico, s.pico.rx[ACK_SLOT], t, c); }
      DrainTextsAcks(s1, k1, j1);
    }
  }

  lemma HandleAckInStep(st: State, t: byte, counter: byte)
    requires st.handled[ACK_SLOT]
    ensures var h := Handle(st, AckPacket(t, counter));
            && h.st.rx[ACK_SLOT] == t && h.st.seen[ACK_SLOT]
            && (st.seen[ACK_SLOT] && t == Count(st.rx[ACK_SLOT]) ==> h.calls == [Delivered(0x84, TextAck(counter))])
  {
    AckUnpacks(t, counter);
    hide Slot; hide KindOf; hide Unpack; hide Count; hide Fits;
    NoRepeat(st, AckPacket(t, counter));
    hide IsRepeat;
    var d := [Delivered(0x84, TextAck(counter))];
    assert [] + d == d;
  }

  // A confirmation only adds a warning to the log, and only if one before it is missing.
  lemma TakeAckCounts(s: System, now: nat, k: nat, j: nat) returns (t: byte, counter: byte)
    requires InvAt(s, k, j) && s.toPico != []
    ensures s.toPico[0] == Encode(AckPacket(t, counter))
    ensures var s' := Step(s, TakeAck(now, true));
            && s'.pico.rx[ACK_SLOT] == t && s'.pico.seen[ACK_SLOT]
            && (s'.logged == s.logged || s'.logged == s.logged + [WarnLine(Lost, 0x84)])
            && (s.pico.seen[ACK_SLOT] && t == Count(s.pico.rx[ACK_SLOT]) ==> s'.logged == s.logged)
  {
    hide Encode; hide Handle; hide Receive; hide CoreAt; hide InvAt; hide Count;
    hide WriteLine; hide Confirm; hide WarnLine;
    var j';
    t, counter, j' := FirstAck(s, k, j);
    var s0 := s.(toPico := s.toPico[1..]);
    InvParts(s0, k, j');
    ReceiveFrame(s0.pico, AckPacket(t, counter));
    HandleAck(s0.pico, t, counter);
    HandleAckInStep(s0.pico, t, counter);
    var h := Handle(s0.pico, AckPacket(t, counter));
    var s1 := s0.(pico := h.st);
    assert s1 == s0.(pico := h.st, picoBuf := []);
    var d := Delivered(0x84, TextAck(counter));
    if h.calls == [d] {
      PlayOne(s1, d, now, true);
      ConfirmSpares(s1, counter, now);
    } else {
      PlayTwo(s1, Reported(Lost, 0x84), d, now, true);
      WriteLineKeeps(s1, WarnLine(Lost, 0x84), now, true);
      ConfirmSpares(WriteLine(s1, WarnLine(Lost, 0x84), now, true), counter, now);
    }
  }

  lemma ConfirmSpares(s: System, counter: byte, now: nat)
    ensures var s' := Confirm(s, counter, now);
            s'.pico.(tx := s.pico.tx) == s.pico && s'.logged == s.logged
  {
    if Confirms(s.log, counter) && s.log.queue[1..] != [] {
      SendHeadIs(s.pico, s.log.(queue := s.log.queue[1..], inFlight := false), now);
    }
    hide FramesOf; hide SendHead;
  }

  lemma WarnFits()
    ensures |WarnLine(Lost, 0x84).text| + 2 <= DATA_MAX
  {
    hide OfNat;
  }

  // ---- Draining the confirmations ----

  lemma AckFrame(t: byte, c: byte, u: byte, d: byte)
    requires Encode(AckPacket(t, c)) == Encode(AckPacket(u, d))
    ensures t == u
  {
    hide Encode;
    EncodeInjective(AckPacket(t, c), AckPacket(u, d));
  }

  // In step, nothing is missing and the log does not grow.
  lemma {:induction false} DrainAcksInStep(s: System, now: nat, k: nat, j: nat)
    requires InvAt(s, k, j) && InStep(s)
    ensures var s' := DrainAcks(s, |s.toPico|, now);
            InStep(s') && s'.toPico == [] && s'.logged == s.logged
    decreases |s.toPico|
  {
    hide Step; hide InvAt; hide Encode; hide Count;
    if s.toPico != [] {
      var k1, j1 := TakeAckKeeps(s, now, true, k, j);
      var t, counter := TakeAckCounts(s, now, k, j);
      var c :| s.toPico[0] == Encode(AckPacket(Count(s.pico.rx[ACK_SLOT]), c));
      AckFrame(t, counter, Count(s.pico.rx[ACK_SLOT]), c);
      DrainAcksInStep(Step(s, TakeAck(now, true)), now, k1, j1);
    }
  }

  // What was added to the log are lines that fit a frame, at most n of them.
  ghost predicate AddsFew(before: seq<Line>, after: seq<Line>, n: nat) {
    && before <= after && |after| <= |before| + n
    && forall i :: |before| <= i < |after| ==> |after[i].text| + 2 <= DATA_MAX
  }

  lemma AddsFewThen(a: seq<Line>, b: seq<Line>, c: seq<Line>, n: nat, m: nat)
    requires AddsFew(a, b, n) && AddsFew(b, c, m)
    ensures AddsFew(a, c, n + m)
  {
    assert forall i :: |a| <= i < |b| ==> c[i] == b[i];
  }

  // Out of step, each confirmation may add a warning; the newest brings both in step.
  lemma {:induction false} DrainAcksSyncs(s: System, now: nat, k: nat, j: nat)
    requires InvAt(s, k, j) && Newest(s.toPico, s.zero.tx[ACK_SLOT])
    ensures var s' := DrainAcks(s, |s.toPico|, now);
            InStep(s') && s'.toPico == [] && AddsFew(s.logged, s'.logged, |s.toPico|)
    decreases |s.toPico|
  {
    hide Step; hide InvAt; hide Encode; hide Count; hide WarnLine; hide AddsFew;
    var k1, j1 := TakeAckKeeps(s, now, true, k, j);
    var t, counter := TakeAckCounts(s, now, k, j);
    var s1 := Step(s, TakeAck(now, true));
    AddsOne(s.logged, s1.logged);
    if |s.toPico| == 1 {
      var u, c :| s.toPico[0] == Encode(AckPacket(u, c)) && Count(u) == s.zero.tx[ACK_SLOT];
      AckFrame(t, counter, u, c);
      assert DrainAcks(s, 1, now) == DrainAcks(s1, 0, now) == s1;
    } else {
      assert s1.toPico[|s1.toPico| - 1] == s.toPico[|s.toPico| - 1];
      DrainAcksSyncs(s1, now, k1, j1);
      AddsFewThen(s.logged, s1.logged, DrainAcks(s1, |s1.toPico|, now).logged, 1, |s1.toPico|);
    }
  }

  lemma AddsOne(before: seq<Line>, after: seq<Line>)
    requires after == before || after == before + [WarnLine(Lost, 0x84)]
    ensures AddsFew(before, after, 1)
  {
    hide WarnLine;
    WarnFits();
  }

  // ---- Rounds ----

  lemma {:induction false} FramesFew(calls: seq<Call>)
    ensures |FramesOf(calls)| <= |calls|
  {
    if calls != [] { FramesFew(calls[1..]); }
  }

  lemma PollAdds(s: System, now: nat)
    ensures var s' := PollLog(s, now);
            && s'.toPico == s.toPico && |s'.toZero| <= |s.toZero| + 1
            && s'.pico.(tx := s.pico.tx) == s.pico
  {
    FramesFew(Poll(s.pico, s.log, now).calls);
    if s.log.queue != [] { SendHeadIs(s.pico, s.log, now); }
    hide SendHead; hide Encode; hide Elapsed; hide FramesOf;
  }

  predicate Ready(s: System) {
    && s.pico.heap && s.zero.heap && s.log.queue != []
    && forall line :: line in s.log.queue ==> |line.text| + 2 <= DATA_MAX
  }

  lemma HeadFits(s: System)
    requires Ready(s)
    ensures s.pico.heap && s.zero.heap && s.log.queue != [] && |s.log.queue[0].text| + 2 <= DATA_MAX
  {}

  // The first half of a round: a text goes out and the Zero takes all there are.
  lemma HalfRound(s: System, now: nat) returns (k: nat, j: nat)
    requires Inv(s) && Ready(s) && now == s.log.sentUs + RESEND_US
    ensures var s' := DrainTexts(PollLog(s, now));
            && InvAt(s', k, j) && (InStep(s) ==> InStep(s')) && Newest(s'.toPico, s'.zero.tx[ACK_SLOT])
            && |s'.toPico| <= |s.toPico| + |s.toZero| + 1 && s'.logged == s.logged
  {
    hide InvAt; hide PollLog; hide DrainTexts; hide Chain; hide Newest;
    var k0, j0 :| InvAt(s, k0, j0);
    var s1 := PollLog(s, now);
    var k1 := PollKeeps(s, now, k0, j0);
    PollSpares(s, now);
    PollAdds(s, now);
    DrainTextsAcks(s1, k1, j0);
    k, j := TextsDrain(s1, k1, j0);
  }

  // A round brings the confirmation counters in step and adds a warning at most for
  // each confirmation that was under way or is sent.
  lemma RoundSyncs(s: System)
    requires Inv(s) && Ready(s)
    ensures var s' := Round(s);
            && Inv(s') && s'.pico.heap && s'.zero.heap && InStep(s')
            && s'.popped == s.popped + Head(s.log.queue)
            && AddsFew(s.logged, s'.logged, |s.toPico| + |s.toZero| + 1)
  {
    hide Inv; hide InvAt; hide PollLog; hide DrainTexts; hide DrainAcks; hide InStep; hide Newest; hide AddsFew;
    HeadFits(s);
    hide Ready;
    RoundKeeps(s);
    var now := s.log.sentUs + RESEND_US;
    var k, j := HalfRound(s, now);
    var s2 := DrainTexts(PollLog(s, now));
    DrainAcksSyncs(s2, now, k, j);
    AddsMore(s.logged, Round(s).logged, |s2.toPico|, |s.toPico| + |s.toZero| + 1);
  }

  lemma AddsMore(before: seq<Line>, after: seq<Line>, n: nat, m: nat)
    requires AddsFew(before, after, n) && n <= m
    ensures AddsFew(before, after, m)
  {}

  // A round in step adds nothing.
  lemma RoundQuiet(s: System)
    requires Inv(s) && Ready(s) && InStep(s)
    ensures var s' := Round(s);
            && Inv(s') && s'.pico.heap && s'.zero.heap && InStep(s')
            && s'.popped == s.popped + Head(s.log.queue) && s'.logged == s.logged
  {
    hide Inv; hide InvAt; hide PollLog; hide DrainTexts; hide DrainAcks; hide InStep; hide Newest;
    HeadFits(s);
    hide Ready;
    RoundKeeps(s);
    var now := s.log.sentUs + RESEND_US;
    var k, j := HalfRound(s, now);
    DrainAcksInStep(DrainTexts(PollLog(s, now)), now, k, j);
  }

  lemma QueueIs(s: System)
    requires Inv(s)
    ensures s.logged == s.popped + s.log.queue && s.log.queue == s.logged[|s.popped|..]
  {
    hide InvAt;
    var k, j :| InvAt(s, k, j);
    LedgerParts(s, k, j);
  }

  lemma {:induction false} RoundsEmpty(s: System)
    requires Inv(s) && s.pico.heap && s.zero.heap && InStep(s)
    requires forall line :: line in s.log.queue ==> |line.text| + 2 <= DATA_MAX
    ensures Rounds(s, |s.log.queue|).log.queue == []
    decreases |s.log.queue|
  {
    hide Inv; hide Round; hide InStep;
    if s.log.queue != [] {
      RoundQuiet(s);
      QueueIs(s);
      QueueIs(Round(s));
      assert Round(s).log.queue == s.log.queue[1..];
      RoundsEmpty(Round(s));
    }
  }

  // From every reachable state a bounded number of rounds without loss empties the
  // queue: the first brings the confirmation counters in step, after that nothing is
  // added to the log.
  lemma QueueEmpties(s: System) returns (n: nat)
    requires Reachable(s) && Ready(s)
    ensures n <= |s.log.queue| + |s.toPico| + |s.toZero| + 1
    ensures Rounds(s, n).log.queue == []
  {
    hide Inv; hide Round; hide InStep; hide Reachable;
    ReachableInv(s);
    RoundSyncs(s);
    var s1 := Round(s);
    QueueIs(s);
    QueueIs(s1);
    forall line | line in s1.log.queue ensures |line.text| + 2 <= DATA_MAX {
      var i :| 0 <= i < |s1.log.queue| && s1.log.queue[i] == line;
      assert s1.logged[|s1.popped| + i] == line;
      if |s1.popped| + i < |s.logged| {
        assert s.logged[|s1.popped| + i] == line && line == s.log.queue[i + 1];
      }
    }
    RoundsEmpty(s1);
    n := 1 + |s1.log.queue|;
    assert Rounds(s, n) == Rounds(s1, |s1.log.queue|);
  }
}
