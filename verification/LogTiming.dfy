/**
 When the lines of the log go out: at once if nothing is in the way, and not again
 sooner than the resend time.
 */
module LogTiming {
  import opened Bytes
  import opened Frames
  import opened Codec
  import opened Endpoint
  import opened LogSpec
  import opened LogProtocol
  import Reactions

  predicate ReadsClock(a: Action) {
    a.Write? || a.Tick? || a.TakeAck? || a.PicoHears?
  }

  // Each step has its time, the clock does not go back, and a step that reads the
  // clock reads this time.
  predicate Timed(actions: seq<Action>, clock: seq<nat>) {
    && |clock| == |actions|
    && (forall i, j :: 0 <= i < j < |clock| ==> clock[i] <= clock[j])
    && (forall i :: 0 <= i < |actions| && ReadsClock(actions[i]) ==> actions[i].now == clock[i])
  }

  // Frames in a row that carry the same line are 100 ms apart or more.
  predicate Apart(sends: seq<Sending>) {
    forall i :: 0 < i < |sends| && sends[i].number == sends[i - 1].number ==>
      sends[i].at >= sends[i - 1].at + 100_000
  }

  // The line in flight was sent last, at its noted time or before, and the note is not
  // in the future.
  predicate Spaced(s: System, clock: nat) {
    && Apart(s.sends)
    && (s.log.inFlight ==>
          var last := |s.sends| - 1;
          last >= 0 && s.sends[last].number == |s.popped| && s.sends[last].at <= s.log.sentUs <= clock)
    && (!s.log.inFlight && s.sends != [] ==> s.sends[|s.sends| - 1].number < |s.popped|)
  }

  lemma ApartSnoc(sends: seq<Sending>, x: Sending)
    requires Apart(sends)
    requires sends != [] && sends[|sends| - 1].number == x.number ==> x.at >= sends[|sends| - 1].at + 100_000
    ensures Apart(sends + [x])
  {}

  lemma SendHeadSpaced(s: System, clock: nat, now: nat)
    requires Spaced(s, clock) && s.log.queue != [] && !s.log.inFlight
    ensures Spaced(Emit(s, SendHead(s.pico, s.log, now), now), now)
  {
    SendHeadIs(s.pico, s.log, now);
    hide SendHead; hide Encode; hide Count; hide FramesOf; hide Apart; hide Stamps;
    var r := SendHead(s.pico, s.log, now);
    NothingSent(s);
    var x := Sending(|s.popped|, now);
    if r.calls != [] {
      OneFrame(r.calls[0].frame);
      OneStamp(x);
      ApartSnoc(s.sends, x);
    }
  }

  lemma ElapsedBounds(now: nat, sentUs: nat)
    requires sentUs <= now && Elapsed(now, sentUs) >= RESEND_US
    ensures now >= sentUs + 100_000
  {}

  // The time that passed on the 64-bit clock, also across its wrap.
  lemma ElapsedIs(sentUs: nat, passed: nat)
    requires sentUs < 0x1_0000_0000_0000_0000 && passed < 0x1_0000_0000_0000_0000
    ensures Elapsed((sentUs + passed) % 0x1_0000_0000_0000_0000, sentUs) == passed
  {}

  lemma PollSpaced(s: System, clock: nat, now: nat)
    requires Spaced(s, clock) && clock <= now
    ensures Spaced(PollLog(s, now), now)
  {
    hide SendHead; hide Encode; hide FramesOf; hide Apart; hide Elapsed; hide Stamps;
    NothingSent(s);
    if s.log.queue == [] {
    } else if !s.log.inFlight {
      SendHeadSpaced(s, clock, now);
    } else if Elapsed(now, s.log.sentUs) >= RESEND_US {
      ElapsedBounds(now, s.log.sentUs);
      var head := s.log.queue[0];
      var p := TextPacket(s.log.counter, head.severity, head.source, head.text);
      var x := Sending(|s.popped|, now);
      if Sendable(p) && s.pico.heap {
        OneFrame(Encode(p));
        OneStamp(x);
        ApartSnoc(s.sends, x);
      }
    }
  }

  lemma WriteSpaced(s: System, line: Line, clock: nat, now: nat, room: bool)
    requires Spaced(s, clock) && clock <= now
    ensures Spaced(WriteLine(s, line, now, room), now)
  {
    hide Poll; hide FramesOf; hide Apart; hide Stamps;
    NothingSent(s);
    if room {
      var s' := s.(log := s.log.(queue := s.log.queue + [line]), logged := s.logged + [line]);
      PollSpaced(s', clock, now);
      assert PollLog(s', now) == WriteLine(s, line, now, true);
    }
  }

  lemma ConfirmSpaced(s: System, counter: byte, clock: nat, now: nat)
    requires Spaced(s, clock) && clock <= now
    ensures Spaced(Confirm(s, counter, now), now)
  {
    hide SendHead; hide FramesOf; hide Apart; hide Stamps;
    NothingSent(s);
    assert s.popped + [] == s.popped;
    if Confirms(s.log, counter) {
      var s' := Popped(s);
      if s'.log.queue != [] { SendHeadSpaced(s', clock, now); }
    }
  }

  lemma {:induction false} CallsSpaced(s: System, calls: seq<Call>, clock: nat, now: nat, room: bool)
    requires Spaced(s, clock) && clock <= now
    ensures Spaced(PicoCalls(s, calls, now, room), now)
    decreases |calls|
  {
    hide WriteLine; hide Confirm; hide Apart; hide WarnLine;
    if calls != [] {
      match calls[0] {
        case Sent(frame) =>
        case Reported(error, typ) => WriteSpaced(s, WarnLine(error, typ), clock, now, room);
        case Delivered(typ, m) => if m.TextAck? { ConfirmSpaced(s, m.counter, clock, now); }
      }
      CallsSpaced(PicoCall(s, calls[0], now, room), calls[1..], now, now, room);
    }
  }

  lemma ReadsSpaced(s: System, bytes: seq<byte>, clock: nat, now: nat, room: bool)
    requires Spaced(s, clock) && clock <= now
    ensures Spaced(PicoReads(s, bytes, now, room), now)
  {
    hide Receive; hide PicoCalls; hide Apart;
    var r := Receive(s.pico, s.picoBuf + bytes);
    CallsSpaced(s.(pico := r.st, picoBuf := r.rest), r.calls, clock, now, room);
  }

  lemma StepSpaced(s: System, a: Action, clock: nat, now: nat)
    requires Spaced(s, clock) && clock <= now && (ReadsClock(a) ==> a.now == now)
    ensures Spaced(Step(s, a), now)
  {
    hide WriteLine; hide PollLog; hide PicoReads; hide Receive; hide Apart; hide Encode;
    match a
    case Write(line, _, room) => WriteSpaced(s, line, clock, now, room);
    case Tick(_) => PollSpaced(s, clock, now);
    case TakeAck(_, room) =>
      if s.toPico != [] { ReadsSpaced(s.(toPico := s.toPico[1..]), s.toPico[0], clock, now, room); }
    case PicoHears(p, _, room) => if Sendable(p) { ReadsSpaced(s, Encode(p), clock, now, room); }
    case _ =>
  }

  lemma {:induction false} RunSpaced(states: seq<System>, actions: seq<Action>, clock: seq<nat>, k: nat)
    requires IsRun(states, actions) && Timed(actions, clock) && k < |states|
    ensures Spaced(states[k], if k == 0 then 0 else clock[k - 1])
  {
    hide Step; hide Spaced;
    if k == 0 {
      InitSpaced();
    } else {
      RunSpaced(states, actions, clock, k - 1);
      assert Follows(states, actions, k - 1);
      StepSpaced(states[k - 1], actions[k - 1], if k == 1 then 0 else clock[k - 2], clock[k - 1]);
    }
  }

  lemma InitSpaced()
    ensures Spaced(Init(), 0)
  {}

  // In every run whose clock does not go back: the k-th state has sent each line's
  // frames in a row, one line after the other, and the frames of one line are at least
  // 100 ms apart.
  lemma ResendsSpaced(states: seq<System>, actions: seq<Action>, clock: seq<nat>, k: nat)
    requires IsRun(states, actions) && Timed(actions, clock) && k < |states|
    ensures var s := states[k];
            && Numbering(s.sentTexts, s.logged, s.sends, Begun(s))
            && forall i :: 0 < i < |s.sends| && s.sends[i].number == s.sends[i - 1].number ==>
                 s.sends[i].at >= s.sends[i - 1].at + 100_000
  {
    assert states[k] in states;
    hide IsRun; hide Numbering; hide Timed;
    ResendsRepeat(states[k]);
    RunSpaced(states, actions, clock, k);
  }

  // ---- At once ----

  // With memory and nothing queued, a line that is logged goes out in the same step.
  lemma FirstGoesOut(s: System, line: Line, now: nat)
    requires Reachable(s) && s.log.queue == [] && s.pico.heap && |line.text| + 2 <= DATA_MAX
    ensures var s' := Step(s, Write(line, now, true));
            && s'.sends == s.sends + [Sending(|s.logged|, now)]
            && |s'.sentTexts| == |s.sentTexts| + 1 && s'.toZero == s.toZero + s'.sentTexts[|s.sentTexts|..]
            && IsTextFrame(s'.sentTexts[|s.sentTexts|], Ctr(|s.logged|), line)
  {
    ReachableInv(s);
    var k, j :| InvAt(s, k, j);
    hide Ctr; hide TextsAt; hide AcksAt; hide Numbering; hide Encode; hide Reachable; hide SendHead; hide FramesOf;
    assert !s.log.inFlight && |s.logged| == |s.popped| && s.pico.tx[TEXT_SLOT] == Ctr(|s.popped|);
    var log := s.log.(queue := s.log.queue + [line]);
    SendHeadIs(s.pico, log, now);
    var p := TextPacket(s.pico.tx[TEXT_SLOT], line.severity, line.source, line.text);
    OneFrame(Encode(p));
    OneStamp(Sending(|s.popped|, now));
    assert (s.sentTexts + [Encode(p)])[|s.sentTexts|..] == [Encode(p)];
  }

  // A confirmation that removes a line puts the next one in flight in the same step.
  lemma NextGoesOut(s: System, now: nat, room: bool)
    requires Reachable(s) && s.pico.heap
    ensures var s' := Step(s, TakeAck(now, room));
            |s'.popped| > |s.popped| && s'.log.queue != [] && |s'.log.queue[0].text| + 2 <= DATA_MAX ==>
              s'.log.inFlight
  {
    ReachableInv(s);
    hide Reachable; hide Step;
    var k, j :| InvAt(s, k, j);
    var k', j' := TakeAckKeeps(s, now, room, k, j);
    if s.toPico == [] { NothingTaken(s, now, room); }
  }

  lemma NothingTaken(s: System, now: nat, room: bool)
    requires s.toPico == []
    ensures Step(s, TakeAck(now, room)) == s
  {}

  // ---- When it is due ----

  // With memory the note of the line in flight is the time of its last sending.
  predicate Prompt(s: System) {
    && s.pico.heap
    && (s.log.inFlight ==>
          var last := |s.sends| - 1;
          && last >= 0 && s.sends[last].number == |s.popped| && s.sends[last].at == s.log.sentUs
          && s.log.queue != [] && |s.log.queue[0].text| + 2 <= DATA_MAX)
  }

  lemma SendHeadPrompt(s: System, now: nat)
    requires Prompt(s) && s.log.queue != [] && !s.log.inFlight
    ensures Prompt(Emit(s, SendHead(s.pico, s.log, now), now))
  {
    SendHeadIs(s.pico, s.log, now);
    hide SendHead; hide Encode; hide Count; hide FramesOf; hide Stamps;
    var r := SendHead(s.pico, s.log, now);
    NothingSent(s);
    if r.calls != [] {
      OneFrame(r.calls[0].frame);
      OneStamp(Sending(|s.popped|, now));
    }
  }

  lemma PollPrompt(s: System, now: nat)
    requires Prompt(s)
    ensures Prompt(PollLog(s, now))
    ensures s.log.inFlight ==>
              PollLog(s, now).sends ==
              s.sends + if Elapsed(now, s.log.sentUs) >= RESEND_US then [Sending(|s.popped|, now)] else []
  {
    hide SendHead; hide Encode; hide FramesOf; hide Elapsed; hide Stamps;
    NothingSent(s);
    assert s.sends + [] == s.sends;
    if s.log.queue == [] {
    } else if !s.log.inFlight {
      SendHeadPrompt(s, now);
    } else if Elapsed(now, s.log.sentUs) >= RESEND_US {
      var head := s.log.queue[0];
      OneFrame(Encode(TextPacket(s.log.counter, head.severity, head.source, head.text)));
      OneStamp(Sending(|s.popped|, now));
    }
  }

  lemma WritePrompt(s: System, line: Line, now: nat, room: bool)
    requires Prompt(s)
    ensures Prompt(WriteLine(s, line, now, room))
  {
    hide Poll; hide FramesOf; hide Stamps;
    NothingSent(s);
    if room {
      var s' := s.(log := s.log.(queue := s.log.queue + [line]), logged := s.logged + [line]);
      PollPrompt(s', now);
      assert PollLog(s', now) == WriteLine(s, line, now, true);
    }
  }

  lemma ConfirmPrompt(s: System, counter: byte, now: nat)
    requires Prompt(s)
    ensures Prompt(Confirm(s, counter, now))
  {
    hide SendHead; hide FramesOf; hide Stamps;
    NothingSent(s);
    assert s.popped + [] == s.popped;
    if Confirms(s.log, counter) {
      var s' := Popped(s);
      if s'.log.queue != [] { SendHeadPrompt(s', now); }
    }
  }

  lemma {:induction false} CallsPrompt(s: System, calls: seq<Call>, now: nat, room: bool)
    requires Prompt(s)
    ensures Prompt(PicoCalls(s, calls, now, room))
    decreases |calls|
  {
    hide WriteLine; hide Confirm; hide Prompt; hide WarnLine;
    if calls != [] {
      match calls[0] {
        case Sent(frame) => FramesPrompt(s, frame);
        case Reported(error, typ) => WritePrompt(s, WarnLine(error, typ), now, room);
        case Delivered(typ, m) => if m.TextAck? { ConfirmPrompt(s, m.counter, now); }
      }
      CallsPrompt(PicoCall(s, calls[0], now, room), calls[1..], now, room);
    }
  }

  lemma FramesPrompt(s: System, frame: seq<byte>)
    requires Prompt(s)
    ensures Prompt(s.(toZero := s.toZero + [frame]))
  {}

  lemma ReadsPrompt(s: System, bytes: seq<byte>, now: nat, room: bool)
    requires Prompt(s)
    ensures Prompt(PicoReads(s, bytes, now, room))
  {
    hide Receive; hide PicoCalls;
    Reactions.ReceiveKeepsMemory(s.pico, s.picoBuf + bytes);
    var r := Receive(s.pico, s.picoBuf + bytes);
    CallsPrompt(s.(pico := r.st, picoBuf := r.rest), r.calls, now, room);
  }

  lemma StepPrompt(s: System, a: Action)
    requires Prompt(s) && a != PicoHeap(false)
    ensures Prompt(Step(s, a))
  {
    hide WriteLine; hide PollLog; hide PicoReads; hide Receive; hide Encode;
    match a
    case Write(line, now, room) => WritePrompt(s, line, now, room);
    case Tick(now) => PollPrompt(s, now);
    case TakeAck(now, room) =>
      if s.toPico != [] { ReadsPrompt(s.(toPico := s.toPico[1..]), s.toPico[0], now, room); }
    case PicoHears(p, now, room) => if Sendable(p) { ReadsPrompt(s, Encode(p), now, room); }
    case _ =>
  }

  lemma {:induction false} RunPrompt(states: seq<System>, actions: seq<Action>, k: nat)
    requires IsRun(states, actions) && PicoHeap(false) !in actions && k < |states|
    ensures Prompt(states[k])
  {
    hide Step; hide Prompt;
    if k == 0 {
      InitPrompt();
    } else {
      RunPrompt(states, actions, k - 1);
      assert Follows(states, actions, k - 1) && actions[k - 1] in actions;
      StepPrompt(states[k - 1], actions[k - 1]);
    }
  }

  lemma InitPrompt()
    ensures Prompt(Init())
  {}

  // In every run with memory: when the main loop polls, the line in flight goes out again
  // if and only if 100 ms have passed since it was last sent.
  lemma ResentIffDue(states: seq<System>, actions: seq<Action>, k: nat, passed: nat)
    requires IsRun(states, actions) && PicoHeap(false) !in actions && k < |states|
    requires states[k].log.inFlight && passed < 0x1_0000_0000_0000_0000
    ensures var s := states[k];
            s.sends != [] &&
            var last := s.sends[|s.sends| - 1];
            last.number == |s.popped| &&
            Step(s, Tick(last.at + passed)).sends ==
            s.sends + if passed >= 100_000 then [Sending(|s.popped|, last.at + passed)] else []
  {
    RunPrompt(states, actions, k);
    hide IsRun; hide PollLog;
    var s := states[k];
    PollPrompt(s, s.log.sentUs + passed);
    assert Elapsed(s.log.sentUs + passed, s.log.sentUs) == passed;
  }

  // A resend that fails for lack of memory is not tried again before another 100 ms.
  lemma FailedResendWaits(s: System, t1: nat, t2: nat)
    requires s.log.queue != [] && s.log.inFlight && !s.pico.heap
    requires s.log.sentUs + 100_000 <= t1 <= t2 < t1 + 100_000 && t2 < 0x1_0000_0000_0000_0000
    ensures var tried := Step(Step(s, Tick(t1)), PicoHeap(true));
            tried.sentTexts == s.sentTexts && Step(tried, Tick(t2)).sentTexts == s.sentTexts
  {
    NothingSent(s);
    var tried := Step(Step(s, Tick(t1)), PicoHeap(true));
    assert Elapsed(t1, s.log.sentUs) >= RESEND_US;
    assert tried.log == s.log.(sentUs := t1);
    assert Elapsed(t2, t1) < RESEND_US;
  }

  // ---- The warning a lost confirmation causes ----

  lemma Ascii(c: char, b: byte)
    requires c as int == Val(b)
    ensures OfNat(c as int % 256) == b
  {
    OfNatVal(b);
    hide OfNat; hide Val;
  }

  lemma Letters()
    ensures OfNat('l' as int % 256) == 0x6C && OfNat('o' as int % 256) == 0x6F && OfNat('s' as int % 256) == 0x73
    ensures OfNat('t' as int % 256) == 0x74 && OfNat(' ' as int % 256) == 0x20
  {
    assert Val(0x6C) == 108 && Val(0x6F) == 111 && Val(0x73) == 115 && Val(0x74) == 116 && Val(0x20) == 32;
    hide OfNat; hide Val;
    Ascii('l', 0x6C);
    Ascii('o', 0x6F);
    Ascii('s', 0x73);
    Ascii('t', 0x74);
    Ascii(' ', 0x20);
  }

  lemma MoreLetters()
    ensures OfNat('e' as int % 256) == 0x65 && OfNat('x' as int % 256) == 0x78 && OfNat('a' as int % 256) == 0x61
    ensures OfNat('c' as int % 256) == 0x63 && OfNat('k' as int % 256) == 0x6B
  {
    assert Val(0x65) == 101 && Val(0x78) == 120 && Val(0x61) == 97 && Val(0x63) == 99 && Val(0x6B) == 107;
    hide OfNat; hide Val;
    Ascii('e', 0x65);
    Ascii('x', 0x78);
    Ascii('a', 0x61);
    Ascii('c', 0x63);
    Ascii('k', 0x6B);
  }

  // It says "lost text ack", as a warning of the link.
  lemma LostAckWarning()
    ensures WarnLine(Lost, 0x84) ==
            Line(1, 11, [0x6C, 0x6F, 0x73, 0x74, 0x20, 0x74, 0x65, 0x78, 0x74, 0x20, 0x61, 0x63, 0x6B])
  {
    hide OfNat;
    Letters();
    MoreLetters();
    assert "lost" + " " + "text ack" == "lost text ack";
  }
}
