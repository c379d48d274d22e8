/**
 The reliable log: the Pico's queue and the two endpoints over two channels that
 keep frames in order and may lose any of them.
 */
module LogProtocol {
  import opened Bytes
  import opened Frames
  import opened Codec
  import opened Endpoint
  import opened LogSpec

  // What the main programs set up, the frames under way, and what has happened.
  datatype System = System(
    pico: State, picoBuf: seq<byte>, log: LogState,
    zero: State, zeroBuf: seq<byte>,
    toZero: seq<seq<byte>>, toPico: seq<seq<byte>>,
    logged: seq<Line>,           // every line ever queued
    popped: seq<Line>,           // the lines removed from the queue
    delivered: seq<Line>,        // the lines the Zero's text handler got
    textErrors: seq<Call>,       // error reports about texts on the Zero
    sentTexts: seq<seq<byte>>,   // every text frame ever sent
    sends: seq<Sending>)         // and for each the number of its line and the time

  datatype Sending = Sending(number: nat, at: nat)

  function Opened(slots: set<int>): State {
    State(seq(TYPE_COUNT, _ => 0), seq(TYPE_COUNT, _ => 0), seq(TYPE_COUNT, _ => false),
          seq(TYPE_COUNT, i => i in slots), true, true)
  }

  function Init(): System {
    System(Opened({7, 8, 9, 10}), [], LogState([], false, 0, 0),
           Opened({0, 1, 2, 3, 4, 5, 6}), [], [], [], [], [], [], [], [], [])
  }

  // ---- What calls lead to ----

  function FramesOf(calls: seq<Call>): seq<seq<byte>> {
    if calls == [] then []
    else if calls[0].Sent? then [calls[0].frame] + FramesOf(calls[1..])
    else FramesOf(calls[1..])
  }

  predicate IsText(c: Call) {
    c.Delivered? && c.message.Text?
  }

  function TextsOf(calls: seq<Call>): seq<Line> {
    if calls == [] then []
    else if IsText(calls[0])
    then [Line(calls[0].message.severity, calls[0].message.source, calls[0].message.text)] + TextsOf(calls[1..])
    else TextsOf(calls[1..])
  }

  function TextErrorsOf(calls: seq<Call>): seq<Call> {
    if calls == [] then []
    else if calls[0].Reported? && calls[0].typ == 0x06 then [calls[0]] + TextErrorsOf(calls[1..])
    else TextErrorsOf(calls[1..])
  }

  function TypeName(typ: byte): string {
    if typ == 0x01 then "imu0" else if typ == 0x02 then "imu1" else if typ == 0x03 then "imu"
    else if typ == 0x04 then "gps" else if typ == 0x05 then "can rx" else if typ == 0x06 then "text"
    else if typ == 0x07 then "reply" else if typ == 0x81 then "command" else if typ == 0x82 then "can tx"
    else if typ == 0x83 then "setting" else if typ == 0x84 then "text ack" else "unknown"
  }

  function ErrorName(error: Error): string {
    match error case Crc => "crc" case Lost => "lost" case Length => "length" case Type => "type"
  }

  // The line the Pico logs about a receive error: a warning from the link.
  function WarnLine(error: Error, typ: byte): Line {
    var text := ErrorName(error) + " " + TypeName(typ);
    Line(1, 11, seq(|text|, i requires 0 <= i < |text| => OfNat(text[i] as int % 256)))
  }

  // The frames of a result go out now; they carry the head of the queue, whose number
  // is that of the lines popped.
  function Emit(s: System, r: Result, now: nat): System {
    s.(pico := r.st, log := r.log, toZero := s.toZero + FramesOf(r.calls),
       sentTexts := s.sentTexts + FramesOf(r.calls),
       sends := s.sends + Stamps(|FramesOf(r.calls)|, Sending(|s.popped|, now)))
  }

  function Stamps(n: nat, x: Sending): (r: seq<Sending>)
    ensures |r| == n
  {
    seq(n, _ => x)
  }

  function WriteLine(s: System, line: Line, now: nat, room: bool): System {
    Emit(s, VLog(s.pico, s.log, line, now, room), now).(logged := s.logged + if room then [line] else [])
  }

  function Confirm(s: System, counter: byte, now: nat): System {
    Emit(s.(popped := s.popped + if Confirms(s.log, counter) then [s.log.queue[0]] else []),
         OnAck(s.pico, s.log, counter, now), now)
  }

  function PollLog(s: System, now: nat): System {
    Emit(s, Poll(s.pico, s.log, now), now)
  }

  // The Pico's handlers: receive errors are logged, confirmations go to the log.
  function PicoCall(s: System, c: Call, now: nat, room: bool): System {
    match c
    case Sent(frame) => s.(toZero := s.toZero + [frame])
    case Reported(error, typ) => WriteLine(s, WarnLine(error, typ), now, room)
    case Delivered(typ, m) => if typ == 0x84 && m.TextAck? then Confirm(s, m.counter, now) else s
  }

  function PicoCalls(s: System, calls: seq<Call>, now: nat, room: bool): System
    decreases |calls|
  {
    if calls == [] then s else PicoCalls(PicoCall(s, calls[0], now, room), calls[1..], now, room)
  }

  function PicoReads(s: System, bytes: seq<byte>, now: nat, room: bool): System {
    var r := Receive(s.pico, s.picoBuf + bytes);
    PicoCalls(s.(pico := r.st, picoBuf := r.rest), r.calls, now, room)
  }

  function ZeroReads(s: System, bytes: seq<byte>): System {
    var r := Receive(s.zero, s.zeroBuf + bytes);
    s.(zero := r.st, zeroBuf := r.rest, delivered := s.delivered + TextsOf(r.calls),
       toPico := s.toPico + FramesOf(r.calls), textErrors := s.textErrors + TextErrorsOf(r.calls))
  }

  // ---- Steps ----

  // `room`: there is memory for the entry of a line that is logged.
  datatype Action =
    | Write(line: Line, now: nat, room: bool)    // something on the Pico logs a line
    | Tick(now: nat)                             // the Pico's main loop polls the log
    | TakeText                                   // the Zero takes the oldest frame
    | TakeAck(now: nat, room: bool)              // the Pico takes the oldest frame
    | LoseText(i: nat)                           // any frame under way is lost
    | LoseAck(i: nat)
    | PicoHeap(ok: bool)                         // memory for frames runs out or is back
    | ZeroHeap(ok: bool)
    | ZeroHears(other: Packet)                   // frames of other types go the same way
    | PicoHears(other: Packet, now: nat, room: bool)

  function Without<T>(q: seq<T>, i: nat): seq<T> {
    if i < |q| then q[..i] + q[i + 1..] else q
  }

  function Step(s: System, a: Action): System {
    match a
    case Write(line, now, room) => WriteLine(s, line, now, room)
    case Tick(now) => PollLog(s, now)
    case TakeText => if s.toZero == [] then s else ZeroReads(s.(toZero := s.toZero[1..]), s.toZero[0])
    case TakeAck(now, room) =>
      if s.toPico == [] then s else PicoReads(s.(toPico := s.toPico[1..]), s.toPico[0], now, room)
    case LoseText(i) => s.(toZero := Without(s.toZero, i))
    case LoseAck(i) => s.(toPico := Without(s.toPico, i))
    case PicoHeap(ok) => s.(pico := s.pico.(heap := ok))
    case ZeroHeap(ok) => s.(zero := s.zero.(heap := ok))
    case ZeroHears(p) => if p.typ == 0x06 || !Sendable(p) then s else ZeroReads(s, Encode(p))
    case PicoHears(p, now, room) =>
      if p.typ == 0x06 || p.typ == 0x84 || !Sendable(p) then s else PicoReads(s, Encode(p), now, room)
  }

  // A run: each state comes from the one before by one action.
  ghost predicate Follows(states: seq<System>, actions: seq<Action>, i: nat)
    requires i < |actions| < |states|
  {
    states[i + 1] == Step(states[i], actions[i])
  }

  ghost predicate IsRun(states: seq<System>, actions: seq<Action>) {
    && |states| == |actions| + 1
    && states[0] == Init()
    && forall i :: 0 <= i < |actions| ==> Follows(states, actions, i)
  }

  // The states of all runs.
  ghost predicate Reachable(s: System) {
    exists states: seq<System>, actions: seq<Action> :: IsRun(states, actions) && s in states
  }

  // ---- What is under way ----

  function AckPacket(t: byte, counter: byte): Packet {
    Packet(0x84, t, [counter])
  }

  ghost predicate IsTextFrame(frame: seq<byte>, counter: byte, line: Line) {
    var p := TextPacket(counter, line.severity, line.source, line.text);
    Sendable(p) && frame == Encode(p)
  }

  ghost predicate IsAck(frame: seq<byte>, counter: byte) {
    exists t :: frame == Encode(AckPacket(t, counter))
  }

  ghost predicate AllText(frames: seq<seq<byte>>, counter: byte, line: Line) {
    forall i :: 0 <= i < |frames| ==> IsTextFrame(frames[i], counter, line)
  }

  ghost predicate AllAck(frames: seq<seq<byte>>, counter: byte) {
    forall i :: 0 <= i < |frames| ==> IsAck(frames[i], counter)
  }

  // Frame by frame the number of the line it carries: line 0 first, then each time the
  // same line again or the next one, up to the last of the n lines begun. Line m
  // travels with counter m mod 256.
  ghost predicate Numbering(frames: seq<seq<byte>>, logged: seq<Line>, sends: seq<Sending>, n: nat) {
    && |sends| == |frames| && n <= |logged|
    && (forall i :: 0 <= i < |sends| ==>
          sends[i].number < n && IsTextFrame(frames[i], Ctr(sends[i].number), logged[sends[i].number]))
    && (forall i :: 0 < i < |sends| ==> sends[i - 1].number <= sends[i].number <= sends[i - 1].number + 1)
    && (sends != [] ==> sends[0].number == 0)
    && (if n == 0 then sends == [] else sends != [] && sends[|sends| - 1].number == n - 1)
  }

  // How many lines were ever sent.
  function Begun(s: System): nat {
    |s.popped| + if s.log.inFlight then 1 else 0
  }

  // The first k texts repeat the line delivered last; the others, if there may be
  // any, carry the next one.
  ghost predicate TextsAt(q: seq<seq<byte>>, k: nat, D: nat, isNext: bool, logged: seq<Line>) {
    && k <= |q|
    && (k > 0 ==> 0 < D <= |logged| && AllText(q[..k], Ctr(D - 1), logged[D - 1]))
    && (k < |q| ==> isNext && D < |logged| && AllText(q[k..], Ctr(D), logged[D]))
  }

  // The first j confirmations are for the line popped last; the others, if there
  // may be any, for the head of the queue.
  ghost predicate AcksAt(q: seq<seq<byte>>, j: nat, P: nat, ahead: bool) {
    && j <= |q|
    && (j > 0 ==> P > 0 && AllAck(q[..j], Ctr(P - 1)))
    && (j < |q| ==> ahead && AllAck(q[j..], Ctr(P)))
  }

  ghost predicate CoreAt(s: System, k: nat, j: nat) {
    var P, D := |s.popped|, |s.delivered|;
    && s.logged == s.popped + s.log.queue
    && P <= D <= P + 1 && D <= |s.logged| && s.delivered == s.logged[..D]
    && s.picoBuf == [] && s.zeroBuf == [] && s.textErrors == []
    && s.zero.handled[TEXT_SLOT]
    && s.pico.handled[ACK_SLOT]
    && (if s.log.inFlight
        then s.log.queue != [] && s.log.counter == Ctr(P) && s.pico.tx[TEXT_SLOT] == Ctr(P + 1)
        else D == P && s.pico.tx[TEXT_SLOT] == Ctr(P))
    && s.zero.seen[TEXT_SLOT] == (D > 0)
    && (D > 0 ==> s.zero.rx[TEXT_SLOT] == Ctr(D - 1))
    && TextsAt(s.toZero, k, D, s.log.inFlight && D == P, s.logged)
    && AcksAt(s.toPico, j, P, D == P + 1)
  }

  ghost predicate InvAt(s: System, k: nat, j: nat) {
    CoreAt(s, k, j) && Numbering(s.sentTexts, s.logged, s.sends, Begun(s))
  }

  ghost predicate Inv(s: System) {
    exists k: nat, j: nat :: InvAt(s, k, j)
  }

  lemma InitInv()
    ensures InvAt(Init(), 0, 0)
  {
    hide OfNat;
    OfNatZero();
    assert Numbering(Init().sentTexts, Init().logged, [], 0);
  }

  // ---- What one frame does ----

  lemma ReceiveFrame(st: State, p: Packet)
    requires Sendable(p)
    ensures Receive(st, [] + Encode(p)) == Received(Handle(st, p).st, Handle(st, p).calls, [])
  {
    hide Encode; hide Scan; hide Handle;
    assert [] + Encode(p) == Encode(p) + [];
    ScanEncoded(p, []);
    ScanNothing();
    var e := [Got(p)];
    assert [Got(p)] + [] == e && e[1..] == [];
    assert Endpoint.Run(st, e) == Outcome(Handle(st, p).st, Handle(st, p).calls) by {
      assert Endpoint.Run(Handle(st, p).st, e[1..]) == Outcome(Handle(st, p).st, []);
      assert Handle(st, p).calls + [] == Handle(st, p).calls;
    }
  }

  // SendHead and Resend put the head of the queue on the wire, or nothing.
  lemma SendHeadIs(st: State, log: LogState, now: nat)
    requires log.queue != []
    ensures var head := log.queue[0];
            var p := TextPacket(st.tx[TEXT_SLOT], head.severity, head.source, head.text);
            SendHead(st, log, now) ==
            if Sendable(p) && st.heap
            then Result(st.(tx := st.tx[TEXT_SLOT := Count(st.tx[TEXT_SLOT])]),
                        log.(inFlight := true, counter := st.tx[TEXT_SLOT], sentUs := now), [Sent(Encode(p))])
            else Result(st, log, [])
  {
    var head := log.queue[0];
    TextPacks(st, head.severity, head.source, head.text);
    hide Send; hide Encode; hide Count; hide Fits; hide KindOf; hide Val;
  }

  lemma OneFrame(frame: seq<byte>)
    ensures FramesOf([Sent(frame)]) == [frame]
  {}

  // ---- Every step keeps the invariant ----

  lemma AllTextSnoc(frames: seq<seq<byte>>, frame: seq<byte>, counter: byte, line: Line)
    requires AllText(frames, counter, line) && IsTextFrame(frame, counter, line)
    ensures AllText(frames + [frame], counter, line)
  {
    hide IsTextFrame;
  }

  // One more frame of the line in flight: a repeat if it was delivered, else new.
  lemma HeadSent(s: System, frame: seq<byte>, now: nat, n: nat, k: nat, j: nat) returns (k': nat)
    requires CoreAt(s, k, j) && s.log.inFlight
    requires Numbering(s.sentTexts, s.logged, s.sends, n) && |s.popped| <= n <= |s.popped| + 1
    requires IsTextFrame(frame, s.log.counter, s.log.queue[0])
    ensures InvAt(s.(toZero := s.toZero + [frame], sentTexts := s.sentTexts + [frame],
                     sends := s.sends + [Sending(|s.popped|, now)]), k', j)
    ensures k' < |s.toZero| + 1 || |s.delivered| == |s.popped| + 1
  {
    hide Ctr; hide IsTextFrame; hide AllText; hide AllAck; hide Numbering;
    var P, D := |s.popped|, |s.delivered|;
    var more := s.toZero + [frame];
    var line := s.logged[P];
    assert s.log.queue[0] == line;
    NumberedSnoc(s.sentTexts, frame, s.logged, s.sends, Sending(P, now), n);
    Nothing(Ctr(P), line);
    if D == P + 1 {
      k' := k + 1;
      assert more[..k'] == s.toZero[..k] + [frame];
      if k == 0 { assert s.toZero[..k] == []; }
      AllTextSnoc(s.toZero[..k], frame, Ctr(P), line);
    } else {
      k' := k;
      assert more[..k] == s.toZero[..k];
      assert more[k..] == s.toZero[k..] + [frame];
      if k == |s.toZero| { assert s.toZero[k..] == []; }
      AllTextSnoc(s.toZero[k..], frame, Ctr(P), line);
    }
  }

  // One more frame of line m, the last one begun or the next.
  lemma NumberedSnoc(frames: seq<seq<byte>>, frame: seq<byte>, logged: seq<Line>,
                     sends: seq<Sending>, x: Sending, n: nat)
    requires Numbering(frames, logged, sends, n) && x.number < |logged| && x.number <= n <= x.number + 1
    requires IsTextFrame(frame, Ctr(x.number), logged[x.number])
    ensures Numbering(frames + [frame], logged, sends + [x], x.number + 1)
  {
    hide IsTextFrame; hide Ctr;
  }

  lemma NumberedMore(frames: seq<seq<byte>>, logged: seq<Line>, line: Line, sends: seq<Sending>, n: nat)
    requires Numbering(frames, logged, sends, n)
    ensures Numbering(frames, logged + [line], sends, n)
  {
    hide IsTextFrame; hide Ctr;
  }

  lemma Nothing(counter: byte, line: Line)
    ensures AllText([], counter, line)
    ensures AllAck([], counter)
  {}

  // The head of the queue goes out for the first time.
  lemma SendHeadKeeps(s: System, now: nat, k: nat, j: nat) returns (k': nat)
    requires InvAt(s, k, j) && s.log.queue != [] && !s.log.inFlight
    ensures InvAt(Emit(s, SendHead(s.pico, s.log, now), now), k', j)
    ensures var s' := Emit(s, SendHead(s.pico, s.log, now), now);
            s.pico.heap && |s.log.queue[0].text| + 2 <= DATA_MAX ==>
              |s'.toZero| == |s.toZero| + 1 && k' < |s'.toZero| && s'.log.inFlight
    ensures var s' := Emit(s, SendHead(s.pico, s.log, now), now);
            s'.log.queue == s.log.queue && s'.pico.heap == s.pico.heap
  {
    hide Ctr; hide AllText; hide AcksAt; hide Numbering; hide Encode; hide Count; hide FramesOf; hide SendHead;
    var P := |s.popped|;
    SendHeadIs(s.pico, s.log, now);
    CtrNext(P);
    var r := SendHead(s.pico, s.log, now);
    k' := k;
    if r.calls == [] {
      NothingSent(s);
    } else {
      var s' := s.(pico := r.st, log := r.log);
      var frame := r.calls[0].frame;
      assert r.calls == [Sent(frame)];
      OneFrame(frame);
      assert CoreAt(s', k, j);
      OneStamp(Sending(P, now));
      k' := HeadSent(s', frame, now, Begun(s), k, j);
    }
  }

  lemma OneStamp(x: Sending)
    ensures Stamps(1, x) == [x]
  {}

  lemma NothingSent(s: System)
    ensures FramesOf([]) == []
    ensures s.toZero + [] == s.toZero && s.sentTexts + [] == s.sentTexts
    ensures forall x :: s.sends + Stamps(0, x) == s.sends
  {}

  // The Pico's next poll puts the head of the queue on the wire.
  predicate Due(s: System, now: nat) {
    s.log.queue != [] && s.pico.heap && |s.log.queue[0].text| + 2 <= DATA_MAX &&
    (s.log.inFlight ==> Elapsed(now, s.log.sentUs) >= RESEND_US)
  }

  // The line in flight goes out again.
  lemma ResendKeeps(s: System, now: nat, k: nat, j: nat) returns (k': nat)
    requires InvAt(s, k, j) && s.log.inFlight && s.log.queue != [] && Elapsed(now, s.log.sentUs) >= RESEND_US
    ensures InvAt(PollLog(s, now), k', j)
    ensures var s' := PollLog(s, now);
            && s'.log == s.log.(sentUs := now) && s'.pico == s.pico
            && |s'.toZero| >= |s.toZero|
            && (s.pico.heap && |s.log.queue[0].text| + 2 <= DATA_MAX ==>
                  |s'.toZero| == |s.toZero| + 1 && (k' < |s'.toZero| || |s.delivered| == |s.popped| + 1))
  {
    hide Ctr; hide TextsAt; hide AcksAt; hide Numbering; hide Encode; hide FramesOf; hide SendHead; hide Elapsed;
    hide Stamps;
    k' := k;
    NothingSent(s);
    var head := s.log.queue[0];
    var p := TextPacket(s.log.counter, head.severity, head.source, head.text);
    var s' := s.(log := s.log.(sentUs := now));
    assert CoreAt(s', k, j);
    if Sendable(p) && s.pico.heap {
      OneFrame(Encode(p));
      OneStamp(Sending(|s.popped|, now));
      k' := HeadSent(s', Encode(p), now, Begun(s), k, j);
    }
  }

  lemma PollKeeps(s: System, now: nat, k: nat, j: nat) returns (k': nat)
    requires InvAt(s, k, j)
    ensures InvAt(PollLog(s, now), k', j)
    ensures Due(s, now) ==>
              var s' := PollLog(s, now);
              |s'.toZero| == |s.toZero| + 1 && (k' < |s'.toZero| || |s.delivered| == |s.popped| + 1) &&
              s'.log.inFlight
    ensures PollLog(s, now).log.queue == s.log.queue && PollLog(s, now).pico.heap == s.pico.heap
  {
    hide CoreAt; hide Numbering; hide FramesOf; hide SendHead; hide Elapsed; hide Stamps; hide Resend;
    k' := k;
    NothingSent(s);
    if s.log.queue == [] {
    } else if !s.log.inFlight {
      k' := SendHeadKeeps(s, now, k, j);
    } else if Elapsed(now, s.log.sentUs) >= RESEND_US {
      k' := ResendKeeps(s, now, k, j);
    }
  }

  lemma WriteKeeps(s: System, line: Line, now: nat, room: bool, k: nat, j: nat) returns (k': nat)
    requires InvAt(s, k, j)
    ensures InvAt(WriteLine(s, line, now, room), k', j)
  {
    hide Ctr; hide AllText; hide AcksAt; hide Numbering; hide FramesOf; hide Poll;
    NothingSent(s);
    assert s.logged + [] == s.logged;
    k' := k;
    if room {
      k' := WriteRoomKeeps(s, line, now, k, j);
    }
  }

  lemma WriteRoomKeeps(s: System, line: Line, now: nat, k: nat, j: nat) returns (k': nat)
    requires InvAt(s, k, j)
    ensures InvAt(WriteLine(s, line, now, true), k', j)
  {
    hide Ctr; hide AllText; hide AcksAt; hide Numbering; hide FramesOf; hide Poll;
    var s' := s.(log := s.log.(queue := s.log.queue + [line]), logged := s.logged + [line]);
    NumberedMore(s.sentTexts, s.logged, line, s.sends, Begun(s));
    assert s'.logged == s.popped + s'.log.queue;
    assert s'.logged[..|s.delivered|] == s.logged[..|s.delivered|];
    assert InvAt(s', k, j);
    k' := PollKeeps(s', now, k, j);
    assert PollLog(s', now) == WriteLine(s, line, now, true);
  }

  function Head(queue: seq<Line>): seq<Line> {
    if queue == [] then [] else [queue[0]]
  }

  // The head leaves the queue.
  function Popped(s: System): System
    requires s.log.queue != []
  {
    s.(log := s.log.(queue := s.log.queue[1..], inFlight := false), popped := s.popped + [s.log.queue[0]])
  }

  lemma PopKeeps(s: System, k: nat, j: nat)
    requires InvAt(s, k, j) && s.log.inFlight && |s.delivered| == |s.popped| + 1 && j == 0
    ensures InvAt(Popped(s), k, |s.toPico|)
  {
    hide Ctr; hide AllText; hide AllAck; hide Numbering;
    var P := |s.popped|;
    assert s.logged == Popped(s).popped + Popped(s).log.queue;
    assert s.toPico[0..] == s.toPico && s.toPico[..|s.toPico|] == s.toPico;
  }

  // There is a head of the queue, and it can be sent.
  predicate HeadReady(s: System) {
    s.pico.heap && s.log.queue != [] && |s.log.queue[0].text| + 2 <= DATA_MAX
  }

  // A confirmation of the line in flight, with no older one behind it, or of the
  // line popped last.
  lemma ConfirmKeeps(s: System, counter: byte, now: nat, k: nat, j: nat) returns (k': nat, j': nat)
    requires InvAt(s, k, j)
    requires var P := |s.popped|;
             (counter == Ctr(P) && |s.delivered| == P + 1 && j == 0) || (P > 0 && counter == Ctr(P - 1))
    ensures InvAt(Confirm(s, counter, now), k', j')
    ensures var s' := Confirm(s, counter, now);
            s'.toPico == s.toPico && s'.logged == s.logged &&
            (if counter == Ctr(|s.popped|) then s'.popped == s.popped + Head(s.log.queue) && j' == |s.toPico|
             else s'.popped == s.popped && j' == j && s'.log.queue == s.log.queue)
    ensures var s' := Confirm(s, counter, now);
            counter == Ctr(|s.popped|) && HeadReady(s') ==> s'.log.inFlight
    ensures Confirm(s, counter, now).pico.heap == s.pico.heap && Confirm(s, counter, now).zero == s.zero
  {
    hide Ctr; hide TextsAt; hide AcksAt; hide Numbering; hide FramesOf; hide SendHead;
    var P := |s.popped|;
    if P > 0 { CtrNext(P - 1); }
    k', j' := k, j;
    NothingSent(s);
    assert s.popped + [] == s.popped;
    if Confirms(s.log, counter) {
      var s' := Popped(s);
      PopKeeps(s, k, j);
      j' := |s.toPico|;
      if s'.log.queue != [] {
        k' := SendHeadKeeps(s', now, k, j');
        SendHeadIs(s'.pico, s'.log, now);
      }
    }
  }

  // ---- Frames arriving on the Pico ----

  predicate AllHarmless(calls: seq<Call>, typ: byte) {
    forall i :: 0 <= i < |calls| ==> Harmless(calls[i], typ)
  }

  lemma DeliverOther(st: State, p: Packet)
    requires p.typ != 0x06 && Slot(p.typ) >= 0
    ensures Deliver(st, p).st == st && AllHarmless(Deliver(st, p).calls, p.typ)
  {
    OtherIsNoText(p.typ, p.data);
    hide Slot; hide KindOf; hide Unpack; hide Fits; hide Ack;
  }

  lemma NoteOther(st: State, p: Packet)
    requires p.typ != 0x06 && Slot(p.typ) >= 0
    ensures var n := Note(st, p);
            n.st.(rx := st.rx, seen := st.seen) == st && AllHarmless(n.calls, p.typ) &&
            n.st.rx[TEXT_SLOT] == st.rx[TEXT_SLOT] && n.st.seen[TEXT_SLOT] == st.seen[TEXT_SLOT]
  {
    SlotOther(p.typ);
    hide Slot; hide KindOf; hide Count;
  }

  // What Handle does with a frame that is not a text: nothing is sent, no other
  // type's counter moves.
  lemma HandleOther(st: State, p: Packet)
    requires p.typ != 0x06
    ensures var h := Handle(st, p);
            h.st.(rx := st.rx, seen := st.seen) == st && AllHarmless(h.calls, p.typ) &&
            h.st.rx[TEXT_SLOT] == st.rx[TEXT_SLOT] && h.st.seen[TEXT_SLOT] == st.seen[TEXT_SLOT]
  {
    hide Slot; hide Note; hide Deliver; hide IsRepeat; hide Ack;
    if Slot(p.typ) >= 0 {
      NoRepeat(st, p);
      NoteOther(st, p);
      DeliverOther(Note(st, p).st, p);
    }
  }

  lemma NoRepeat(st: State, p: Packet)
    requires p.typ != 0x06 && Slot(p.typ) >= 0
    ensures !IsRepeat(st, p)
  {}

  predicate Harmless(c: Call, typ: byte) {
    !c.Sent? && !IsText(c) && c.typ == typ
  }

  lemma SlotOther(typ: byte)
    requires typ != 0x06
    ensures Slot(typ) != TEXT_SLOT
  {}

  lemma OtherIsNoText(typ: byte, data: seq<byte>)
    requires typ != 0x06 && KindOf(typ) != Unknown
    ensures Unpack(typ, data).Some? ==> !Unpack(typ, data).value.Text?
  {
    hide UnpackImu; hide UnpackGps; hide UnpackCan; hide ToU32; hide ToU16;
  }

  lemma HandleAck(st: State, t: byte, counter: byte)
    requires st.handled[ACK_SLOT]
    ensures var h := Handle(st, AckPacket(t, counter));
            h.calls == [Delivered(0x84, TextAck(counter))] ||
            h.calls == [Reported(Lost, 0x84), Delivered(0x84, TextAck(counter))]
  {
    AckUnpacks(t, counter);
    hide Slot; hide KindOf; hide Unpack; hide Count; hide Fits;
    NoRepeat(st, AckPacket(t, counter));
    hide IsRepeat;
    var d := [Delivered(0x84, TextAck(counter))];
    assert [] + d == d;
  }

  lemma AckUnpacks(t: byte, counter: byte)
    ensures var p := AckPacket(t, counter);
            Slot(p.typ) == ACK_SLOT && Unpack(p.typ, p.data) == Some(TextAck(counter))
  {}

  lemma PicoKeeps(s: System, st: State, k: nat, j: nat)
    requires InvAt(s, k, j) && st.(rx := s.pico.rx, seen := s.pico.seen) == s.pico
    ensures InvAt(s.(pico := st), k, j)
  {
    hide Ctr; hide TextsAt; hide AcksAt; hide Numbering;
  }

  // The oldest confirmation leaves the channel; what it can say.
  lemma FirstAck(s: System, k: nat, j: nat) returns (t: byte, counter: byte, j': nat)
    requires InvAt(s, k, j) && s.toPico != []
    ensures s.toPico[0] == Encode(AckPacket(t, counter))
    ensures InvAt(s.(toPico := s.toPico[1..]), k, j')
    ensures var P := |s.popped|;
            (counter == Ctr(P) && |s.delivered| == P + 1 && j == j' == 0) ||
            (j > 0 && j' == j - 1 && P > 0 && counter == Ctr(P - 1))
  {
    hide Ctr; hide AllText; hide Numbering; hide Encode;
    var P := |s.popped|;
    var rest := s.toPico[1..];
    if j > 0 {
      counter, j' := Ctr(P - 1), j - 1;
      assert s.toPico[..j][0] == s.toPico[0];
      assert IsAck(s.toPico[0], counter);
      assert rest[..j'] == s.toPico[..j][1..] && rest[j'..] == s.toPico[j..];
    } else {
      counter, j' := Ctr(P), 0;
      assert s.toPico[j..][0] == s.toPico[0];
      assert IsAck(s.toPico[0], counter);
      assert rest[0..] == s.toPico[j..][1..];
    }
    t :| s.toPico[0] == Encode(AckPacket(t, counter));
  }

  lemma TakeAckKeeps(s: System, now: nat, room: bool, k: nat, j: nat) returns (k': nat, j': nat)
    requires InvAt(s, k, j)
    ensures InvAt(Step(s, TakeAck(now, room)), k', j')
    ensures s.toPico != [] ==>
              var s' := Step(s, TakeAck(now, room));
              s'.toPico == s.toPico[1..] && s.logged <= s'.logged &&
              s'.pico.heap == s.pico.heap && s'.zero == s.zero &&
              (if j > 0 then s'.popped == s.popped && j' == j - 1 && s.log.queue <= s'.log.queue
               else s.log.queue != [] && s'.popped == s.popped + Head(s.log.queue) && j' == |s'.toPico| &&
                    (HeadReady(s') ==> s'.log.inFlight))
  {
    hide Ctr; hide TextsAt; hide AcksAt; hide Numbering; hide Encode; hide Handle; hide Receive; hide InvAt;
    hide WriteLine; hide Confirm; hide WarnLine;
    k', j' := k, j;
    if s.toPico != [] {
      var t, counter;
      t, counter, j' := FirstAck(s, k, j);
      var s0 := s.(toPico := s.toPico[1..]);
      var p := AckPacket(t, counter);
      InvParts(s0, k, j');
      InFlightParts(s0, k, j');
      if |s.popped| > 0 { CtrNext(|s.popped| - 1); }
      var h := Handle(s0.pico, p);
      ReceiveFrame(s0.pico, p);
      HandleOther(s0.pico, p);
      HandleAck(s0.pico, t, counter);
      PicoKeeps(s0, h.st, k, j');
      var s1 := s0.(pico := h.st);
      assert s1 == s0.(pico := h.st, picoBuf := []);
      var d := Delivered(0x84, TextAck(counter));
      if h.calls == [d] {
        PlayOne(s1, d, now, room);
        k', j' := ConfirmKeeps(s1, counter, now, k, j');
      } else {
        PlayTwo(s1, Reported(Lost, 0x84), d, now, room);
        var warn := WarnLine(Lost, 0x84);
        var k1 := WriteKeeps(s1, warn, now, room, k, j');
        WriteLineKeeps(s1, warn, now, room);
        k', j' := ConfirmKeeps(WriteLine(s1, warn, now, room), counter, now, k1, j');
      }
    }
  }

  lemma InvParts(s: System, k: nat, j: nat)
    requires InvAt(s, k, j)
    ensures s.picoBuf == [] && s.zeroBuf == [] && s.pico.handled[ACK_SLOT] && s.zero.handled[TEXT_SLOT]
  {
    hide Ctr; hide TextsAt; hide AcksAt; hide Numbering;
  }

  lemma InFlightParts(s: System, k: nat, j: nat)
    requires InvAt(s, k, j)
    ensures |s.delivered| == |s.popped| + 1 ==> s.log.inFlight && s.log.queue != []
  {
    hide Ctr; hide TextsAt; hide AcksAt; hide Numbering;
  }

  lemma PlayOne(s: System, c: Call, now: nat, room: bool)
    ensures PicoCalls(s, [c], now, room) == PicoCall(s, c, now, room)
  {
    hide PicoCall;
    assert PicoCalls(PicoCall(s, c, now, room), [c][1..], now, room) == PicoCall(s, c, now, room);
  }

  lemma PlayTwo(s: System, c: Call, d: Call, now: nat, room: bool)
    ensures PicoCalls(s, [c, d], now, room) == PicoCall(PicoCall(s, c, now, room), d, now, room)
  {
    hide PicoCall;
    assert [c, d][1..] == [d];
    PlayOne(PicoCall(s, c, now, room), d, now, room);
  }

  lemma WriteLineKeeps(s: System, line: Line, now: nat, room: bool)
    ensures var s' := WriteLine(s, line, now, room);
            var more := if room then [line] else [];
            s'.popped == s.popped && s'.delivered == s.delivered && s'.toPico == s.toPico &&
            s'.logged == s.logged + more && s'.log.queue == s.log.queue + more &&
            s'.pico.(tx := s.pico.tx) == s.pico && s'.zero == s.zero
  {
    hide FramesOf; hide SendHead; hide Elapsed; hide Encode; hide Count; hide Sendable;
    if room {
      SendHeadIs(s.pico, s.log.(queue := s.log.queue + [line]), now);
    }
  }

  // ---- Texts arriving on the Zero ----

  lemma AckIs(st: State, counter: byte)
    ensures var a := Ack(st, counter);
            a.st.(tx := st.tx) == st &&
            a.calls == if st.heap then [Sent(Encode(AckPacket(st.tx[ACK_SLOT], counter)))] else []
  {
    AckPacks(counter);
    hide Encode; hide Pack; hide Count; hide Slot; hide KindOf; hide Fits; hide Val;
  }

  lemma AckPacks(counter: byte)
    ensures Slot(0x84) == ACK_SLOT && Fits(KindOf(0x84), TextAck(counter)) && Pack(0x84, TextAck(counter)) == Some([counter])
  {}

  lemma TextUnpacks(counter: byte, line: Line)
    ensures var p := TextPacket(counter, line.severity, line.source, line.text);
            Slot(p.typ) == TEXT_SLOT && Unpack(p.typ, p.data) == Some(Text(line.severity, line.source, line.text))
  {
    var p := TextPacket(counter, line.severity, line.source, line.text);
    assert p.data[2..] == line.text;
  }

  // The calls confirm with `counter` if memory allows, and deliver `lines`.
  ghost predicate Answers(calls: seq<Call>, heap: bool, counter: byte, lines: seq<Line>) {
    && TextsOf(calls) == lines && TextErrorsOf(calls) == []
    && |FramesOf(calls)| == (if heap then 1 else 0)
    && AllAck(FramesOf(calls), counter)
  }

  lemma AnswersAck(t: byte, counter: byte)
    ensures Answers([Sent(Encode(AckPacket(t, counter)))], true, counter, [])
  {
    hide Encode;
    var f := Encode(AckPacket(t, counter));
    var calls := [Sent(f)];
    assert calls[1..] == [];
    assert TextsOf(calls) == TextsOf(calls[1..]) == [];
    assert TextErrorsOf(calls) == TextErrorsOf(calls[1..]) == [];
    OneFrame(f);
    assert IsAck(f, counter);
    hide IsAck;
  }

  lemma AnswersNothing(counter: byte)
    ensures Answers([], false, counter, [])
  {}

  lemma AnswersThen(calls: seq<Call>, heap: bool, counter: byte, m: Message)
    requires Answers(calls, heap, counter, []) && |calls| <= 1 && m.Text?
    ensures Answers(calls + [Delivered(0x06, m)], heap, counter, [Line(m.severity, m.source, m.text)])
  {
    hide AllAck;
    var d := [Delivered(0x06, m)];
    var all := calls + d;
    if calls == [] {
      assert all == d && d[1..] == [];
    } else {
      assert all[1..] == d && d[1..] == [] && calls[1..] == [];
      assert all[0] == calls[0];
      assert FramesOf(d) == FramesOf(calls[1..]) == [] && TextErrorsOf(d) == TextErrorsOf(calls[1..]) == [];
      assert TextsOf(calls[1..]) == [];
      assert TextsOf(d) == [Line(m.severity, m.source, m.text)] + TextsOf(d[1..]);
    }
  }

  lemma HandleText(st: State, counter: byte, line: Line)
    requires st.handled[TEXT_SLOT]
    requires !st.seen[TEXT_SLOT] || counter == st.rx[TEXT_SLOT] || counter == Count(st.rx[TEXT_SLOT])
    ensures var h := Handle(st, TextPacket(counter, line.severity, line.source, line.text));
            if st.seen[TEXT_SLOT] && counter == st.rx[TEXT_SLOT]
            then h.st.(tx := st.tx) == st && Answers(h.calls, st.heap, counter, [])
            else h.st.(tx := st.tx) == st.(rx := st.rx[TEXT_SLOT := counter], seen := st.seen[TEXT_SLOT := true]) &&
                 Answers(h.calls, st.heap, counter, [line])
  {
    TextUnpacks(counter, line);
    var p := TextPacket(counter, line.severity, line.source, line.text);
    hide Slot; hide KindOf; hide Unpack; hide Count; hide Fits; hide Ack; hide Answers; hide Encode;
    var repeat := st.seen[TEXT_SLOT] && counter == st.rx[TEXT_SLOT];
    var noted := if repeat then st else Note(st, p).st;
    var a := Ack(noted, counter);
    AckIs(noted, counter);
    AnswersNothing(counter);
    AnswersAck(noted.tx[ACK_SLOT], counter);
    assert Answers(a.calls, st.heap, counter, []);
    if !repeat {
      var m := Text(line.severity, line.source, line.text);
      AnswersThen(a.calls, st.heap, counter, m);
      assert Note(st, p).calls == [];
      var d := Deliver(noted, p);
      assert d.calls == a.calls + [Delivered(0x06, m)];
      assert [] + d.calls == d.calls;
    }
  }

  // The oldest text leaves the channel; it is the line delivered last, or the next one.
  lemma FirstText(s: System, k: nat, j: nat) returns (counter: byte, line: Line, k': nat)
    requires InvAt(s, k, j) && s.toZero != []
    ensures IsTextFrame(s.toZero[0], counter, line)
    ensures InvAt(s.(toZero := s.toZero[1..]), k', j)
    ensures var D := |s.delivered|;
            (k > 0 && k' == k - 1 && D > 0 && counter == Ctr(D - 1) && line == s.logged[D - 1]) ||
            (k == k' == 0 && s.log.inFlight && D == |s.popped| && counter == Ctr(D) && line == s.logged[D])
  {
    hide Ctr; hide IsTextFrame; hide AllAck; hide Numbering;
    var D := |s.delivered|;
    var rest := s.toZero[1..];
    if k > 0 {
      counter, line, k' := Ctr(D - 1), s.logged[D - 1], k - 1;
      assert s.toZero[..k][0] == s.toZero[0];
      assert rest[..k'] == s.toZero[..k][1..] && rest[k'..] == s.toZero[k..];
    } else {
      counter, line, k' := Ctr(D), s.logged[D], 0;
      assert s.toZero[k..][0] == s.toZero[0];
      assert rest[0..] == s.toZero[k..][1..];
    }
  }

  function ZeroAfter(s: System, h: Outcome): System {
    s.(zero := h.st, delivered := s.delivered + TextsOf(h.calls), toPico := s.toPico + FramesOf(h.calls),
       textErrors := s.textErrors + TextErrorsOf(h.calls))
  }

  lemma ZeroReadsFrame(s: System, p: Packet)
    requires Sendable(p) && s.zeroBuf == []
    ensures ZeroReads(s, Encode(p)) == ZeroAfter(s, Handle(s.zero, p))
  {
    ReceiveFrame(s.zero, p);
    hide Encode; hide Receive; hide Handle; hide TextsOf; hide FramesOf; hide TextErrorsOf;
  }

  function Heard(s: System): System
    requires s.toZero != []
  {
    s.(toZero := s.toZero[1..])
  }

  // The line delivered last arrives again: it is only confirmed.
  ghost predicate HearsAgain(s: System, h: Outcome) {
    && s.delivered != []
    && h.st.(tx := s.zero.tx) == s.zero
    && Answers(h.calls, s.zero.heap, Ctr(|s.delivered| - 1), [])
  }

  // The next line arrives: it is delivered and confirmed.
  ghost predicate HearsNext(s: System, h: Outcome) {
    && s.log.inFlight && |s.popped| == |s.delivered| < |s.logged|
    && h.st.(tx := s.zero.tx) ==
       s.zero.(rx := s.zero.rx[TEXT_SLOT := Ctr(|s.delivered|)], seen := s.zero.seen[TEXT_SLOT := true])
    && Answers(h.calls, s.zero.heap, Ctr(|s.delivered|), [s.logged[|s.delivered|]])
  }

  // More confirmations of the line delivered last.
  lemma AcksAgain(q: seq<seq<byte>>, j: nat, P: nat, D: nat, fs: seq<seq<byte>>) returns (j': nat)
    requires P <= D <= P + 1 && D > 0
    requires AcksAt(q, j, P, D == P + 1) && AllAck(fs, Ctr(D - 1))
    ensures AcksAt(q + fs, j', P, D == P + 1)
    ensures D == P + 1 ==> j' == j
  {
    hide Ctr; hide IsAck;
    var more := q + fs;
    if D == P + 1 {
      j' := j;
      assert more[..j] == q[..j] && more[j..] == q[j..] + fs;
    } else {
      j' := |more|;
      assert j == |q| && q[..j] == q && more[..j'] == q + fs;
    }
  }

  lemma AgainKeeps(s: System, h: Outcome, k: nat, j: nat) returns (j': nat)
    requires InvAt(s, k, j) && HearsAgain(s, h)
    ensures var s' := ZeroAfter(s, h);
            && InvAt(s', k, j') && s'.toZero == s.toZero && s'.zero.heap == s.zero.heap
            && |s'.toPico| == |s.toPico| + (if s.zero.heap then 1 else 0) && |s'.delivered| == |s.delivered|
    ensures |s.delivered| == |s.popped| + 1 ==> j' == j
  {
    hide Ctr; hide AllAck; hide Numbering; hide AcksAt; hide TextsAt; hide TextsOf; hide FramesOf; hide TextErrorsOf;
    assert s.delivered + [] == s.delivered;
    j' := AcksAgain(s.toPico, j, |s.popped|, |s.delivered|, FramesOf(h.calls));
  }

  lemma NextKeeps(s: System, h: Outcome, j: nat) returns (k': nat)
    requires InvAt(s, 0, j) && HearsNext(s, h)
    ensures var s' := ZeroAfter(s, h);
            && InvAt(s', k', j) && s'.toZero == s.toZero && s'.zero.heap == s.zero.heap
            && |s'.toPico| == |s.toPico| + (if s.zero.heap then 1 else 0) && |s'.delivered| == |s.popped| + 1
    ensures j == |s.toPico| && k' == |s.toZero|
  {
    hide Ctr; hide AllText; hide Numbering; hide IsAck; hide TextsOf; hide FramesOf; hide TextErrorsOf;
    var D := |s.delivered|;
    var fs := FramesOf(h.calls);
    var more := s.toPico + fs;
    k' := |s.toZero|;
    assert s.toZero[..k'] == s.toZero && s.toZero[0..] == s.toZero;
    assert s.delivered + [s.logged[D]] == s.logged[..D + 1];
    assert j == |s.toPico| && more[..j] == s.toPico[..j] && more[j..] == fs;
  }

  lemma TextRead(s: System, k: nat, j: nat) returns (h: Outcome, k': nat)
    requires InvAt(s, k, j) && s.toZero != []
    ensures Step(s, TakeText) == ZeroAfter(Heard(s), h) && InvAt(Heard(s), k', j)
    ensures if k > 0 then k' == k - 1 && HearsAgain(Heard(s), h) else k' == 0 && HearsNext(Heard(s), h)
  {
    hide Ctr; hide ZeroReads; hide ZeroAfter; hide Answers; hide Encode; hide Handle; hide Count;
    hide IsTextFrame; hide AllText; hide Numbering; hide AcksAt; hide TextsAt;
    var counter, line;
    counter, line, k' := FirstText(s, k, j);
    var s0 := Heard(s);
    InvText(s0, k', j);
    if |s.delivered| > 0 { CtrNext(|s.delivered| - 1); }
    var p := TextPacket(counter, line.severity, line.source, line.text);
    FrameOfText(s.toZero[0], counter, line);
    ZeroReadsFrame(s0, p);
    HandleText(s0.zero, counter, line);
    h := Handle(s0.zero, p);
  }

  lemma FrameOfText(frame: seq<byte>, counter: byte, line: Line)
    requires IsTextFrame(frame, counter, line)
    ensures var p := TextPacket(counter, line.severity, line.source, line.text); Sendable(p) && frame == Encode(p)
  {
    hide Encode;
  }

  lemma TakeTextKeeps(s: System, k: nat, j: nat) returns (k': nat, j': nat)
    requires InvAt(s, k, j)
    ensures InvAt(Step(s, TakeText), k', j')
    ensures s.toZero != [] ==>
              var s' := Step(s, TakeText);
              s'.toZero == s.toZero[1..] && s'.zero.heap == s.zero.heap &&
              |s'.toPico| == |s.toPico| + (if s.zero.heap then 1 else 0) &&
              |s'.delivered| == (if k > 0 then |s.delivered| else |s.popped| + 1) &&
              (k > 0 ==> k' == k - 1 && (|s.delivered| == |s.popped| + 1 ==> j' == j)) &&
              (k == 0 ==> j' == j == |s.toPico|)
  {
    hide InvAt; hide HearsAgain; hide HearsNext; hide ZeroAfter; hide ZeroReads;
    k', j' := k, j;
    if s.toZero != [] {
      var h;
      h, k' := TextRead(s, k, j);
      hide Step;
      if k > 0 {
        j' := AgainKeeps(Heard(s), h, k', j);
      } else {
        k' := NextKeeps(Heard(s), h, j);
      }
    }
  }

  // The parts of the invariant about the Zero's text counter.
  lemma InvText(s: System, k: nat, j: nat)
    requires InvAt(s, k, j)
    ensures var D := |s.delivered|;
            s.zeroBuf == [] && s.zero.handled[TEXT_SLOT] && D <= |s.logged| &&
            s.zero.seen[TEXT_SLOT] == (D > 0) && (D > 0 ==> s.zero.rx[TEXT_SLOT] == Ctr(D - 1)) &&
            |s.popped| <= D <= |s.popped| + 1
  {
    hide Ctr; hide TextsAt; hide AcksAt; hide Numbering;
  }

  // ---- The other steps ----

  lemma LoseSplit(q: seq<seq<byte>>, i: nat, k: nat)
    requires i < |q| && k <= |q|
    ensures var r := Without(q, i);
            if i < k then r[..k - 1] == Without(q[..k], i) && r[k - 1..] == q[k..]
            else r[..k] == q[..k] && r[k..] == Without(q[k..], i - k)
  {
    if i < k {
      assert q[i + 1..] == q[i + 1..k] + q[k..];
      assert q[..k][..i] == q[..i] && q[..k][i + 1..] == q[i + 1..k];
    } else {
      assert q[..i] == q[..k] + q[k..i];
      assert q[k..][..i - k] == q[k..i] && q[k..][i - k + 1..] == q[i + 1..];
    }
  }

  lemma WithoutAll(q: seq<seq<byte>>, i: nat)
    ensures forall c, line :: AllText(q, c, line) ==> AllText(Without(q, i), c, line)
    ensures forall c :: AllAck(q, c) ==> AllAck(Without(q, i), c)
  {
    hide IsTextFrame; hide IsAck;
  }

  lemma TextsLose(q: seq<seq<byte>>, k: nat, D: nat, isNext: bool, logged: seq<Line>, i: nat) returns (k': nat)
    requires TextsAt(q, k, D, isNext, logged)
    ensures TextsAt(Without(q, i), k', D, isNext, logged)
  {
    hide Ctr; hide AllText;
    k' := if i < k then k - 1 else k;
    if i < |q| {
      LoseSplit(q, i, k);
      WithoutAll(q[..k], i);
      if i >= k { WithoutAll(q[k..], i - k); }
    }
  }

  lemma AcksLose(q: seq<seq<byte>>, j: nat, P: nat, ahead: bool, i: nat) returns (j': nat)
    requires AcksAt(q, j, P, ahead)
    ensures AcksAt(Without(q, i), j', P, ahead)
  {
    hide Ctr; hide AllAck;
    j' := if i < j then j - 1 else j;
    if i < |q| {
      LoseSplit(q, i, j);
      WithoutAll(q[..j], i);
      if i >= j { WithoutAll(q[j..], i - j); }
    }
  }

  lemma LoseTextKeeps(s: System, i: nat, k: nat, j: nat) returns (k': nat)
    requires InvAt(s, k, j)
    ensures InvAt(Step(s, LoseText(i)), k', j)
  {
    hide Ctr; hide TextsAt; hide AcksAt; hide Numbering; hide Without;
    var P, D := |s.popped|, |s.delivered|;
    k' := TextsLose(s.toZero, k, D, s.log.inFlight && D == P, s.logged, i);
  }

  lemma LoseAckKeeps(s: System, i: nat, k: nat, j: nat) returns (j': nat)
    requires InvAt(s, k, j)
    ensures InvAt(Step(s, LoseAck(i)), k, j')
  {
    hide Ctr; hide TextsAt; hide AcksAt; hide Numbering; hide Without;
    var P, D := |s.popped|, |s.delivered|;
    j' := AcksLose(s.toPico, j, P, D == P + 1, i);
  }

  lemma PicoHeapKeeps(s: System, ok: bool, k: nat, j: nat)
    requires InvAt(s, k, j)
    ensures InvAt(Step(s, PicoHeap(ok)), k, j)
  {
    hide Ctr; hide TextsAt; hide AcksAt; hide Numbering;
  }

  lemma ZeroKeeps(s: System, st: State, k: nat, j: nat)
    requires InvAt(s, k, j)
    requires st.handled == s.zero.handled && st.rx[TEXT_SLOT] == s.zero.rx[TEXT_SLOT]
    requires st.seen[TEXT_SLOT] == s.zero.seen[TEXT_SLOT]
    ensures InvAt(s.(zero := st), k, j)
  {
    hide Ctr; hide TextsAt; hide AcksAt; hide Numbering;
  }

  lemma {:induction false} HarmlessYields(calls: seq<Call>, typ: byte)
    requires AllHarmless(calls, typ) && typ != 0x06
    ensures TextsOf(calls) == [] && FramesOf(calls) == [] && TextErrorsOf(calls) == []
  {
    if calls != [] {
      assert Harmless(calls[0], typ);
      assert forall i :: 0 <= i < |calls[1..]| ==> calls[1..][i] == calls[i + 1];
      HarmlessYields(calls[1..], typ);
    }
  }

  lemma ZeroHearsKeeps(s: System, p: Packet, k: nat, j: nat)
    requires InvAt(s, k, j) && p.typ != 0x06 && Sendable(p)
    ensures InvAt(ZeroReads(s, Encode(p)), k, j)
  {
    hide InvAt; hide Handle; hide Encode; hide ZeroReads; hide AllHarmless;
    hide TextsOf; hide FramesOf; hide TextErrorsOf;
    InvParts(s, k, j);
    HandleOther(s.zero, p);
    var h := Handle(s.zero, p);
    HarmlessYields(h.calls, p.typ);
    ZeroReadsFrame(s, p);
    assert s.delivered + [] == s.delivered && s.toPico + [] == s.toPico && s.textErrors + [] == s.textErrors;
    assert ZeroReads(s, Encode(p)) == s.(zero := h.st);
    ZeroKeeps(s, h.st, k, j);
  }

  lemma {:induction false} PicoCallsKeep(s: System, calls: seq<Call>, typ: byte, now: nat, room: bool,
                                          k: nat, j: nat) returns (k': nat)
    requires InvAt(s, k, j) && AllHarmless(calls, typ) && typ != 0x84
    ensures InvAt(PicoCalls(s, calls, now, room), k', j)
    decreases |calls|
  {
    hide InvAt; hide WriteLine; hide Confirm; hide WarnLine;
    if calls == [] {
      k' := k;
    } else {
      var c := calls[0];
      assert Harmless(c, typ);
      assert forall i :: 0 <= i < |calls[1..]| ==> calls[1..][i] == calls[i + 1];
      var k1 := k;
      if c.Reported? {
        k1 := WriteKeeps(s, WarnLine(c.error, c.typ), now, room, k, j);
      }
      k' := PicoCallsKeep(PicoCall(s, c, now, room), calls[1..], typ, now, room, k1, j);
    }
  }

  lemma PicoHearsKeeps(s: System, p: Packet, now: nat, room: bool, k: nat, j: nat) returns (k': nat)
    requires InvAt(s, k, j) && p.typ != 0x06 && p.typ != 0x84 && Sendable(p)
    ensures InvAt(PicoReads(s, Encode(p), now, room), k', j)
  {
    hide InvAt; hide Handle; hide Encode; hide Receive; hide PicoCalls; hide AllHarmless;
    InvParts(s, k, j);
    ReceiveFrame(s.pico, p);
    HandleOther(s.pico, p);
    var h := Handle(s.pico, p);
    PicoKeeps(s, h.st, k, j);
    assert s.(pico := h.st, picoBuf := []) == s.(pico := h.st);
    k' := PicoCallsKeep(s.(pico := h.st), h.calls, p.typ, now, room, k, j);
  }

  lemma StepKeeps(s: System, a: Action)
    requires Inv(s)
    ensures Inv(Step(s, a))
  {
    hide InvAt; hide WriteLine; hide PollLog; hide ZeroReads; hide PicoReads; hide Without; hide Sendable;
    var k, j :| InvAt(s, k, j);
    var k', j' := k, j;
    match a
    case Write(line, now, room) => k' := WriteKeeps(s, line, now, room, k, j);
    case Tick(now) => k' := PollKeeps(s, now, k, j);
    case TakeText => k', j' := TakeTextKeeps(s, k, j);
    case TakeAck(now, room) => k', j' := TakeAckKeeps(s, now, room, k, j);
    case LoseText(i) => k' := LoseTextKeeps(s, i, k, j);
    case LoseAck(i) => j' := LoseAckKeeps(s, i, k, j);
    case PicoHeap(ok) => PicoHeapKeeps(s, ok, k, j);
    case ZeroHeap(ok) => ZeroKeeps(s, s.zero.(heap := ok), k, j);
    case ZeroHears(p) => if p.typ != 0x06 && Sendable(p) { ZeroHearsKeeps(s, p, k, j); }
    case PicoHears(p, now, room) =>
      if p.typ != 0x06 && p.typ != 0x84 && Sendable(p) { k' := PicoHearsKeeps(s, p, now, room, k, j); }
    assert InvAt(Step(s, a), k', j');
  }

  lemma {:induction false} RunKeeps(states: seq<System>, actions: seq<Action>, i: nat)
    requires IsRun(states, actions) && i < |states|
    ensures Inv(states[i])
  {
    hide Inv; hide Step;
    if i == 0 {
      StartKeeps();
    } else {
      RunKeeps(states, actions, i - 1);
      StepKeeps(states[i - 1], actions[i - 1]);
      assert Follows(states, actions, i - 1);
    }
  }

  lemma StartKeeps()
    ensures Inv(Init())
  {
    InitInv();
    hide InvAt;
  }

  lemma ReachableInv(s: System)
    requires Reachable(s)
    ensures Inv(s)
  {
    hide Inv; hide IsRun;
    var states, actions :| IsRun(states, actions) && s in states;
    var i :| 0 <= i < |states| && states[i] == s;
    RunKeeps(states, actions, i);
  }

  // Every run: the Zero has the queued lines in order, none skipped or repeated,
  // exactly those popped or one more; none is popped undelivered or reported lost.
  lemma ExactlyOnce(s: System)
    requires Reachable(s)
    ensures s.logged == s.popped + s.log.queue
    ensures s.delivered <= s.logged
    ensures |s.popped| <= |s.delivered| <= |s.popped| + 1
    ensures s.textErrors == []
  {
    ReachableInv(s);
    hide Reachable; hide AllText; hide AllAck; hide Numbering; hide Ctr;
  }

  // The text frames ever sent carry line 0, then each time the same line again or the
  // next one, up to the last line begun: a resend of a counter carries the text first
  // sent with it, since a counter comes back only with a line 256 later.
  lemma ResendsRepeat(s: System)
    requires Reachable(s)
    ensures Numbering(s.sentTexts, s.logged, s.sends, Begun(s))
  {
    ReachableInv(s);
    hide Reachable; hide CoreAt; hide Numbering;
  }
}
