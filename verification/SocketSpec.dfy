/**
 The Zero's command socket as a value: the lines of one client, at most one request
 waiting for the Pico, and one answer for each line.
 */
module SocketSpec {
  import opened Bytes

  const LINE_MAX := 256
  const REPLY_TIMEOUT_MS := 2000

  // ---- Lines ----

  datatype Segment = Line(text: seq<byte>) | TooLong(data: seq<byte>)

  // The first line end, or the length if there is none.
  function Newline(b: seq<byte>): (n: nat)
    ensures n <= |b|
    ensures forall i :: 0 <= i < n ==> b[i] != 10
    ensures n < |b| ==> b[n] == 10
  {
    if b == [] || b[0] == 10 then 0 else 1 + Newline(b[1..])
  }

  // A line has no line end in it and fits the buffer with its line end; an overlong
  // piece is a whole buffer without a line end.
  predicate Fits(s: Segment) {
    match s
    case Line(t) => |t| < LINE_MAX && Newline(t) == |t|
    case TooLong(d) => |d| == LINE_MAX && Newline(d) == |d|
  }

  predicate AllFit(segs: seq<Segment>) {
    forall i :: 0 <= i < |segs| ==> Fits(segs[i])
  }

  // Nothing to do yet: no line end, and room for more.
  predicate Quiet(b: seq<byte>) {
    |b| < LINE_MAX && Newline(b) == |b|
  }

  function Raw(s: Segment): seq<byte> {
    match s
    case Line(t) => t + [10]
    case TooLong(d) => d
  }

  function Join(segs: seq<Segment>): seq<byte> {
    if segs == [] then [] else Raw(segs[0]) + Join(segs[1..])
  }

  // The segments of a whole byte stream, however it was cut into reads.
  datatype Cut = Cut(segs: seq<Segment>, rest: seq<byte>)

  function Split(b: seq<byte>): Cut
    decreases |b|
  {
    var n := Newline(b);
    if n < |b| && n < LINE_MAX then
      var c := Split(b[n + 1..]);
      Cut([Line(b[..n])] + c.segs, c.rest)
    else if |b| >= LINE_MAX then
      var c := Split(b[LINE_MAX..]);
      Cut([TooLong(b[..LINE_MAX])] + c.segs, c.rest)
    else Cut([], b)
  }

  lemma NewlineIs(b: seq<byte>, n: nat)
    requires n <= |b| && (forall i :: 0 <= i < n ==> b[i] != 10) && (n < |b| ==> b[n] == 10)
    ensures Newline(b) == n
  {}

  // Split is the one way to write a stream as fitting segments and a quiet rest.
  lemma {:induction false} SplitIsUnique(b: seq<byte>, segs: seq<Segment>, rest: seq<byte>)
    ensures Split(b) == Cut(segs, rest) <==> AllFit(segs) && Quiet(rest) && Join(segs) + rest == b
    decreases |b|
  {
    SplitFits(b);
    if AllFit(segs) && Quiet(rest) && Join(segs) + rest == b {
      SplitOfJoin(segs, rest);
    }
  }

  lemma {:induction false} SplitFits(b: seq<byte>)
    ensures AllFit(Split(b).segs) && Quiet(Split(b).rest) && Join(Split(b).segs) + Split(b).rest == b
    decreases |b|
  {
    if Quiet(b) {
      assert Join([]) + b == b;
    } else {
      var s := Peel(b);
      hide Split; hide Join; hide Fits; hide Quiet; hide AllFit;
      SplitFits(b[|Raw(s)|..]);
      FitsCons(s, b[|Raw(s)|..]);
    }
  }

  // Unless it is quiet, a stream starts with a segment.
  lemma Peel(b: seq<byte>) returns (s: Segment)
    requires !Quiet(b)
    ensures Fits(s) && 0 < |Raw(s)| <= |b| && b == Raw(s) + b[|Raw(s)|..]
  {
    var n := Newline(b);
    if n < |b| && n < LINE_MAX {
      s := Line(b[..n]);
      NewlineIs(b[..n], n);
    } else {
      s := TooLong(b[..LINE_MAX]);
      NewlineIs(b[..LINE_MAX], LINE_MAX);
    }
  }

  lemma FitsCons(s: Segment, b: seq<byte>)
    requires Fits(s)
    requires AllFit(Split(b).segs) && Quiet(Split(b).rest) && Join(Split(b).segs) + Split(b).rest == b
    ensures var c := Split(Raw(s) + b);
            AllFit(c.segs) && Quiet(c.rest) && Join(c.segs) + c.rest == Raw(s) + b
  {
    SplitCons(s, b);
    hide Split; hide Fits; hide Quiet; hide Raw;
    JoinCons(s, Split(b).segs);
    Assoc(Raw(s), Join(Split(b).segs), Split(b).rest);
  }

  lemma {:induction false} SplitOfJoin(segs: seq<Segment>, rest: seq<byte>)
    requires AllFit(segs) && Quiet(rest)
    ensures Split(Join(segs) + rest) == Cut(segs, rest)
    decreases |segs|
  {
    if segs == [] {
      assert Join(segs) + rest == rest;
    } else {
      hide Split; hide Quiet; hide Fits; hide Raw;
      SplitOfJoin(segs[1..], rest);
      SplitCons(segs[0], Join(segs[1..]) + rest);
      Assoc(Raw(segs[0]), Join(segs[1..]), rest);
      assert segs == [segs[0]] + segs[1..];
    }
  }

  lemma SplitCons(s: Segment, b: seq<byte>)
    requires Fits(s)
    ensures Split(Raw(s) + b) == Cut([s] + Split(b).segs, Split(b).rest)
  {
    var w := Raw(s) + b;
    match s
    case Line(t) =>
      assert forall i :: 0 <= i < |t| ==> w[i] == t[i];
      NewlineIs(w, |t|);
      assert w[..|t|] == t && w[|t| + 1..] == b;
    case TooLong(d) =>
      assert forall i :: 0 <= i < |d| ==> w[i] == d[i];
      assert w[..LINE_MAX] == d && w[LINE_MAX..] == b;
      assert forall i :: 0 <= i < LINE_MAX ==> w[i] != 10;
  }

  lemma JoinCons(s: Segment, segs: seq<Segment>)
    ensures Join([s] + segs) == Raw(s) + Join(segs)
  {
    assert ([s] + segs)[1..] == segs;
  }

  lemma {:induction false} JoinSnoc(segs: seq<Segment>, s: Segment)
    ensures Join(segs + [s]) == Join(segs) + Raw(s)
    decreases |segs|
  {
    if segs == [] {
      assert segs + [s] == [s] + [];
      JoinCons(s, []);
      assert Join([]) + Raw(s) == Raw(s) + [];
    } else {
      JoinSnoc(segs[1..], s);
      assert (segs + [s])[1..] == segs[1..] + [s];
      Assoc(Raw(segs[0]), Join(segs[1..]), Raw(s));
    }
  }

  // ---- Requests and answers ----

  // A request to the Pico: message type, the id its reply carries, and the rest.
  datatype Request = Request(what: byte, id: bv32, body: seq<byte>)

  datatype Reply = Reply(what: byte, id: bv32, result: byte)

  // What a line asks for: an error to answer at once, or a request to the Pico.
  datatype Decision = Refuse(text: string) | Ask(request: Request)

  datatype Answer = Refused(text: string) | SendFailed | Result(reply: Reply) | Timeout | LineTooLong

  datatype Pending = Idle | Waiting(what: byte, id: bv32, deadline: nat)

  // What happened on the live connection: bytes read, segments taken from them,
  // answers written, requests sent to the Pico.
  datatype Trace = Trace(got: seq<byte>, taken: seq<Segment>, answers: seq<Answer>, asked: seq<Request>)

  // `sent` holds the requests of all connections, which is what the Pico has to reply to.
  datatype Socket = Socket(live: bool, buf: seq<byte>, pending: Pending, sent: seq<Request>, trace: Trace)

  // Memory for the frame of a request, and the clock in milliseconds.
  datatype Env = Env(heap: bool, now: nat)

  const Start := Socket(false, [], Idle, [], Trace([], [], [], []))

  function Answered(s: Socket, a: Answer): Socket {
    s.(pending := Idle, trace := s.trace.(answers := s.trace.answers + [a]))
  }

  function Take(s: Socket, seg: Segment): Socket
    requires |Raw(seg)| <= |s.buf|
  {
    s.(buf := s.buf[|Raw(seg)|..], trace := s.trace.(taken := s.trace.taken + [seg]))
  }

  function Handle(s: Socket, d: Decision, env: Env): Socket {
    match d
    case Refuse(text) => Answered(s, Refused(text))
    case Ask(r) =>
      if !env.heap then Answered(s, SendFailed)
      else s.(pending := Waiting(r.what, r.id, env.now + REPLY_TIMEOUT_MS), sent := s.sent + [r],
              trace := s.trace.(asked := s.trace.asked + [r]))
  }

  // Handle complete lines until one is waiting for the Pico.
  function Process(s: Socket, decide: seq<byte> -> Decision, env: Env): Socket
    decreases |s.buf|
  {
    var n := Newline(s.buf);
    if s.pending.Waiting? then s
    else if n < |s.buf| then
      var line := s.buf[..n];
      Process(Handle(Take(s, Line(line)), decide(line), env), decide, env)
    else if |s.buf| == LINE_MAX then Answered(Take(s, TooLong(s.buf)), LineTooLong)
    else s
  }

  predicate Matches(p: Pending, r: Reply) {
    p.Waiting? && r.what == p.what && r.id == p.id
  }

  function OnReply(s: Socket, r: Reply): Socket {
    if Matches(s.pending, r) then Answered(s, Result(r)) else s
  }

  function OnReplies(s: Socket, rs: seq<Reply>): Socket
    decreases |rs|
  {
    if rs == [] then s else OnReplies(OnReply(s, rs[0]), rs[1..])
  }

  function Close(s: Socket): Socket {
    s.(live := false, buf := [], pending := Idle)
  }

  // A second client is refused.
  function Accept(s: Socket): Socket {
    if s.live then s else s.(live := true, trace := Trace([], [], [], []))
  }

  // What the client's socket has for a read.
  datatype Incoming = Nothing | Data(ready: seq<byte>) | Ended

  function Min(a: nat, b: nat): nat {
    if a < b then a else b
  }

  function Append(s: Socket, data: seq<byte>): Socket {
    s.(buf := s.buf + data, trace := s.trace.(got := s.trace.got + data))
  }

  // A read with no room left in the buffer reads nothing, which looks like the end
  // of the stream.
  function Read(s: Socket, i: Incoming, decide: seq<byte> -> Decision, env: Env): Socket
    requires |s.buf| <= LINE_MAX
  {
    var room := LINE_MAX - |s.buf|;
    match i
    case Nothing => if room == 0 then Close(s) else s
    case Ended => Close(s)
    case Data(ready) =>
      var n := Min(|ready|, room);
      if n == 0 then Close(s) else Process(Append(s, ready[..n]), decide, env)
  }

  function Expire(s: Socket, decide: seq<byte> -> Decision, env: Env): Socket {
    if s.pending.Waiting? && env.now > s.pending.deadline then Process(Answered(s, Timeout), decide, env)
    else s
  }

  // What one pass of the reader loop found: replies on the link, if it was readable;
  // a new connection; and whether the client was readable.
  datatype Events = Events(link: bool, replies: seq<Reply>, connect: bool, readable: bool, incoming: Incoming, env: Env)

  function FromLink(s: Socket, e: Events, decide: seq<byte> -> Decision): Socket {
    if !e.link then s else
      var r := OnReplies(s, e.replies);
      if r.live then Process(r, decide, e.env) else r
  }

  // The client that is read is the one of the start of the pass.
  function FromClient(s: Socket, e: Events, decide: seq<byte> -> Decision): Socket
    requires |s.buf| <= LINE_MAX
  {
    if e.readable && s.live then Read(s, e.incoming, decide, e.env)
    else if e.connect then Accept(s) else s
  }

  function Pass(s: Socket, e: Events, decide: seq<byte> -> Decision): Socket
    requires |s.buf| <= LINE_MAX
  {
    ReplyShrinks(s, e, decide);
    Expire(FromClient(FromLink(s, e, decide), e, decide), decide, e.env)
  }

  lemma {:induction false} ProcessShrinks(s: Socket, decide: seq<byte> -> Decision, env: Env)
    ensures |Process(s, decide, env).buf| <= |s.buf| && Process(s, decide, env).live == s.live
    decreases |s.buf|
  {
    var n := Newline(s.buf);
    if s.pending.Idle? && n < |s.buf| {
      ProcessShrinks(Handle(Take(s, Line(s.buf[..n])), decide(s.buf[..n]), env), decide, env);
    }
  }

  lemma {:induction false} RepliesKeepBuffer(s: Socket, rs: seq<Reply>)
    ensures OnReplies(s, rs).buf == s.buf && OnReplies(s, rs).live == s.live
    decreases |rs|
  {
    if rs != [] { RepliesKeepBuffer(OnReply(s, rs[0]), rs[1..]); }
  }

  lemma ReplyShrinks(s: Socket, e: Events, decide: seq<byte> -> Decision)
    ensures |FromLink(s, e, decide).buf| <= |s.buf| && FromLink(s, e, decide).live == s.live
  {
    RepliesKeepBuffer(s, e.replies);
    ProcessShrinks(OnReplies(s, e.replies), decide, e.env);
  }

  // ---- What every pass keeps ----

  predicate AnswerFits(seg: Segment, a: Answer, decide: seq<byte> -> Decision) {
    match seg
    case TooLong(_) => a == LineTooLong
    case Line(t) =>
      match decide(t)
      case Refuse(text) => a == Refused(text)
      case Ask(r) => a.SendFailed? || a.Timeout? || (a.Result? && a.reply.what == r.what && a.reply.id == r.id)
  }

  predicate IsAsked(seg: Segment, p: Pending, decide: seq<byte> -> Decision) {
    && seg.Line? && decide(seg.text).Ask? && p.Waiting?
    && decide(seg.text).request.what == p.what && decide(seg.text).request.id == p.id
  }

  // The requests among the segments; an answer says whether one was not sent.
  function Requests(taken: seq<Segment>, answers: seq<Answer>, decide: seq<byte> -> Decision): seq<Request> {
    if taken == [] then [] else
      var k := |taken| - 1;
      var before := Requests(taken[..k], answers, decide);
      if taken[k].Line? && decide(taken[k].text).Ask? && !(k < |answers| && answers[k].SendFailed?)
      then before + [decide(taken[k].text).request]
      else before
  }

  predicate Traced(s: Socket, decide: seq<byte> -> Decision) {
    var t := s.trace;
    && AllFit(t.taken)
    && t.got == Join(t.taken) + s.buf
    && |t.taken| == |t.answers| + (if s.pending.Waiting? then 1 else 0)
    && (forall i :: 0 <= i < |t.answers| ==> AnswerFits(t.taken[i], t.answers[i], decide))
    && (s.pending.Waiting? ==> IsAsked(t.taken[|t.answers|], s.pending, decide))
    && t.asked == Requests(t.taken, t.answers, decide)
  }

  predicate Inv(s: Socket, decide: seq<byte> -> Decision) {
    && |s.buf| <= LINE_MAX
    && (s.live ==> Traced(s, decide))
    && (!s.live ==> s.buf == [] && s.pending.Idle?)
  }

  // Either a request waits for the Pico, or there is nothing to take.
  predicate Settled(s: Socket) {
    s.pending.Waiting? || Quiet(s.buf)
  }

  lemma {:induction false} RequestsAnswered(taken: seq<Segment>, answers: seq<Answer>, a: Answer,
                                            decide: seq<byte> -> Decision)
    requires !a.SendFailed? || |taken| <= |answers|
    ensures Requests(taken, answers + [a], decide) == Requests(taken, answers, decide)
    decreases |taken|
  {
    if taken != [] { RequestsAnswered(taken[..|taken| - 1], answers, a, decide); }
  }

  lemma RequestsTaken(taken: seq<Segment>, seg: Segment, answers: seq<Answer>, decide: seq<byte> -> Decision)
    requires |answers| <= |taken|
    ensures Requests(taken + [seg], answers, decide) == Requests(taken, answers, decide) +
              (if seg.Line? && decide(seg.text).Ask? then [decide(seg.text).request] else [])
  {
    assert (taken + [seg])[..|taken|] == taken;
  }

  lemma RequestsRefused(taken: seq<Segment>, seg: Segment, answers: seq<Answer>, a: Answer,
                        decide: seq<byte> -> Decision)
    requires |answers| == |taken|
    requires a.SendFailed? || seg.TooLong? || decide(seg.text).Refuse?
    ensures Requests(taken + [seg], answers + [a], decide) == Requests(taken, answers, decide)
  {
    assert (taken + [seg])[..|taken|] == taken;
    RequestsAnswered(taken, answers, a, decide);
  }

  // The pending request is answered.
  lemma AnsweredKeeps(s: Socket, a: Answer, decide: seq<byte> -> Decision)
    requires Inv(s, decide) && s.pending.Waiting?
    requires a.Timeout? || (a.Result? && Matches(s.pending, a.reply))
    ensures Inv(Answered(s, a), decide)
  {
    hide Requests; hide Join; hide AllFit; hide Fits;
    RequestsAnswered(s.trace.taken, s.trace.answers, a, decide);
  }

  lemma TakeKeeps(s: Socket, seg: Segment, decide: seq<byte> -> Decision)
    requires Inv(s, decide) && s.live && s.pending.Idle? && Fits(seg) && Raw(seg) <= s.buf
    ensures var t := Take(s, seg);
            AllFit(t.trace.taken) && t.trace.got == Join(t.trace.taken) + t.buf
  {
    hide Requests; hide Join; hide Raw; hide Fits;
    JoinSnoc(s.trace.taken, seg);
    assert s.buf == Raw(seg) + s.buf[|Raw(seg)|..];
    Assoc(Join(s.trace.taken), Raw(seg), s.buf[|Raw(seg)|..]);
  }

  // A segment is taken and answered at once.
  lemma TakeAnsweredKeeps(s: Socket, seg: Segment, a: Answer, decide: seq<byte> -> Decision)
    requires Inv(s, decide) && s.live && s.pending.Idle? && Fits(seg) && Raw(seg) <= s.buf
    requires AnswerFits(seg, a, decide) && (a.SendFailed? || seg.TooLong? || decide(seg.text).Refuse?)
    ensures Inv(Answered(Take(s, seg), a), decide)
  {
    hide Requests; hide Join; hide AllFit; hide Fits; hide AnswerFits; hide Raw;
    TakeKeeps(s, seg, decide);
    RequestsRefused(s.trace.taken, seg, s.trace.answers, a, decide);
    var was, t := s.trace, Answered(Take(s, seg), a).trace;
    forall i | 0 <= i < |t.answers| ensures AnswerFits(t.taken[i], t.answers[i], decide) {
      if i < |was.answers| { assert AnswerFits(was.taken[i], was.answers[i], decide); }
    }
  }

  // A segment is taken and its request sent.
  lemma TakeAskedKeeps(s: Socket, line: seq<byte>, env: Env, decide: seq<byte> -> Decision)
    requires Inv(s, decide) && s.live && s.pending.Idle? && Fits(Line(line)) && Raw(Line(line)) <= s.buf
    requires decide(line).Ask? && env.heap
    ensures Inv(Handle(Take(s, Line(line)), decide(line), env), decide)
  {
    hide Requests; hide Join; hide AllFit; hide Fits; hide AnswerFits; hide Raw;
    TakeKeeps(s, Line(line), decide);
    RequestsTaken(s.trace.taken, Line(line), s.trace.answers, decide);
    var was, t := s.trace, Handle(Take(s, Line(line)), decide(line), env).trace;
    forall i | 0 <= i < |t.answers| ensures AnswerFits(t.taken[i], t.answers[i], decide) {
      assert AnswerFits(was.taken[i], was.answers[i], decide);
    }
  }

  lemma LineKeeps(s: Socket, n: nat, env: Env, decide: seq<byte> -> Decision)
    requires Inv(s, decide) && s.live && s.pending.Idle? && n == Newline(s.buf) < |s.buf|
    ensures Inv(Handle(Take(s, Line(s.buf[..n])), decide(s.buf[..n]), env), decide)
  {
    var line := s.buf[..n];
    NewlineIs(line, n);
    assert Raw(Line(line)) <= s.buf;
    hide Inv; hide Take; hide Fits; hide Raw;
    match decide(line) {
      case Refuse(text) => TakeAnsweredKeeps(s, Line(line), Refused(text), decide);
      case Ask(r) =>
        if env.heap {
          TakeAskedKeeps(s, line, env, decide);
        } else {
          TakeAnsweredKeeps(s, Line(line), SendFailed, decide);
        }
    }
  }

  // Process takes all it can: nothing complete is left unless a request waits.
  lemma {:induction false} ProcessKeeps(s: Socket, decide: seq<byte> -> Decision, env: Env)
    requires Inv(s, decide) && s.live
    ensures var p := Process(s, decide, env);
            Inv(p, decide) && p.live && Settled(p) &&
            (p.pending.Waiting? && p.pending != s.pending ==> p.pending.deadline == env.now + REPLY_TIMEOUT_MS)
    decreases |s.buf|
  {
    hide Traced;
    var n := Newline(s.buf);
    if s.pending.Idle? {
      if n < |s.buf| {
        LineKeeps(s, n, env, decide);
        ProcessKeeps(Handle(Take(s, Line(s.buf[..n])), decide(s.buf[..n]), env), decide, env);
      } else if |s.buf| == LINE_MAX {
        TakeAnsweredKeeps(s, TooLong(s.buf), LineTooLong, decide);
      }
    }
  }

  lemma {:induction false} RepliesKeep(s: Socket, rs: seq<Reply>, decide: seq<byte> -> Decision)
    requires Inv(s, decide)
    ensures var r := OnReplies(s, rs);
            Inv(r, decide) && r.live == s.live && (r.pending == s.pending || r.pending.Idle?)
    decreases |rs|
  {
    hide Inv;
    if rs != [] {
      if Matches(s.pending, rs[0]) { AnsweredKeeps(s, Result(rs[0]), decide); }
      RepliesKeep(OnReply(s, rs[0]), rs[1..], decide);
    }
  }

  predicate InTime(s: Socket, now: nat) {
    s.pending.Waiting? ==> now <= s.pending.deadline
  }

  lemma AppendKeeps(s: Socket, data: seq<byte>, decide: seq<byte> -> Decision)
    requires Inv(s, decide) && s.live && |s.buf| + |data| <= LINE_MAX
    ensures Inv(Append(s, data), decide)
  {
    hide Join; hide Requests; hide AnswerFits; hide AllFit; hide IsAsked;
    Assoc(Join(s.trace.taken), s.buf, data);
  }

  lemma ClosedKeeps(s: Socket, decide: seq<byte> -> Decision)
    ensures Inv(Close(s), decide) && Settled(Close(s)) && !Close(s).live && Close(s).pending.Idle?
  {}

  lemma ReadKeeps(s: Socket, i: Incoming, decide: seq<byte> -> Decision, env: Env)
    requires Inv(s, decide) && s.live && Settled(s)
    ensures var r := Read(s, i, decide, env);
            && Inv(r, decide) && Settled(r)
            && (r.pending.Waiting? && r.pending != s.pending ==> InTime(r, env.now))
            && (r.live <==> !i.Ended? && (i.Data? ==> |i.ready| > 0) && |s.buf| < LINE_MAX)
  {
    hide Settled; hide Traced; hide Process; hide Append;
    ClosedKeeps(s, decide);
    assert |s.buf| <= LINE_MAX;
    hide Inv; hide Close;
    if i.Data? && |i.ready| > 0 && |s.buf| < LINE_MAX {
      ReadDataKeeps(s, i.ready[..Min(|i.ready|, LINE_MAX - |s.buf|)], decide, env);
    }
  }

  lemma ReadDataKeeps(s: Socket, data: seq<byte>, decide: seq<byte> -> Decision, env: Env)
    requires Inv(s, decide) && s.live && |s.buf| + |data| <= LINE_MAX
    ensures var r := Process(Append(s, data), decide, env);
            && Inv(r, decide) && Settled(r) && r.live
            && (r.pending.Waiting? && r.pending != s.pending ==> InTime(r, env.now))
  {
    AppendKeeps(s, data, decide);
    ProcessKeeps(Append(s, data), decide, env);
    hide Inv; hide Settled; hide Process;
  }

  lemma FromLinkKeeps(s: Socket, e: Events, decide: seq<byte> -> Decision)
    requires Inv(s, decide) && Settled(s)
    ensures var r := FromLink(s, e, decide);
            Inv(r, decide) && Settled(r) && (r.pending.Waiting? && r.pending != s.pending ==> InTime(r, e.env.now))
  {
    RepliesKeep(s, e.replies, decide);
    RepliesKeepBuffer(s, e.replies);
    var r := OnReplies(s, e.replies);
    hide Traced; hide Process; hide OnReplies;
    if e.link && r.live { ProcessKeeps(r, decide, e.env); }
  }

  lemma FromClientKeeps(s: Socket, e: Events, decide: seq<byte> -> Decision)
    requires Inv(s, decide) && Settled(s)
    ensures var r := FromClient(s, e, decide);
            Inv(r, decide) && Settled(r) && (r.pending.Waiting? && r.pending != s.pending ==> InTime(r, e.env.now))
  {
    hide Read;
    if e.readable && s.live {
      ReadKeeps(s, e.incoming, decide, e.env);
    }
  }

  lemma ExpireKeeps(s: Socket, decide: seq<byte> -> Decision, env: Env)
    requires Inv(s, decide) && Settled(s)
    ensures var r := Expire(s, decide, env); Inv(r, decide) && Settled(r) && InTime(r, env.now)
  {
    if s.pending.Waiting? && env.now > s.pending.deadline {
      AnsweredKeeps(s, Timeout, decide);
      hide Traced;
      ProcessKeeps(Answered(s, Timeout), decide, env);
    }
  }

  // A pass leaves a request waiting within its time, or no complete line.
  lemma PassKeeps(s: Socket, e: Events, decide: seq<byte> -> Decision)
    requires Inv(s, decide) && Settled(s)
    ensures var p := Pass(s, e, decide); Inv(p, decide) && Settled(p) && InTime(p, e.env.now)
  {
    FromLinkKeeps(s, e, decide);
    hide FromLink; hide FromClient; hide Expire; hide Traced; hide Quiet;
    var a := FromLink(s, e, decide);
    FromClientKeeps(a, e, decide);
    ExpireKeeps(FromClient(a, e, decide), decide, e.env);
  }

  // ---- Whole runs ----

  // Each state comes from the one before by one pass of the loop.
  ghost predicate Follows(states: seq<Socket>, es: seq<Events>, decide: seq<byte> -> Decision, i: nat)
    requires i < |es| < |states|
  {
    |states[i].buf| <= LINE_MAX && states[i + 1] == Pass(states[i], es[i], decide)
  }

  ghost predicate IsRun(states: seq<Socket>, es: seq<Events>, decide: seq<byte> -> Decision) {
    && |states| == |es| + 1
    && states[0] == Start
    && forall i :: 0 <= i < |es| ==> Follows(states, es, decide, i)
  }

  ghost predicate Reachable(s: Socket, decide: seq<byte> -> Decision) {
    exists states: seq<Socket>, es: seq<Events> :: IsRun(states, es, decide) && s in states
  }

  lemma {:induction false} RunKeeps(states: seq<Socket>, es: seq<Events>, decide: seq<byte> -> Decision, i: nat)
    requires IsRun(states, es, decide) && i < |states|
    ensures Inv(states[i], decide) && Settled(states[i])
  {
    hide Traced; hide Pass; hide Quiet;
    if i == 0 {
      StartKeeps(decide);
    } else {
      RunKeeps(states, es, decide, i - 1);
      assert Follows(states, es, decide, i - 1);
      PassKeeps(states[i - 1], es[i - 1], decide);
    }
  }

  lemma StartKeeps(decide: seq<byte> -> Decision)
    ensures Inv(Start, decide) && Settled(Start)
  {}

  lemma ReachableInv(s: Socket, decide: seq<byte> -> Decision)
    requires Reachable(s, decide)
    ensures Inv(s, decide) && Settled(s)
  {
    hide Inv; hide IsRun; hide Settled;
    var states, es :| IsRun(states, es, decide) && s in states;
    var i :| 0 <= i < |states| && states[i] == s;
    RunKeeps(states, es, decide, i);
  }

  // After any run, what was taken from the client is a prefix of the segments of all
  // it sent, each segment but a waiting one has its one answer, in order, and with
  // nothing waiting every segment is answered.
  lemma OneAnswerPerLine(s: Socket, decide: seq<byte> -> Decision)
    requires Reachable(s, decide) && s.live
    ensures s.trace.taken <= Split(s.trace.got).segs
    ensures |s.trace.answers| + (if s.pending.Waiting? then 1 else 0) == |s.trace.taken|
    ensures forall i :: 0 <= i < |s.trace.answers| ==> AnswerFits(s.trace.taken[i], s.trace.answers[i], decide)
    ensures s.pending.Idle? ==> Cut(s.trace.taken, s.buf) == Split(s.trace.got)
    ensures s.trace.asked == Requests(s.trace.taken, s.trace.answers, decide)
  {
    ReachableInv(s, decide);
    hide Reachable;
    var t := s.trace;
    SplitFits(s.buf);
    SplitFits(t.got);
    var c := Split(s.buf);
    hide Split; hide Requests; hide AnswerFits; hide Fits;
    JoinAppend(t.taken, c.segs);
    Assoc(Join(t.taken), Join(c.segs), c.rest);
    SplitOfJoin(t.taken + c.segs, c.rest);
    if s.pending.Idle? {
      SplitOfJoin(t.taken, s.buf);
    }
  }

  lemma {:induction false} JoinAppend(a: seq<Segment>, b: seq<Segment>)
    ensures Join(a + b) == Join(a) + Join(b)
    decreases |a|
  {
    if a == [] {
      assert a + b == b;
      assert Join(a) + Join(b) == Join(b);
    } else {
      JoinAppend(a[1..], b);
      assert (a + b)[1..] == a[1..] + b;
      Assoc(Raw(a[0]), Join(a[1..]), Join(b));
    }
  }

  // Any state of a run can be its last.
  lemma RunTo(states: seq<Socket>, es: seq<Events>, decide: seq<byte> -> Decision, i: nat)
    requires IsRun(states, es, decide) && i < |states|
    ensures i <= |es| && IsRun(states[..i + 1], es[..i], decide)
  {
    hide Pass;
    var upTo, es' := states[..i + 1], es[..i];
    forall j | 0 <= j < i ensures Follows(upTo, es', decide, j) {
      assert Follows(states, es, decide, j);
    }
  }

  lemma RunOn(states: seq<Socket>, es: seq<Events>, e: Events, decide: seq<byte> -> Decision)
    requires IsRun(states, es, decide) && |states[|es|].buf| <= LINE_MAX
    ensures IsRun(states + [Pass(states[|es|], e, decide)], es + [e], decide)
  {
    hide Pass;
    var next := states + [Pass(states[|es|], e, decide)];
    forall j | 0 <= j < |es| + 1 ensures Follows(next, es + [e], decide, j) {
      if j < |es| { assert Follows(states, es, decide, j); }
    }
  }

  lemma BranchOff(states: seq<Socket>, es: seq<Events>, e: Events, decide: seq<byte> -> Decision, i: nat)
    requires IsRun(states, es, decide) && i < |states| && |states[i].buf| <= LINE_MAX
    ensures Reachable(Pass(states[i], e, decide), decide)
  {
    hide IsRun; hide Pass;
    RunTo(states, es, decide, i);
    var upTo, next := states[..i + 1], Pass(states[i], e, decide);
    assert upTo[i] == states[i];
    RunSizes(states, es, decide);
    RunOn(upTo, es[..i], e, decide);
    assert next in upTo + [next];
  }

  lemma RunSizes(states: seq<Socket>, es: seq<Events>, decide: seq<byte> -> Decision)
    requires IsRun(states, es, decide)
    ensures |states| == |es| + 1
  {}

  lemma ReachableOn(s: Socket, e: Events, decide: seq<byte> -> Decision)
    requires Reachable(s, decide)
    ensures |s.buf| <= LINE_MAX && Reachable(Pass(s, e, decide), decide)
  {
    ReachableInv(s, decide);
    assert |s.buf| <= LINE_MAX;
    hide IsRun; hide Pass; hide Settled; hide Inv;
    var states, es :| IsRun(states, es, decide) && s in states;
    var i :| 0 <= i < |states| && states[i] == s;
    BranchOff(states, es, e, decide, i);
  }

  // A pass drops the client exactly when it finds the end of its stream, or its requests
  // filling the buffer while one still waits after the replies of that pass.
  lemma DroppedIff(s: Socket, e: Events, decide: seq<byte> -> Decision)
    requires Reachable(s, decide) && s.live && |s.buf| <= LINE_MAX
    requires e.incoming.Data? ==> |e.incoming.ready| > 0
    ensures var a := FromLink(s, e, decide);
            !Pass(s, e, decide).live <==>
            e.readable && (e.incoming.Ended? || (a.pending.Waiting? && |a.buf| == LINE_MAX))
  {
    ReachableInv(s, decide);
    FromLinkKeeps(s, e, decide);
    ReplyShrinks(s, e, decide);
    hide Reachable; hide Traced; hide FromLink; hide Read; hide Process;
    var a := FromLink(s, e, decide);
    if e.readable { ReadKeeps(a, e.incoming, decide, e.env); }
    ExpireKeepsLive(FromClient(a, e, decide), decide, e.env);
  }

  lemma ExpireKeepsLive(s: Socket, decide: seq<byte> -> Decision, env: Env)
    ensures Expire(s, decide, env).live == s.live
  {
    ProcessShrinks(Answered(s, Timeout), decide, env);
    hide Process;
  }

  // ---- Whose reply answers ----

  predicate Alike(r: Request, what: byte, id: bv32) {
    r.what == what && r.id == id
  }

  // A waiting request is the last one sent.
  predicate Newest(s: Socket) {
    s.pending.Waiting? ==> s.sent != [] && Alike(s.sent[|s.sent| - 1], s.pending.what, s.pending.id)
  }

  lemma {:induction false} ProcessNewest(s: Socket, decide: seq<byte> -> Decision, env: Env)
    requires Newest(s)
    ensures Newest(Process(s, decide, env))
    decreases |s.buf|
  {
    var n := Newline(s.buf);
    if s.pending.Idle? && n < |s.buf| {
      ProcessNewest(Handle(Take(s, Line(s.buf[..n])), decide(s.buf[..n]), env), decide, env);
    }
  }

  lemma {:induction false} RepliesNewest(s: Socket, rs: seq<Reply>)
    requires Newest(s)
    ensures Newest(OnReplies(s, rs))
    decreases |rs|
  {
    if rs != [] { RepliesNewest(OnReply(s, rs[0]), rs[1..]); }
  }

  lemma LinkNewest(s: Socket, e: Events, decide: seq<byte> -> Decision)
    requires Newest(s)
    ensures Newest(FromLink(s, e, decide))
  {
    RepliesNewest(s, e.replies);
    hide OnReplies; hide Newest; hide Process;
    ProcessNewest(OnReplies(s, e.replies), decide, e.env);
  }

  lemma ClientNewest(s: Socket, e: Events, decide: seq<byte> -> Decision)
    requires Newest(s) && |s.buf| <= LINE_MAX
    ensures Newest(FromClient(s, e, decide))
  {
    hide Process;
    if e.incoming.Data? {
      ProcessNewest(Append(s, e.incoming.ready[..Min(|e.incoming.ready|, LINE_MAX - |s.buf|)]), decide, e.env);
    }
  }

  lemma ExpireNewest(s: Socket, decide: seq<byte> -> Decision, env: Env)
    requires Newest(s)
    ensures Newest(Expire(s, decide, env))
  {
    hide Process;
    ProcessNewest(Answered(s, Timeout), decide, env);
  }

  lemma PassNewest(s: Socket, e: Events, decide: seq<byte> -> Decision)
    requires Newest(s) && |s.buf| <= LINE_MAX
    ensures Newest(Pass(s, e, decide))
  {
    ReplyShrinks(s, e, decide);
    LinkNewest(s, e, decide);
    hide FromLink; hide FromClient; hide Expire; hide Newest;
    var a := FromLink(s, e, decide);
    ClientNewest(a, e, decide);
    ExpireNewest(FromClient(a, e, decide), decide, e.env);
  }

  lemma {:induction false} RunNewest(states: seq<Socket>, es: seq<Events>, decide: seq<byte> -> Decision, i: nat)
    requires IsRun(states, es, decide) && i < |states|
    ensures Newest(states[i])
  {
    hide Pass;
    if i > 0 {
      RunNewest(states, es, decide, i - 1);
      hide Newest;
      assert Follows(states, es, decide, i - 1);
      PassNewest(states[i - 1], es[i - 1], decide);
    }
  }

  lemma ReachableNewest(s: Socket, decide: seq<byte> -> Decision)
    requires Reachable(s, decide)
    ensures Newest(s)
  {
    hide IsRun; hide Newest;
    var states, es :| IsRun(states, es, decide) && s in states;
    var i :| 0 <= i < |states| && states[i] == s;
    RunNewest(states, es, decide, i);
  }

  // Replies to these requests, in their order.
  predicate InOrder(owed: seq<Request>, rs: seq<Reply>) {
    |owed| == |rs| && forall i :: 0 <= i < |rs| ==> Alike(owed[i], rs[i].what, rs[i].id)
  }

  lemma {:induction false} OthersIgnored(s: Socket, rs: seq<Reply>)
    requires forall i :: 0 <= i < |rs| ==> !Matches(s.pending, rs[i])
    ensures OnReplies(s, rs) == s
    decreases |rs|
  {
    if rs != [] { OthersIgnored(s, rs[1..]); }
  }

  // The first reply that answers the waiting request.
  function FirstMatch(p: Pending, rs: seq<Reply>): (n: nat)
    ensures n <= |rs|
  {
    if rs == [] || Matches(p, rs[0]) then 0 else 1 + FirstMatch(p, rs[1..])
  }

  lemma {:induction false} FirstOwed(s: Socket, owed: seq<Request>, rs: seq<Reply>)
    requires owed != [] && InOrder(owed, rs) && s.pending.Waiting?
    requires Alike(owed[|owed| - 1], s.pending.what, s.pending.id)
    ensures var n := FirstMatch(s.pending, rs);
            && n < |rs| && OnReplies(s, rs) == Answered(s, Result(rs[n]))
            && (n == |rs| - 1 <==>
                forall i :: 0 <= i < |owed| - 1 ==> !Alike(owed[i], s.pending.what, s.pending.id))
    decreases |rs|
  {
    assert Alike(owed[0], rs[0].what, rs[0].id);
    if Matches(s.pending, rs[0]) {
      OthersIgnored(Answered(s, Result(rs[0])), rs[1..]);
    } else {
      FirstOwed(s, owed[1..], rs[1..]);
      forall i | 0 < i < |owed| - 1 ensures owed[i] == owed[1..][i - 1] {}
    }
  }

  // After any run the Pico still owes the replies to the last requests sent, from the
  // k-th on. The waiting request is answered by its own reply, the last, if and only if
  // no earlier one of these has its type and id: a reply that comes after its timeout
  // answers the next request like it.
  lemma OwnReplyIff(s: Socket, k: nat, rs: seq<Reply>, decide: seq<byte> -> Decision)
    requires Reachable(s, decide) && s.pending.Waiting?
    requires k < |s.sent| && InOrder(s.sent[k..], rs)
    ensures var n := FirstMatch(s.pending, rs);
            && n < |rs| && OnReplies(s, rs) == Answered(s, Result(rs[n]))
            && (n == |rs| - 1 <==>
                forall i :: k <= i < |s.sent| - 1 ==> !Alike(s.sent[i], s.pending.what, s.pending.id))
  {
    ReachableNewest(s, decide);
    hide Reachable; hide InOrder; hide OnReplies; hide Alike; hide FirstMatch;
    var owed := s.sent[k..];
    FirstOwed(s, owed, rs);
    forall i | k <= i < |s.sent| - 1 ensures s.sent[i] == owed[i - k] {}
    forall i | 0 <= i < |owed| - 1 ensures owed[i] == s.sent[i + k] {}
  }

  // ---- A run in which a late reply answers the wrong request ----

  function Connects(now: nat): Events {
    Events(false, [], true, false, Nothing, Env(true, now))
  }

  function Sends(data: seq<byte>, now: nat): Events {
    Events(false, [], false, true, Data(data), Env(true, now))
  }

  function Waits(now: nat): Events {
    Events(false, [], false, false, Nothing, Env(true, now))
  }

  function Hears(r: Reply, now: nat): Events {
    Events(true, [r], false, false, Nothing, Env(true, now))
  }

  lemma ProcessAsks(s: Socket, line: seq<byte>, env: Env, decide: seq<byte> -> Decision)
    requires s.pending.Idle? && s.buf == line + [10] && Fits(Line(line)) && decide(line).Ask? && env.heap
    ensures Process(s, decide, env) == Handle(Take(s, Line(line)), decide(line), env)
  {
    NewlineIs(s.buf, |line|);
    assert s.buf[..|line|] == line;
  }

  lemma SendsAsks(s: Socket, line: seq<byte>, now: nat, decide: seq<byte> -> Decision)
    requires s.live && s.pending.Idle? && s.buf == []
    requires Fits(Line(line)) && decide(line).Ask?
    ensures var r := decide(line).request;
            var p := Pass(s, Sends(line + [10], now), decide);
            && p.live && p.buf == [] && p.sent == s.sent + [r]
            && p.pending == Waiting(r.what, r.id, now + REPLY_TIMEOUT_MS)
            && p.trace.answers == s.trace.answers && p.trace.taken == s.trace.taken + [Line(line)]
  {
    hide Process;
    var data := line + [10];
    SendsProcess(s, data, now, decide);
    assert s.buf + data == data;
    ProcessAsks(Append(s, data), line, Env(true, now), decide);
    hide Pass; hide Newline;
  }

  lemma SendsProcess(s: Socket, data: seq<byte>, now: nat, decide: seq<byte> -> Decision)
    requires s.live && s.buf == [] && 0 < |data| <= LINE_MAX
    ensures Pass(s, Sends(data, now), decide) ==
            Expire(Process(Append(s, data), decide, Env(true, now)), decide, Env(true, now))
  {
    hide Process; hide Expire; hide Append;
    assert data[..|data|] == data;
  }

  lemma WaitsTimesOut(s: Socket, now: nat, decide: seq<byte> -> Decision)
    requires s.live && s.pending.Waiting? && s.buf == [] && now > s.pending.deadline
    ensures Pass(s, Waits(now), decide) == Answered(s, Timeout)
  {}

  lemma HearsAnswers(s: Socket, r: Reply, now: nat, decide: seq<byte> -> Decision)
    requires s.live && Matches(s.pending, r) && s.buf == []
    ensures Pass(s, Hears(r, now), decide) == Answered(s, Result(r))
  {
    var e := Hears(r, now);
    OthersIgnored(OnReply(s, r), []);
    assert e.replies[0] == r && e.replies[1..] == [];
  }

  // A client asks, is told of a timeout and asks the same again: the late reply to the
  // first request answers the second, whose own reply is still owed.
  lemma LateReplyAnswersNext(line: seq<byte>, late: Reply, decide: seq<byte> -> Decision) returns (s: Socket)
    requires Fits(Line(line)) && decide(line).Ask?
    requires Alike(decide(line).request, late.what, late.id)
    ensures Reachable(s, decide) && s.live && s.pending.Idle?
    ensures s.sent == [decide(line).request, decide(line).request]
    ensures s.trace.taken == [Line(line), Line(line)]
    ensures s.trace.answers == [Timeout, Result(late)]
  {
    assert IsRun([Start], [], decide);
    assert Start in [Start];
    ReachableOn(Start, Connects(0), decide);
    s := Pass(Start, Connects(0), decide);
    assert s == Accept(Start);
    hide Reachable; hide Pass; hide Fits; hide Inv;
    ReachableOn(s, Sends(line + [10], 0), decide);
    SendsAsks(s, line, 0, decide);
    s := Pass(s, Sends(line + [10], 0), decide);
    ReachableOn(s, Waits(2001), decide);
    WaitsTimesOut(s, 2001, decide);
    s := Pass(s, Waits(2001), decide);
    ReachableOn(s, Sends(line + [10], 2001), decide);
    SendsAsks(s, line, 2001, decide);
    s := Pass(s, Sends(line + [10], 2001), decide);
    ReachableOn(s, Hears(late, 2002), decide);
    HearsAnswers(s, late, 2002, decide);
    s := Pass(s, Hears(late, 2002), decide);
  }
}
