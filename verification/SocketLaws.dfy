/**
 What one pass of the reader loop does to the client, in bytes, milliseconds and
 answers.
 */
module SocketLaws {
  import opened Bytes
  import opened SocketSpec

  // ---- Clients ----

  // A second client changes nothing for the first.
  lemma SecondClientRefused(s: Socket, e: Events, decide: seq<byte> -> Decision)
    requires |s.buf| <= LINE_MAX && s.live
    ensures Pass(s, e, decide) == Pass(s, e.(connect := false), decide)
  {
    ReplyShrinks(s, e, decide);
    ReplyShrinks(s, e.(connect := false), decide);
    hide Process; hide OnReplies; hide Read; hide Expire;
  }

  // With no client, one that connects is served from a clean start; nothing of an
  // earlier client is left.
  lemma FirstClientServed(s: Socket, e: Events, decide: seq<byte> -> Decision)
    requires Reachable(s, decide) && !s.live && e.connect
    ensures |s.buf| <= LINE_MAX
    ensures Pass(s, e, decide) == s.(live := true, trace := Trace([], [], [], [])) && s.buf == [] && s.pending == Idle
  {
    ReachableInv(s, decide);
    hide Reachable; hide Traced;
    IdleIgnores(s, e.replies);
    hide OnReplies; hide Process;
  }

  lemma IdleIgnores(s: Socket, rs: seq<Reply>)
    requires s.pending.Idle?
    ensures OnReplies(s, rs) == s
  {
    OthersIgnored(s, rs);
  }

  // ---- Bytes ----

  lemma {:induction false} ProcessReads(s: Socket, decide: seq<byte> -> Decision, env: Env)
    ensures Process(s, decide, env).trace.got == s.trace.got
    decreases |s.buf|
  {
    var n := Newline(s.buf);
    if s.pending.Idle? && n < |s.buf| {
      ProcessReads(Handle(Take(s, Line(s.buf[..n])), decide(s.buf[..n]), env), decide, env);
    }
  }

  lemma {:induction false} RepliesRead(s: Socket, rs: seq<Reply>)
    ensures OnReplies(s, rs).trace.got == s.trace.got
    decreases |rs|
  {
    if rs != [] { RepliesRead(OnReply(s, rs[0]), rs[1..]); }
  }

  lemma LinkReads(s: Socket, e: Events, decide: seq<byte> -> Decision)
    ensures FromLink(s, e, decide).trace.got == s.trace.got
  {
    RepliesRead(s, e.replies);
    ProcessReads(OnReplies(s, e.replies), decide, e.env);
    hide OnReplies; hide Process;
  }

  lemma ExpireReads(s: Socket, decide: seq<byte> -> Decision, env: Env)
    ensures Expire(s, decide, env).trace.got == s.trace.got
  {
    ProcessReads(Answered(s, Timeout), decide, env);
    hide Process;
  }

  // A pass reads as much of what the client sent as the buffer has room for after the
  // replies of that pass, in order, and nothing from a client that sent nothing.
  lemma ReadsWhatFits(s: Socket, e: Events, decide: seq<byte> -> Decision)
    requires Reachable(s, decide) && s.live && |s.buf| <= LINE_MAX
    ensures var a, p := FromLink(s, e, decide), Pass(s, e, decide);
            && |a.buf| <= 256
            && (e.readable && e.incoming.Data? ==>
                  var room := 256 - |a.buf|;
                  p.trace.got == s.trace.got + if |e.incoming.ready| < room then e.incoming.ready
                                               else e.incoming.ready[..room])
            && (!e.readable || !e.incoming.Data? ==> p.trace.got == s.trace.got)
  {
    ReplyShrinks(s, e, decide);
    LinkReads(s, e, decide);
    hide Reachable; hide FromLink; hide Process; hide Expire;
    var a := FromLink(s, e, decide);
    ExpireReads(FromClient(a, e, decide), decide, e.env);
    if e.readable && e.incoming.Data? {
      var ready := e.incoming.ready;
      var n := Min(|ready|, LINE_MAX - |a.buf|);
      ProcessReads(Append(a, ready[..n]), decide, e.env);
      assert ready[..|ready|] == ready;
      assert a.trace.got + [] == a.trace.got;
    }
  }

  // ---- Time ----

  // A request that waits now and did not before has two seconds from now.
  predicate Timed(a: Socket, b: Socket, now: nat) {
    b.pending.Waiting? && b.pending != a.pending ==> b.pending.deadline == now + 2000
  }

  lemma {:induction false} ProcessTimed(s: Socket, decide: seq<byte> -> Decision, env: Env)
    ensures Timed(s, Process(s, decide, env), env.now)
    decreases |s.buf|
  {
    var n := Newline(s.buf);
    if s.pending.Idle? && n < |s.buf| {
      ProcessTimed(Handle(Take(s, Line(s.buf[..n])), decide(s.buf[..n]), env), decide, env);
    }
  }

  lemma {:induction false} RepliesTimed(s: Socket, rs: seq<Reply>)
    ensures var r := OnReplies(s, rs); r.pending == s.pending || r.pending.Idle?
    decreases |rs|
  {
    if rs != [] { RepliesTimed(OnReply(s, rs[0]), rs[1..]); }
  }

  lemma LinkTimed(s: Socket, e: Events, decide: seq<byte> -> Decision)
    ensures Timed(s, FromLink(s, e, decide), e.env.now)
  {
    RepliesTimed(s, e.replies);
    ProcessTimed(OnReplies(s, e.replies), decide, e.env);
    hide OnReplies; hide Process;
  }

  lemma ClientTimed(s: Socket, e: Events, decide: seq<byte> -> Decision)
    requires |s.buf| <= LINE_MAX
    ensures Timed(s, FromClient(s, e, decide), e.env.now)
  {
    hide Process;
    if e.incoming.Data? {
      ProcessTimed(Append(s, e.incoming.ready[..Min(|e.incoming.ready|, LINE_MAX - |s.buf|)]), decide, e.env);
    }
  }

  lemma ExpireTimed(s: Socket, decide: seq<byte> -> Decision, env: Env)
    ensures Timed(s, Expire(s, decide, env), env.now)
  {
    hide Process;
    ProcessTimed(Answered(s, Timeout), decide, env);
  }

  lemma PassTimed(s: Socket, e: Events, decide: seq<byte> -> Decision)
    requires |s.buf| <= LINE_MAX
    ensures Timed(s, Pass(s, e, decide), e.env.now)
  {
    ReplyShrinks(s, e, decide);
    hide FromLink; hide FromClient; hide Expire;
    var a := FromLink(s, e, decide);
    LinkTimed(s, e, decide);
    ClientTimed(a, e, decide);
    ExpireTimed(FromClient(a, e, decide), decide, e.env);
  }

  lemma {:induction false} ProcessAnswers(s: Socket, decide: seq<byte> -> Decision, env: Env)
    ensures s.trace.answers <= Process(s, decide, env).trace.answers
    decreases |s.buf|
  {
    var n := Newline(s.buf);
    if s.pending.Idle? && n < |s.buf| {
      ProcessAnswers(Handle(Take(s, Line(s.buf[..n])), decide(s.buf[..n]), env), decide, env);
    }
  }

  // A waiting request that gets no reply in this pass stays as it is until its deadline
  // has passed, and is then answered with a timeout.
  lemma TimesOutAfter(s: Socket, e: Events, decide: seq<byte> -> Decision)
    requires |s.buf| <= LINE_MAX && s.live && s.pending.Waiting?
    requires e.link ==> forall i :: 0 <= i < |e.replies| ==> !Matches(s.pending, e.replies[i])
    requires Pass(s, e, decide).live
    ensures var p := Pass(s, e, decide);
            if e.env.now <= s.pending.deadline then p.pending == s.pending && p.trace.answers == s.trace.answers
            else s.trace.answers + [Timeout] <= p.trace.answers
  {
    if e.link { OthersIgnored(s, e.replies); }
    hide OnReplies;
    assert FromLink(s, e, decide) == s;
    var b := FromClient(s, e, decide);
    hide Read; hide Process;
    ExpireKeepsLive(b, decide, e.env);
    if e.readable { WaitingReads(s, e.incoming, decide, e.env); }
    assert b.pending == s.pending && b.trace.answers == s.trace.answers;
    ProcessAnswers(Answered(b, Timeout), decide, e.env);
  }

  // While a request waits, what is read is only kept.
  lemma WaitingReads(s: Socket, i: Incoming, decide: seq<byte> -> Decision, env: Env)
    requires |s.buf| <= LINE_MAX && s.pending.Waiting? && Read(s, i, decide, env).live
    ensures var r := Read(s, i, decide, env); r.pending == s.pending && r.trace.answers == s.trace.answers
  {}

  // ---- Memory ----

  predicate NoneFailed(answers: seq<Answer>, from: nat) {
    forall i :: from <= i < |answers| ==> !answers[i].SendFailed?
  }

  lemma {:induction false} ProcessSends(s: Socket, decide: seq<byte> -> Decision, env: Env, from: nat)
    requires NoneFailed(s.trace.answers, from)
    ensures var p := Process(s, decide, env);
            && (env.heap ==> NoneFailed(p.trace.answers, from))
            && (!env.heap ==> p.sent == s.sent)
    decreases |s.buf|
  {
    var n := Newline(s.buf);
    if s.pending.Idle? && n < |s.buf| {
      var line := s.buf[..n];
      var t := Handle(Take(s, Line(line)), decide(line), env);
      if env.heap {
        ProcessSends(t, decide, env, from);
      } else {
        assert NoneFailed(t.trace.answers, |t.trace.answers|);
        ProcessSends(t, decide, env, |t.trace.answers|);
      }
    }
  }

  // What a stage of a pass sends: nothing without memory, and with it no request fails.
  predicate Sends(a: Socket, b: Socket, heap: bool, from: nat) {
    && (!heap ==> b.sent == a.sent)
    && (heap && NoneFailed(a.trace.answers, from) ==> NoneFailed(b.trace.answers, from))
  }

  lemma ProcessStage(s: Socket, decide: seq<byte> -> Decision, env: Env, from: nat)
    ensures Sends(s, Process(s, decide, env), env.heap, from)
  {
    hide Process;
    if NoneFailed(s.trace.answers, from) {
      ProcessSends(s, decide, env, from);
    } else {
      ProcessSends(s, decide, env, |s.trace.answers|);
    }
  }

  lemma {:induction false} RepliesStage(s: Socket, rs: seq<Reply>, heap: bool, from: nat)
    ensures Sends(s, OnReplies(s, rs), heap, from)
    decreases |rs|
  {
    if rs != [] { RepliesStage(OnReply(s, rs[0]), rs[1..], heap, from); }
  }

  lemma LinkStage(s: Socket, e: Events, decide: seq<byte> -> Decision, from: nat)
    ensures Sends(s, FromLink(s, e, decide), e.env.heap, from)
  {
    hide NoneFailed; hide OnReplies; hide Process;
    RepliesStage(s, e.replies, e.env.heap, from);
    ProcessStage(OnReplies(s, e.replies), decide, e.env, from);
  }

  lemma ClientStage(s: Socket, e: Events, decide: seq<byte> -> Decision, from: nat)
    requires |s.buf| <= LINE_MAX && s.live
    ensures Sends(s, FromClient(s, e, decide), e.env.heap, from)
  {
    hide NoneFailed; hide Process;
    if e.incoming.Data? {
      ProcessStage(Append(s, e.incoming.ready[..Min(|e.incoming.ready|, LINE_MAX - |s.buf|)]), decide, e.env, from);
    }
  }

  lemma ExpireStage(s: Socket, decide: seq<byte> -> Decision, env: Env, from: nat)
    ensures Sends(s, Expire(s, decide, env), env.heap, from)
  {
    hide Process;
    ProcessStage(Answered(s, Timeout), decide, env, from);
  }

  // In a pass with memory no request fails to be sent; in one without none is sent.
  lemma SendsWithMemory(s: Socket, e: Events, decide: seq<byte> -> Decision)
    requires |s.buf| <= LINE_MAX && s.live
    ensures var p := Pass(s, e, decide);
            && (!e.env.heap ==> p.sent == s.sent)
            && (e.env.heap ==> forall i :: |s.trace.answers| <= i < |p.trace.answers| ==> !p.trace.answers[i].SendFailed?)
  {
    hide FromLink; hide FromClient; hide Expire;
    var from := |s.trace.answers|;
    ReplyShrinks(s, e, decide);
    var a := FromLink(s, e, decide);
    LinkStage(s, e, decide, from);
    ClientStage(a, e, decide, from);
    ExpireStage(FromClient(a, e, decide), decide, e.env, from);
  }
}
