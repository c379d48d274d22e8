/**
 The Zero's command socket as the code keeps it: a line buffer that is shifted down
 after each line, and the request that waits for its reply.
 */
module Socket {
  import opened Bytes
  import opened SocketSpec

  class CommandSocket {
    const decide: seq<byte> -> Decision
    const clientBuf: array<byte>
    var clientLen: nat
    var live: bool
    var waiting: bool
    var waitWhat: byte
    var waitId: bv32
    var waitDeadline: nat
    ghost var sent: seq<Request>
    ghost var trace: Trace

    ghost predicate Valid()
      reads this
    {
      clientBuf.Length == LINE_MAX && clientLen <= LINE_MAX
    }

    ghost function Value(): SocketSpec.Socket
      requires Valid()
      reads this, clientBuf
    {
      SocketSpec.Socket(live, clientBuf[..clientLen],
                        if waiting then Waiting(waitWhat, waitId, waitDeadline) else Idle, sent, trace)
    }

    constructor (decide: seq<byte> -> Decision)
      ensures Valid() && this.decide == decide && fresh(clientBuf)
      ensures Value() == Start
    {
      this.decide := decide;
      clientBuf := new byte[LINE_MAX];
      clientLen := 0;
      live, waiting, waitWhat, waitId, waitDeadline := false, false, 0, 0, 0;
      sent, trace := [], Start.trace;
    }

    method Answer(a: Answer)
      requires Valid()
      modifies this
      ensures Valid() && Value() == Answered(old(Value()), a)
      ensures clientLen == old(clientLen)
    {
      trace := trace.(answers := trace.answers + [a]);
      waiting := false;
    }

    method SendRequest(r: Request, env: Env)
      requires Valid()
      modifies this
      ensures Valid() && Value() == Handle(old(Value()), Ask(r), env)
      ensures clientLen == old(clientLen)
    {
      if !env.heap {
        Answer(SendFailed);
        return;
      }
      sent, trace := sent + [r], trace.(asked := trace.asked + [r]);
      waiting := true;
      waitWhat, waitId := r.what, r.id;
      waitDeadline := env.now + REPLY_TIMEOUT_MS;
    }

    method HandleRequest(line: seq<byte>, env: Env)
      requires Valid()
      modifies this
      ensures Valid() && Value() == Handle(old(Value()), decide(line), env)
      ensures clientLen == old(clientLen)
    {
      match decide(line) {
        case Refuse(text) => Answer(Refused(text));
        case Ask(r) => SendRequest(r, env);
      }
    }

    method FindNewline() returns (n: nat)
      requires Valid()
      ensures n == Newline(clientBuf[..clientLen])
    {
      n := 0;
      while n < clientLen && clientBuf[n] != 10
        invariant n <= clientLen
        invariant forall i :: 0 <= i < n ==> clientBuf[i] != 10
      {
        n := n + 1;
      }
      NewlineIs(clientBuf[..clientLen], n);
    }

    method ProcessClientLines(env: Env)
      requires Valid()
      modifies this, clientBuf
      ensures Valid() && Value() == Process(old(Value()), decide, env)
    {
      hide Newline; hide Handle; hide Take; hide Answered;
      while !waiting
        invariant Valid()
        invariant Process(Value(), decide, env) == Process(old(Value()), decide, env)
        decreases clientLen, !waiting
      {
        var n := FindNewline();
        if n == clientLen {
          if clientLen == LINE_MAX {
            Discard();
            Answer(LineTooLong);
          }
          return;
        }
        ghost var was := Value();
        var line := TakeLine(n);
        assert line == was.buf[..n];
        HandleRequest(line, env);
      }
    }

    // Copy a line out and shift what follows it down.
    method TakeLine(n: nat) returns (line: seq<byte>)
      requires Valid() && n < clientLen
      modifies this, clientBuf
      ensures Valid() && line == old(clientBuf[..n]) && Value() == Take(old(Value()), Line(line))
      ensures clientLen == old(clientLen) - n - 1 && waiting == old(waiting)
    {
      line := clientBuf[..n];
      ghost var buf := clientBuf[..clientLen];
      assert clientBuf[n + 1..clientLen] == buf[n + 1..];
      Shift(n + 1);
      trace := trace.(taken := trace.taken + [Line(line)]);
    }

    method Discard()
      requires Valid()
      modifies this
      ensures Valid() && Value() == Take(old(Value()), TooLong(old(Value()).buf))
      ensures waiting == old(waiting)
    {
      trace := trace.(taken := trace.taken + [TooLong(clientBuf[..clientLen])]);
      clientLen := 0;
    }

    // Drop the first bytes of the buffer.
    method Shift(n: nat)
      requires Valid() && n <= clientLen
      modifies this`clientLen, clientBuf
      ensures Valid() && clientBuf[..clientLen] == old(clientBuf[n..clientLen])
      ensures clientLen == old(clientLen) - n
    {
      var rest := clientBuf[n..clientLen];
      Put(clientBuf, 0, rest);
      clientLen := clientLen - n;
      assert clientBuf[..0] == [];
    }

    method OnReply(r: Reply)
      requires Valid()
      modifies this
      ensures Valid() && Value() == SocketSpec.OnReply(old(Value()), r)
      ensures clientLen == old(clientLen)
    {
      if waiting && r.what == waitWhat && r.id == waitId {
        Answer(Result(r));
      }
    }

    method CloseClient()
      requires Valid()
      modifies this
      ensures Valid() && Value() == Close(old(Value()))
    {
      live := false;
      clientLen := 0;
      waiting := false;
    }

    method AcceptClient()
      requires Valid()
      modifies this
      ensures Valid() && Value() == Accept(old(Value()))
    {
      if live {
        return;
      }
      live := true;
      trace := Trace([], [], [], []);
    }

    method ReadClient(i: Incoming, env: Env)
      requires Valid()
      modifies this, clientBuf
      ensures Valid() && Value() == Read(old(Value()), i, decide, env)
    {
      hide Process; hide Close;
      var room := LINE_MAX - clientLen;
      var data: seq<byte> := if i.Data? then i.ready[..Min(|i.ready|, room)] else [];
      if room == 0 || i.Ended? || (i.Data? && |data| == 0) {
        CloseClient();
        return;
      }
      if |data| > 0 {
        ghost var was := Value();
        Put(clientBuf, clientLen, data);
        clientLen := clientLen + |data|;
        trace := trace.(got := trace.got + data);
        assert Value() == Append(was, data);
        ProcessClientLines(env);
      }
    }

    // One pass of the reader loop.
    method LoopPass(e: Events)
      requires Valid()
      modifies this, clientBuf
      ensures Valid() && Value() == Pass(old(Value()), e, decide)
    {
      hide Process; hide Read; hide Newline;
      var wasLive := live;
      if e.link {
        var i := 0;
        while i < |e.replies|
          invariant Valid() && i <= |e.replies| && clientLen == old(clientLen)
          invariant OnReplies(Value(), e.replies[i..]) == OnReplies(old(Value()), e.replies)
        {
          assert e.replies[i..][1..] == e.replies[i + 1..];
          OnReply(e.replies[i]);
          i := i + 1;
        }
        if live {
          ProcessClientLines(e.env);
        }
      }
      assert Value() == FromLink(old(Value()), e, decide);
      ReplyShrinks(old(Value()), e, decide);
      hide FromLink;
      if e.connect {
        AcceptClient();
      }
      if wasLive && live && e.readable {
        ReadClient(e.incoming, e.env);
      }
      if waiting && e.env.now > waitDeadline {
        Answer(Timeout);
        ProcessClientLines(e.env);
      }
    }
  }
}
