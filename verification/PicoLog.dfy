/**
 The Pico's log as the code keeps it: a singly linked list with head and tail,
 proved against LogSpec.
 */
module PicoLog {
  import opened Bytes
  import opened Codec
  import opened Endpoint
  import opened LogSpec
  import Spec = LogSpec
  import C = Comm

  const QUEUE_MAX := 65536

  class Node {
    var next: Node?
    const line: Line

    constructor (line: Line)
      ensures next == null && this.line == line
    {
      next := null;
      this.line := line;
    }
  }

  // Length of a text up to its first zero byte.
  function StrLen(text: seq<byte>): nat {
    if text == [] || text[0] == 0 then 0 else 1 + StrLen(text[1..])
  }

  lemma {:induction false} StrLenWhole(text: seq<byte>)
    requires 0 !in text
    ensures StrLen(text) == |text|
  {
    if text != [] {
      StrLenWhole(text[1..]);
    }
  }

  function TotalBytes(lines: seq<Line>): nat {
    if lines == [] then 0 else |lines[0].text| + TotalBytes(lines[1..])
  }

  lemma {:induction false} TotalBytesSnoc(lines: seq<Line>, line: Line)
    ensures TotalBytes(lines + [line]) == TotalBytes(lines) + |line.text|
  {
    if lines == [] {
      assert [] + [line] == [line];
    } else {
      assert (lines + [line])[1..] == lines[1..] + [line];
      TotalBytesSnoc(lines[1..], line);
    }
  }

  function Lines(nodes: seq<Node>): (lines: seq<Line>)
    ensures |lines| == |nodes| && forall i :: 0 <= i < |nodes| ==> lines[i] == nodes[i].line
  {
    seq(|nodes|, i requires 0 <= i < |nodes| => nodes[i].line)
  }

  function Upon(before: seq<Call>, r: Result): Result {
    r.(calls := before + r.calls)
  }

  lemma SendCounts(st: State, line: Line)
    ensures var r := Send(st, 0x06, Text(line.severity, line.source, line.text));
            r.rc == Val(st.tx[TEXT_SLOT]) || (r.rc == -1 && r.st == st && r.calls == [])
    ensures OfNat(Val(st.tx[TEXT_SLOT])) == st.tx[TEXT_SLOT]
  {
    hide Val; hide OfNat;
    OfNatVal(st.tx[TEXT_SLOT]);
    TextPacks(st, line.severity, line.source, line.text);
  }

  ghost predicate Linked(nodes: seq<Node>, head: Node?, tail: Node?)
    reads nodes
  {
    && (forall i, j :: 0 <= i < j < |nodes| ==> nodes[i] != nodes[j])
    && (forall i :: 0 <= i < |nodes| - 1 ==> nodes[i].next == nodes[i + 1])
    && (if nodes == [] then head == null && tail == null
        else head == nodes[0] && tail == nodes[|nodes| - 1] && tail.next == null)
  }

  lemma LinkedTail(nodes: seq<Node>, head: Node, tail: Node)
    requires Linked(nodes, head, tail)
    ensures Linked(nodes[1..], head.next, if head.next == null then null else tail)
  {
    var rest := nodes[1..];
    assert forall i :: 0 <= i < |rest| ==> rest[i] == nodes[i + 1];
  }

  class PicoLog {
    const comm: C.Comm
    var head: Node?
    var tail: Node?
    var queuedBytes: nat
    var inFlight: bool
    var inFlightCounter: byte
    var sentUs: nat
    ghost var nodes: seq<Node>  // the list from head to tail

    ghost predicate Valid()
      reads this, nodes, comm, comm.Repr
    {
      && comm.Shaped()
      && ListOk()
      && (inFlight ==> head != null)
    }

    ghost predicate ListOk()
      reads this, nodes
    {
      && head == (if nodes == [] then null else nodes[0])
      && Linked(nodes, head, tail)
      && queuedBytes == TotalBytes(Lines(nodes))
      && (forall i :: 0 <= i < |nodes| ==> 0 !in nodes[i].line.text)
    }

    ghost function Value(): LogState
      reads this
    {
      LogState(Lines(nodes), inFlight, inFlightCounter, sentUs)
    }

    // The log, the endpoint and the calls, for comparison with the functions above.
    ghost function Now(): Result
      requires comm.Shaped()
      reads this, comm, comm.Repr
    {
      Result(comm.State(), Value(), comm.calls)
    }

    constructor (comm: C.Comm)
      requires comm.Shaped()
      ensures Valid() && this.comm == comm
      ensures Value() == LogState([], false, 0, 0)
    {
      this.comm := comm;
      head, tail := null, null;
      queuedBytes := 0;
      inFlight, inFlightCounter, sentUs := false, 0, 0;
      nodes := [];
    }

    method Pop()
      requires ListOk() && head != null
      modifies this`head, this`tail, this`queuedBytes, this`nodes
      ensures ListOk()
      ensures Value() == old(Value()).(queue := old(Value()).queue[1..])
    {
      hide StrLen;
      var e := head;
      LinkedTail(nodes, head, tail);
      head := e.next;
      if head == null {
        tail := null;
      }
      StrLenWhole(e.line.text);
      queuedBytes := queuedBytes - StrLen(e.line.text);
      assert Lines(nodes)[1..] == Lines(nodes[1..]);
      nodes := nodes[1..];
      hide Linked;
    }

    method SendHead(now: nat)
      requires Valid() && head != null
      modifies this`inFlight, this`inFlightCounter, this`sentUs, comm`calls, comm.txCounter
      ensures Valid()
      ensures Now() == Upon(old(comm.calls), Spec.SendHead(old(comm.State()), old(Value()), now))
    {
      hide Fits; hide KindOf; hide Send; hide Linked;
      SendCounts(comm.State(), head.line);
      var counter := comm.SendText(head.line.severity, head.line.source, head.line.text);
      if counter < 0 {
        return;  // retried on the next Poll
      }
      inFlight := true;
      inFlightCounter := OfNat(counter);
      sentUs := now;
    }

    method OnAck(counter: byte, now: nat)
      requires Valid()
      modifies this, comm`calls, comm.txCounter
      ensures Valid()
      ensures Now() == Upon(old(comm.calls), Spec.OnAck(old(comm.State()), old(Value()), counter, now))
    {
      hide Send; hide Linked; hide Spec.SendHead;
      if head == null || !inFlight || counter != inFlightCounter {
        return;
      }
      Pop();
      inFlight := false;
      if head != null {
        SendHead(now);
      }
    }

    method Poll(now: nat)
      requires Valid()
      modifies this`inFlight, this`inFlightCounter, this`sentUs, comm`calls, comm.txCounter
      ensures Valid()
      ensures Now() == Upon(old(comm.calls), Spec.Poll(old(comm.State()), old(Value()), now))
    {
      hide Send; hide Resend; hide Linked; hide Spec.SendHead;
      if head == null {
        return;
      }
      if !inFlight {
        SendHead(now);
        return;
      }
      if Elapsed(now, sentUs) >= RESEND_US {
        var rc := comm.ResendText(inFlightCounter, head.line.severity, head.line.source, head.line.text);
        sentUs := now;
      }
    }

    method Full() returns (full: bool)
      requires Valid()
      ensures full == (TotalBytes(Value().queue) >= QUEUE_MAX)
    {
      full := queuedBytes >= QUEUE_MAX;
    }

    // Queues even past QUEUE_MAX, as long as there is memory for the entry; Full tells
    // the main loop to pause
    method VLog(line: Line, now: nat, room: bool) returns (rc: int)
      requires Valid() && 0 !in line.text
      modifies this, nodes, comm`calls, comm.txCounter
      ensures Valid() && rc == (if room then 0 else -1)
      ensures Now() == Upon(old(comm.calls), Spec.VLog(old(comm.State()), old(Value()), line, now, room))
    {
      hide Spec.Poll;
      if !room {
        assert comm.calls + [] == comm.calls;
        return -1;
      }
      Append(line);
      Poll(now);
      return 0;
    }

    method Append(line: Line)
      requires ListOk() && 0 !in line.text
      modifies this`head, this`tail, this`queuedBytes, this`nodes, nodes
      ensures ListOk() && head != null
      ensures Value() == old(Value()).(queue := old(Value()).queue + [line])
    {
      var e := new Node(line);
      if tail != null {
        tail.next := e;
      } else {
        head := e;
      }
      tail := e;
      queuedBytes := queuedBytes + |line.text|;
      nodes := nodes + [e];
      hide TotalBytes;
      TotalBytesSnoc(Lines(old(nodes)), line);
      assert Lines(nodes) == Lines(old(nodes)) + [line];
    }
  }
}
