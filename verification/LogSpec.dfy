/**
 The Pico's log as a value: a queue of lines, the oldest one in flight to the Zero
 until it is confirmed.
 */
module LogSpec {
  import opened Bytes
  import opened Frames
  import opened Codec
  import opened Endpoint

  const RESEND_US := 100 * 1000

  datatype Line = Line(severity: byte, source: byte, text: seq<byte>)

  datatype LogState = LogState(queue: seq<Line>, inFlight: bool, counter: byte, sentUs: nat)

  // The endpoint and the log after an operation, and the calls it made.
  datatype Result = Result(st: State, log: LogState, calls: seq<Call>)

  // Microseconds since `sentUs` on a 64-bit clock.
  function Elapsed(now: nat, sentUs: nat): int {
    (now - sentUs) % 0x1_0000_0000_0000_0000
  }

  function SendHead(st: State, log: LogState, now: nat): Result
    requires log.queue != []
  {
    var head := log.queue[0];
    var r := Send(st, 0x06, Text(head.severity, head.source, head.text));
    if r.rc < 0 then Result(st, log, [])
    else Result(r.st, log.(inFlight := true, counter := st.tx[TEXT_SLOT], sentUs := now), r.calls)
  }

  predicate Confirms(log: LogState, counter: byte) {
    log.queue != [] && log.inFlight && counter == log.counter
  }

  function OnAck(st: State, log: LogState, counter: byte, now: nat): Result {
    if !Confirms(log, counter) then Result(st, log, [])
    else
      var popped := log.(queue := log.queue[1..], inFlight := false);
      if popped.queue == [] then Result(st, popped, []) else SendHead(st, popped, now)
  }

  function Poll(st: State, log: LogState, now: nat): Result {
    if log.queue == [] then Result(st, log, [])
    else if !log.inFlight then SendHead(st, log, now)
    else if Elapsed(now, log.sentUs) >= RESEND_US then
      var head := log.queue[0];
      Result(st, log.(sentUs := now), Resend(st, log.counter, head.severity, head.source, head.text).calls)
    else Result(st, log, [])
  }

  // `room`: the entry of the line can be allocated.
  function VLog(st: State, log: LogState, line: Line, now: nat, room: bool): Result {
    if room then Poll(st, log.(queue := log.queue + [line]), now) else Result(st, log, [])
  }
}
