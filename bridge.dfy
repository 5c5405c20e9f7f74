/** One pass of the command loop of the WebSocket endpoint, and one read of
    the serial port, in main.py.  The serial handle is a value: whether it
    exists and whether it is open; what a read returned (or that it raised)
    is an input. */
module Bridge {
  import opened Wrappers
  import opened Whitespace
  import opened Sanitizer

  /** The module-level `ser`: `None` when opening the port failed, otherwise
      a handle that is open or closed. */
  datatype SerialHandle = NoHandle | Handle(isOpen: bool)

  /** `ser and ser.is_open`. */
  predicate PortReady(h: SerialHandle) {
    h.Handle? && h.isOpen
  }

  const ACK_PREFIX: string := "[SYSTEM] Sending command to PFR: "

  /** What one received command makes the server do: the text sent back to
      the client and, when the port is ready, the text written to it. */
  datatype CommandEffect = CommandEffect(ack: string, write: Option<string>)

  function CommandStep(data: string, h: SerialHandle): (e: CommandEffect)
    ensures |e.ack| == |ACK_PREFIX| + |data|
    ensures e.ack[..|ACK_PREFIX|] == ACK_PREFIX && e.ack[|ACK_PREFIX|..] == data
    ensures e.write.Some? <==> PortReady(h)
    ensures e.write.Some? ==> |e.write.value| == |data| + 1
    ensures e.write.Some? ==> e.write.value[..|data|] == data && e.write.value[|data|] == '\n'
  {
    CommandEffect(ACK_PREFIX + data, if PortReady(h) then Some(data + "\n") else None)
  }

  /** Distinct commands give distinct acknowledgments and, when the port is
      ready, distinct writes: each command is recovered from either. */
  lemma CommandStepInjective(data: string, data': string, h: SerialHandle)
    ensures CommandStep(data, h).ack == CommandStep(data', h).ack ==> data == data'
    ensures PortReady(h) && CommandStep(data, h).write == CommandStep(data', h).write ==> data == data'
  {
  }

  /** What `ser.readline()` did: raised, or returned text (empty when the read
      timed out with nothing received). */
  datatype ReadOutcome = ReadFault | Received(text: string)

  function ReadFromSerialPort(h: SerialHandle, outcome: ReadOutcome): (r: Option<string>)
    ensures !PortReady(h) ==> r == None
    ensures outcome.ReadFault? ==> r == None
    ensures PortReady(h) && outcome.Received? ==> r == CleanLogLine(outcome.text)
    ensures r.Some? ==> r.value != [] && IsTrimmed(r.value)
  {
    if !PortReady(h) then None
    else match outcome
      case ReadFault => None
      case Received(text) => if text == [] then None else CleanLogLine(text)
  }
}
