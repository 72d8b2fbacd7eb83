/** The mock serial port: an immutable record of the port's fields and one
    total transition function per public operation. An operation that raises
    returns `Err` and no new state, so the caller's state is the state after
    the failed call: every exception of the port is raised before any field is
    assigned. */
module Serial {
  import opened Base
  import opened SerialConstants

  /** The exceptions the port raises. */
  datatype Error =
    | AlreadyOpen      // SerialException('Port is already open.')
    | PortNotOpen      // PortNotOpenError
    | NegativeSize     // DSIOError on a negative read size
    | MissingPort      // KeyError: the `port` keyword argument was not given
    | NegativeTimeout  // ValueError from sleeping for a negative timeout

  type Outcome<T> = Result<T, Error>

  /** The configured response table: exact written payload to staged reply. */
  type Responses = map<bytes, bytes>

  /** The keyword arguments of the constructor; `None` means "not given". */
  datatype Kwargs = Kwargs(
    port: Option<string>,
    responses: Option<Responses>,
    timeout: Option<real>,
    baudrate: Option<int>)

  /** The fields of one port object. `port` is `None` after a close. */
  datatype Port = Port(
    isOpen: bool,
    waitingData: bytes,
    port: Option<string>,
    initialPortName: string,
    responses: Responses,
    timeout: real,
    baudrate: int)

  /** What a successful read hands back: the bytes, and the number of seconds
      slept before returning them, if the read had to wait. */
  datatype ReadOutput = ReadOutput(data: bytes, sleptFor: Option<real>)

  /** The port name tracks the open flag: the initial name while open, no
      name while closed. Every operation keeps this. */
  predicate Valid(p: Port)
  {
    p.port == (if p.isOpen then Some(p.initialPortName) else None)
  }

  /** The fields none of the port's own operations assigns after
      construction. Code outside the port may still reassign them, or change
      the response table it shares with the port; the model does not
      represent that. */
  predicate SameConfig(p: Port, q: Port)
  {
    && q.initialPortName == p.initialPortName
    && q.responses == p.responses
    && q.timeout == p.timeout
    && q.baudrate == p.baudrate
  }

  /** Construction: the port starts open with the "no data" marker staged;
      a missing `port` argument raises before the object exists. */
  function Init(k: Constants, kw: Kwargs): (r: Outcome<Port>)
    ensures r.Err? <==> kw.port.None?
    ensures r.Err? ==> r.error == MissingPort
    ensures r.Ok? ==> Valid(r.value) && r.value.isOpen
    ensures r.Ok? ==> r.value.port == kw.port && r.value.initialPortName == kw.port.value
    ensures r.Ok? ==> r.value.waitingData == k.noDataPresent
    ensures r.Ok? && kw.responses.None? ==> r.value.responses == map[]
    ensures r.Ok? && kw.responses.Some? ==> r.value.responses == kw.responses.value
    ensures r.Ok? && kw.timeout.None? ==> r.value.timeout == k.defaultTimeout
    ensures r.Ok? && kw.timeout.Some? ==> r.value.timeout == kw.timeout.value
    ensures r.Ok? && kw.baudrate.None? ==> r.value.baudrate == k.defaultBaudrate
    ensures r.Ok? && kw.baudrate.Some? ==> r.value.baudrate == kw.baudrate.value
  {
    match kw.port
    case None => Err(MissingPort)
    case Some(name) =>
      Ok(Port(
        isOpen := true,
        waitingData := k.noDataPresent,
        port := Some(name),
        initialPortName := name,
        responses := kw.responses.GetOr(map[]),
        timeout := kw.timeout.GetOr(k.defaultTimeout),
        baudrate := kw.baudrate.GetOr(k.defaultBaudrate)))
  }

  /** Re-open a closed port under its initial name. Opening an open port
      raises; either way the pending buffer is left as it was. */
  function Open(p: Port): (r: Outcome<Port>)
    ensures r.Err? <==> p.isOpen
    ensures r.Err? ==> r.error == AlreadyOpen
    ensures r.Ok? ==> r.value.isOpen && r.value.port == Some(p.initialPortName)
    ensures r.Ok? ==> Valid(r.value)
    ensures r.Ok? ==> r.value.waitingData == p.waitingData && SameConfig(p, r.value)
  {
    if p.isOpen then Err(AlreadyOpen)
    else Ok(p.(isOpen := true, port := Some(p.initialPortName)))
  }

  /** Close the port. Never raises, returns nothing, drops the name, and keeps
      the pending buffer and the configuration. */
  function Close(p: Port): (r: Port)
    ensures !r.isOpen && r.port == None
    ensures Valid(r)
    ensures r.waitingData == p.waitingData && SameConfig(p, r)
  {
    var closed := if p.isOpen then p.(isOpen := false) else p;
    closed.(port := None)
  }

  /** Write a payload: on an open port, replace the pending buffer with the
      reply the payload selects, discarding anything still unread. The reply
      is the payload's configured response verbatim, or the "no data" marker
      for a payload the table does not hold (`_check_response`). */
  function Write(k: Constants, p: Port, data: bytes): (r: Outcome<Port>)
    ensures r.Err? <==> !p.isOpen
    ensures r.Err? ==> r.error == PortNotOpen
    ensures r.Ok? && data in p.responses ==> r.value.waitingData == p.responses[data]
    ensures r.Ok? && data !in p.responses ==> r.value.waitingData == k.noDataPresent
    ensures r.Ok? ==> r.value == p.(waitingData := r.value.waitingData)
  {
    if !p.isOpen then Err(PortNotOpen)
    else Ok(p.(waitingData := if data in p.responses then p.responses[data] else k.noDataPresent))
  }

  /** Read up to `size` bytes. The closed-port check comes before the size
      check. A buffer equal to the default response is handed back whole and
      kept; otherwise the read returns a prefix of the buffer, keeps the rest
      when it took less than all of it, resets the buffer to the "no data"
      marker when it took all of it, and sleeps for the timeout first when it
      asked for more than there was. Sleeping for a negative timeout raises,
      before the buffer is touched. */
  function Read(k: Constants, p: Port, size: int): (r: Outcome<(Port, ReadOutput)>)
    ensures !p.isOpen ==> r == Err(PortNotOpen)
    ensures p.isOpen && size < 0 ==> r == Err(NegativeSize)
    ensures r.Ok? ==> p.isOpen && size >= 0
    // an open port with a non-negative size fails only by sleeping for a negative timeout
    ensures p.isOpen && size >= 0 && r.Err? ==>
              && r.error == NegativeTimeout
              && p.timeout < 0.0
              && p.waitingData != k.defaultResponse && size > |p.waitingData|
    ensures p.isOpen && size >= 0 && p.timeout >= 0.0 ==> r.Ok?
    ensures (p.isOpen && p.timeout < 0.0 && p.waitingData != k.defaultResponse &&
             size > |p.waitingData|) ==> r == Err(NegativeTimeout)
    ensures r.Ok? ==> r.value.0 == p.(waitingData := r.value.0.waitingData)
    // the sentinel is atomic: returned whole, nothing changes
    ensures r.Ok? && p.waitingData == k.defaultResponse ==>
              r.value == (p, ReadOutput(p.waitingData, None))
    // otherwise a read hands back a prefix of what was pending ...
    ensures r.Ok? && p.waitingData != k.defaultResponse ==>
              var out := r.value.1.data;
              && |out| == (if size < |p.waitingData| then size else |p.waitingData|)
              && out <= p.waitingData
    // ... keeps exactly the rest when it took less than everything ...
    ensures r.Ok? && p.waitingData != k.defaultResponse && size < |p.waitingData| ==>
              r.value.1.data + r.value.0.waitingData == p.waitingData
    // ... and otherwise leaves the "no data" marker behind
    ensures r.Ok? && p.waitingData != k.defaultResponse && size >= |p.waitingData| ==>
              r.value.0.waitingData == k.noDataPresent
    // only a read that asks for more than is pending sleeps, for the timeout
    ensures r.Ok? ==> (r.value.1.sleptFor.Some? <==>
                        p.waitingData != k.defaultResponse && size > |p.waitingData|)
    ensures r.Ok? && r.value.1.sleptFor.Some? ==> r.value.1.sleptFor.value == p.timeout
  {
    if !p.isOpen then Err(PortNotOpen)
    else if size < 0 then Err(NegativeSize)
    else if p.waitingData == k.defaultResponse then
      Ok((p, ReadOutput(p.waitingData, None)))
    else if size < |p.waitingData| then
      Ok((p.(waitingData := p.waitingData[size..]), ReadOutput(p.waitingData[..size], None)))
    else if size == |p.waitingData| then
      Ok((p.(waitingData := k.noDataPresent), ReadOutput(p.waitingData, None)))
    else if p.timeout < 0.0 then Err(NegativeTimeout)
    else
      Ok((p.(waitingData := k.noDataPresent), ReadOutput(p.waitingData, Some(p.timeout))))
  }

  /** Number of bytes pending (`inWaiting` and the `in_waiting` property);
      needs no open port and changes nothing. */
  function InWaiting(p: Port): nat
  {
    |p.waitingData|
  }
}
