/** A port used over time: any sequence of the public operations, applied one
    after another, with each exception surfaced as a reply and the state left
    as it was before the failing call. */
module Session {
  import opened Base
  import opened SerialConstants
  import opened Serial

  /** The public operations of a constructed port. */
  datatype Op =
    | OpenOp
    | CloseOp
    | WriteOp(data: bytes)
    | ReadOp(size: int)
    | InWaitingOp

  /** What a call hands back to its caller. */
  datatype Reply =
    | Nothing                 // open, close and write return None
    | Data(out: ReadOutput)   // read
    | Count(n: nat)           // inWaiting / in_waiting
    | Raised(error: Error)    // the call raised

  datatype Step = Step(port: Port, reply: Reply)

  /** One call. A call that raises leaves the port exactly as it was; no call
      touches the configuration; only write and read touch the pending buffer;
      only open and close touch the open flag and the name. */
  function Apply(k: Constants, p: Port, op: Op): (s: Step)
    ensures s.reply.Raised? ==> s.port == p
    ensures SameConfig(p, s.port)
    ensures Valid(p) ==> Valid(s.port)
    ensures !op.WriteOp? && !op.ReadOp? ==> s.port.waitingData == p.waitingData
    ensures !op.OpenOp? && !op.CloseOp? ==> s.port.isOpen == p.isOpen && s.port.port == p.port
    ensures op.InWaitingOp? ==> s.port == p && s.reply == Count(|p.waitingData|)
    ensures op.CloseOp? ==> s.reply == Nothing
  {
    match op
    case OpenOp =>
      (match Open(p)
       case Ok(q) => Step(q, Nothing)
       case Err(e) => Step(p, Raised(e)))
    case CloseOp => Step(Close(p), Nothing)
    case WriteOp(data) =>
      (match Write(k, p, data)
       case Ok(q) => Step(q, Nothing)
       case Err(e) => Step(p, Raised(e)))
    case ReadOp(size) =>
      (match Read(k, p, size)
       case Ok((q, out)) => Step(q, Data(out))
       case Err(e) => Step(p, Raised(e)))
    case InWaitingOp => Step(p, Count(InWaiting(p)))
  }

  /** A whole session: the final state and one reply per call. The name/flag
      agreement and the configuration survive any session of the port's own
      calls. */
  function Run(k: Constants, p: Port, ops: seq<Op>): (r: (Port, seq<Reply>))
    ensures |r.1| == |ops|
    ensures SameConfig(p, r.0)
    ensures Valid(p) ==> Valid(r.0)
    ensures (forall i | 0 <= i < |ops| :: !ops[i].WriteOp? && !ops[i].ReadOp?) ==>
              r.0.waitingData == p.waitingData
    decreases |ops|
  {
    if |ops| == 0 then (p, [])
    else
      var s := Apply(k, p, ops[0]);
      var rest := Run(k, s.port, ops[1..]);
      (rest.0, [s.reply] + rest.1)
  }

  /** Closing twice is the same as closing once. */
  lemma CloseIsIdempotent(p: Port)
    ensures Close(Close(p)) == Close(p)
    ensures !Close(Close(p)).isOpen
  {
  }

  /** On a closed port, write and read raise `PortNotOpen` (read does so even
      for a negative size) and the port stays closed. */
  lemma ClosedPortRejectsIo(k: Constants, p: Port, data: bytes, size: int)
    requires !p.isOpen
    ensures Apply(k, p, WriteOp(data)) == Step(p, Raised(PortNotOpen))
    ensures Apply(k, p, ReadOp(size)) == Step(p, Raised(PortNotOpen))
  {
  }

  /** Opening an open port raises and changes nothing. */
  lemma OpenWhileOpenRaises(k: Constants, p: Port)
    requires p.isOpen
    ensures Apply(k, p, OpenOp) == Step(p, Raised(AlreadyOpen))
  {
  }

  /** Close then open gives back the same port, pending buffer included: the
      buffer is not cleared by a close. */
  lemma CloseThenOpenRestores(k: Constants, p: Port)
    requires Valid(p) && p.isOpen
    ensures Run(k, p, [CloseOp, OpenOp]) == (p, [Nothing, Nothing])
  {
    var c := Close(p);
    assert Open(c) == Ok(p);
    assert [OpenOp][1..] == [];
    assert Run(k, p, []) == (p, []);
    assert Apply(k, c, OpenOp) == Step(p, Nothing);
    assert [Nothing] + [] == [Nothing];
    assert Run(k, c, [OpenOp]) == (p, [Nothing]);
    assert [CloseOp, OpenOp][1..] == [OpenOp];
    assert Apply(k, p, CloseOp) == Step(c, Nothing);
    assert [Nothing] + [Nothing] == [Nothing, Nothing];
  }

  /** A write discards whatever was pending: two ports that differ only in
      their buffers are equal after the same write. */
  lemma WriteForgetsPending(k: Constants, p: Port, pending: bytes, data: bytes)
    ensures Apply(k, p, WriteOp(data)) == Apply(k, p.(waitingData := pending), WriteOp(data)) ||
            !p.isOpen
  {
  }

  /** A freshly constructed port satisfies the name/flag agreement, so every
      session started from it does too. */
  lemma SessionsFromInitAreValid(k: Constants, kw: Kwargs, ops: seq<Op>)
    requires kw.port.Some?
    ensures Init(k, kw).Ok?
    ensures Valid(Run(k, Init(k, kw).value, ops).0)
    ensures Run(k, Init(k, kw).value, ops).0.initialPortName == kw.port.value
  {
  }
}
