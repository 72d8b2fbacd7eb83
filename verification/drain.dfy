/** Properties of draining the pending buffer over several reads: a run of
    reads whose sizes add up to the staged reply hands the reply back, in
    order and whole; the default response is never drained; and how the
    pending count moves. */
module Draining {
  import opened Base
  import opened SerialConstants
  import opened Serial

  /** The state after a run of reads, the chunks they returned in order, and
      whether any of them slept. */
  datatype Drained = Drained(port: Port, chunks: seq<bytes>, slept: bool)

  /** Perform one read per entry of `sizes`, in order, stopping at the first
      read that raises. */
  function ReadAll(k: Constants, p: Port, sizes: seq<int>): (r: Outcome<Drained>)
    ensures r.Ok? ==> |sizes| == 0 || (p.isOpen && forall i | 0 <= i < |sizes| :: sizes[i] >= 0)
    ensures (p.timeout >= 0.0 && (|sizes| == 0 || (p.isOpen && forall i | 0 <= i < |sizes| :: sizes[i] >= 0)))
              ==> r.Ok?
    ensures r.Err? && !p.isOpen ==> r.error == PortNotOpen
    ensures r.Err? && p.isOpen ==> r.error == NegativeSize || r.error == NegativeTimeout
    ensures r.Err? && (forall i | 0 <= i < |sizes| :: sizes[i] >= 0) ==>
              r.error == PortNotOpen || r.error == NegativeTimeout
    ensures r.Ok? ==> |r.value.chunks| == |sizes|
    ensures r.Ok? ==> r.value.port == p.(waitingData := r.value.port.waitingData)
    decreases |sizes|
  {
    if |sizes| == 0 then Ok(Drained(p, [], false))
    else
      match Read(k, p, sizes[0])
      case Err(e) => Err(e)
      case Ok((q, out)) =>
        match ReadAll(k, q, sizes[1..])
        case Err(e) => Err(e)
        case Ok(d) => Ok(Drained(d.port, [out.data] + d.chunks, out.sleptFor.Some? || d.slept))
  }

  /** The buffer each read of the run faces is not the default response: the
      whole buffer before the first read, and after that only the remainders
      the reads of `sizes` leave behind. */
  predicate NoSentinelAtSplits(k: Constants, buf: bytes, sizes: seq<nat>)
    decreases |sizes|
  {
    || |sizes| == 0
    || (&& buf != k.defaultResponse
        && (sizes[0] <= |buf| ==> NoSentinelAtSplits(k, buf[sizes[0]..], sizes[1..])))
  }

  lemma {:induction false} SumAtLeastLast(xs: seq<nat>)
    requires |xs| > 0
    ensures Sum(xs) >= xs[|xs| - 1]
    decreases |xs|
  {
    if |xs| > 1 {
      SumAtLeastLast(xs[1..]);
    }
  }

  /** The drain property. Reads whose sizes add up to the pending length, the
      last of them non-zero (so every earlier read leaves something behind),
      return chunks that concatenate to exactly the pending buffer; none of
      them sleeps, and when there was at least one read the buffer ends as the
      "no data" marker. */
  lemma {:induction false} DrainReturnsBuffer(k: Constants, p: Port, sizes: seq<nat>)
    requires p.isOpen
    requires Sum(sizes) == |p.waitingData|
    requires |sizes| > 0 ==> sizes[|sizes| - 1] > 0
    requires NoSentinelAtSplits(k, p.waitingData, sizes)
    ensures ReadAll(k, p, sizes).Ok?
    ensures Concat(ReadAll(k, p, sizes).value.chunks) == p.waitingData
    ensures !ReadAll(k, p, sizes).value.slept
    ensures |sizes| > 0 ==> ReadAll(k, p, sizes).value.port.waitingData == k.noDataPresent
    decreases |sizes|
  {
    if |sizes| > 0 {
      var b := p.waitingData;
      var s := sizes[0];
      if |sizes| == 1 {
        assert Sum(sizes[1..]) == 0;
        assert s == |b|;
      } else {
        var rest := sizes[1..];
        SumAtLeastLast(rest);
        assert rest[|rest| - 1] == sizes[|sizes| - 1];
        assert s < |b|;
        var q := p.(waitingData := b[s..]);
        assert Read(k, p, s) == Ok((q, ReadOutput(b[..s], None)));
        DrainReturnsBuffer(k, q, rest);
        assert b[..s] + b[s..] == b;
      }
    }
  }

  /** Writing a payload whose configured reply `R` is not the default
      response at any point where the reads split it, then reading it in
      sizes that add up to `|R|` (the last non-zero), hands back exactly `R`. */
  lemma {:induction false} WriteThenDrain(k: Constants, p: Port, data: bytes, sizes: seq<nat>)
    requires p.isOpen && data in p.responses
    requires Sum(sizes) == |p.responses[data]|
    requires |sizes| > 0 ==> sizes[|sizes| - 1] > 0
    requires NoSentinelAtSplits(k, p.responses[data], sizes)
    ensures Write(k, p, data).Ok?
    ensures ReadAll(k, Write(k, p, data).value, sizes).Ok?
    ensures Concat(ReadAll(k, Write(k, p, data).value, sizes).value.chunks) == p.responses[data]
  {
    DrainReturnsBuffer(k, Write(k, p, data).value, sizes);
  }

  /** The default response is atomic: any run of non-negative reads on a
      port holding it returns it every time and leaves the port as it was. */
  lemma {:induction false} SentinelReadsAreIdempotent(k: Constants, p: Port, sizes: seq<nat>)
    requires p.isOpen && p.waitingData == k.defaultResponse
    ensures ReadAll(k, p, sizes).Ok?
    ensures ReadAll(k, p, sizes).value.port == p
    ensures forall i | 0 <= i < |sizes| :: ReadAll(k, p, sizes).value.chunks[i] == k.defaultResponse
    ensures !ReadAll(k, p, sizes).value.slept
    decreases |sizes|
  {
    if |sizes| > 0 {
      SentinelReadsAreIdempotent(k, p, sizes[1..]);
      var d := ReadAll(k, p, sizes[1..]).value;
      assert ReadAll(k, p, sizes).value.chunks == [k.defaultResponse] + d.chunks;
    }
  }

  /** Every read size returns the whole buffer exactly when the buffer is
      the default response, or is empty and the timeout is not negative. */
  lemma WholeForEverySize(k: Constants, p: Port)
    requires p.isOpen
    ensures (forall n: nat :: Read(k, p, n).Ok? && Read(k, p, n).value.1.data == p.waitingData)
            <==> (p.waitingData == k.defaultResponse || (|p.waitingData| == 0 && p.timeout >= 0.0))
  {
    if forall n: nat :: Read(k, p, n).Ok? && Read(k, p, n).value.1.data == p.waitingData {
      if p.waitingData != k.defaultResponse {
        assert Read(k, p, 0).value.1.data == p.waitingData;
        assert Read(k, p, 1).Ok?;
      }
    }
  }

  /** A port holding the "no data" marker keeps handing it back whole, for
      every run of non-negative reads, when the marker is the default response
      or when it is empty (then a read of 0 is an exact read and any larger
      read sleeps, both leaving the empty marker in place). */
  lemma {:induction false} NoDataReadsAreIdempotent(k: Constants, p: Port, sizes: seq<nat>)
    requires p.isOpen && p.waitingData == k.noDataPresent
    requires k.noDataPresent == k.defaultResponse || (|k.noDataPresent| == 0 && p.timeout >= 0.0)
    ensures ReadAll(k, p, sizes).Ok?
    ensures ReadAll(k, p, sizes).value.port == p
    ensures forall i | 0 <= i < |sizes| :: ReadAll(k, p, sizes).value.chunks[i] == k.noDataPresent
    decreases |sizes|
  {
    if |sizes| > 0 {
      assert Read(k, p, sizes[0]).value == (p, Read(k, p, sizes[0]).value.1);
      NoDataReadsAreIdempotent(k, p, sizes[1..]);
      var d := ReadAll(k, p, sizes[1..]).value;
      assert ReadAll(k, p, sizes).value.chunks == [Read(k, p, sizes[0]).value.1.data] + d.chunks;
    }
  }

  /** A payload with no configured reply stages the "no data" marker. Every
      later run of non-negative reads returns the marker whole and leaves the
      port unchanged exactly when the marker is the default response, or is
      empty and the timeout is not negative. In every other case a single
      read already does something else: with a non-empty marker a read of 0
      returns the empty string and leaves the port as it was, and with an
      empty one a read of 1 raises. */
  lemma {:induction false} UnknownPayloadReadsNoData(k: Constants, p: Port, data: bytes, sizes: seq<nat>)
    requires p.isOpen && data !in p.responses
    ensures Write(k, p, data).Ok?
    ensures var q := Write(k, p, data).value;
            (k.noDataPresent == k.defaultResponse || (|k.noDataPresent| == 0 && p.timeout >= 0.0)) ==>
              && ReadAll(k, q, sizes).Ok?
              && ReadAll(k, q, sizes).value.port == q
              && forall i | 0 <= i < |sizes| :: ReadAll(k, q, sizes).value.chunks[i] == k.noDataPresent
    ensures var q := Write(k, p, data).value;
            k.noDataPresent != k.defaultResponse && |k.noDataPresent| > 0 ==>
              Read(k, q, 0) == Ok((q, ReadOutput([], None)))
    ensures var q := Write(k, p, data).value;
            k.noDataPresent != k.defaultResponse && |k.noDataPresent| == 0 && p.timeout < 0.0 ==>
              Read(k, q, 1) == Err(NegativeTimeout)
  {
    var q := Write(k, p, data).value;
    assert k.noDataPresent[0..] == k.noDataPresent;
    if k.noDataPresent == k.defaultResponse || (|k.noDataPresent| == 0 && p.timeout >= 0.0) {
      NoDataReadsAreIdempotent(k, q, sizes);
    }
  }

  /** A partial read lowers the pending count by exactly the size read. */
  lemma PartialReadLowersInWaiting(k: Constants, p: Port, size: nat)
    requires p.isOpen && p.waitingData != k.defaultResponse
    requires size < InWaiting(p)
    ensures Read(k, p, size).Ok?
    ensures InWaiting(Read(k, p, size).value.0) == InWaiting(p) - size
  {
  }

  /** A read never adds to the pending count, except that a read taking the
      whole buffer puts the "no data" marker there, which may be longer. */
  lemma ReadGrowsOnlyByReset(k: Constants, p: Port, size: int)
    requires Read(k, p, size).Ok?
    ensures var q := Read(k, p, size).value.0;
            InWaiting(q) <= InWaiting(p) || q.waitingData == k.noDataPresent
    ensures |k.noDataPresent| == 0 ==> InWaiting(Read(k, p, size).value.0) <= InWaiting(p)
  {
  }

  /** A full drain followed by a read larger than the "no data" marker (when
      the marker is not the default response) sleeps for the timeout and
      hands the marker back, or raises when the timeout is negative. */
  lemma {:induction false} ReadPastDrainSleeps(k: Constants, p: Port, sizes: seq<nat>, n: nat)
    requires p.isOpen
    requires Sum(sizes) == |p.waitingData| && |sizes| > 0 && sizes[|sizes| - 1] > 0
    requires NoSentinelAtSplits(k, p.waitingData, sizes)
    requires k.noDataPresent != k.defaultResponse && n > |k.noDataPresent|
    ensures ReadAll(k, p, sizes).Ok?
    ensures var q := ReadAll(k, p, sizes).value.port;
            && (p.timeout >= 0.0 ==>
                  && Read(k, q, n).Ok?
                  && Read(k, q, n).value.1 == ReadOutput(k.noDataPresent, Some(p.timeout)))
            && (p.timeout < 0.0 ==> Read(k, q, n) == Err(NegativeTimeout))
  {
    DrainReturnsBuffer(k, p, sizes);
  }

  /** The worked exchange: with `PING` answered by `PONG`, writing `PING`
      then reading two bytes twice yields `PO` then `NG`, leaving two bytes
      pending in between and the "no data" marker at the end. */
  lemma PingPong(k: Constants, p: Port)
    requires p.isOpen
    requires p.responses == map[[80, 73, 78, 71] := [80, 79, 78, 71]]
    requires k.defaultResponse != [80, 79, 78, 71] && k.defaultResponse != [78, 71]
    ensures var w := Write(k, p, [80, 73, 78, 71]);
            && w.Ok?
            && Read(k, w.value, 2).Ok?
            && Read(k, w.value, 2).value.1.data == [80, 79]
            && InWaiting(Read(k, w.value, 2).value.0) == 2
            && Read(k, Read(k, w.value, 2).value.0, 2).Ok?
            && Read(k, Read(k, w.value, 2).value.0, 2).value.1.data == [78, 71]
            && Read(k, Read(k, w.value, 2).value.0, 2).value.0.waitingData == k.noDataPresent
  {
    var pong: bytes := [80, 79, 78, 71];
    assert pong[..2] == [80, 79] && pong[2..] == [78, 71];
  }
}
