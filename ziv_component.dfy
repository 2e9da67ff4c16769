/**
 * The six-step ZivComponent: link reset (SNRM), association (AARQ), then
 * reads of import/export energy and import/export power, publishing each
 * read to its sensor (power scaled by 10, the meter reports decawatts).
 */
module Ziv {
  import opened Wire
  import opened Handlers
  import opened Receiver
  import opened Schedule

  datatype State =
    | Idle
    | SendBuffers
    | SendAarq
    | ReadImportEnergy
    | ReadExportEnergy
    | ReadImportPower
    | ReadExportPower

  datatype Sensor = ImportEnergy | ExportEnergy | ImportPower | ExportPower

  /** The state loop() moves to when the current step succeeds. */
  function NextState(s: State): State
  {
    match s
    case Idle => Idle
    case SendBuffers => SendAarq
    case SendAarq => ReadImportEnergy
    case ReadImportEnergy => ReadExportEnergy
    case ReadExportEnergy => ReadImportPower
    case ReadImportPower => ReadExportPower
    case ReadExportPower => Idle
  }

  /** The sensor a step publishes to, if it is a read step. */
  function SensorOf(s: State): Option<Sensor>
  {
    match s
    case ReadImportEnergy => Some(ImportEnergy)
    case ReadExportEnergy => Some(ExportEnergy)
    case ReadImportPower => Some(ImportPower)
    case ReadExportPower => Some(ExportPower)
    case _ => None
  }

  /** Wh for energy; power registers count decawatts. */
  function Scale(s: State): nat
  {
    match s
    case ReadImportPower => 10
    case ReadExportPower => 10
    case _ => 1
  }

  /** The OBIS register nextcomm() selects for a read step. */
  function LogicalName(s: State): Option<string>
  {
    match s
    case ReadImportEnergy => Some("1.0.1.8.0.255")
    case ReadExportEnergy => Some("1.0.2.8.0.255")
    case ReadImportPower => Some("1.0.1.7.0.255")
    case ReadExportPower => Some("1.0.2.7.0.255")
    case _ => None
  }

  /** The handler nextcomm() selects. */
  function HandlerFor(s: State): Active
  {
    match s
    case Idle => NoHandler
    case SendBuffers => BuffersRR
    case SendAarq => AarqRR
    case _ => CosemRR
  }

  /** What a successful step in state s publishes, given the decoded value. */
  function Published(s: State, value: int, sensors: set<Sensor>): seq<Publication<Sensor>>
  {
    match SensorOf(s)
    case Some(x) => if x in sensors then [Publication(x, value * Scale(s))] else []
    case None => []
  }

  /**
   * One loop() call as a transition: the state after it and what it
   * publishes, given the result the active handler holds after communicate().
   */
  function Advance(s: State, o: Outcome, value: int, sensors: set<Sensor>): (State, seq<Publication<Sensor>>)
  {
    if s == Idle || o.Pending? then (s, [])
    else if o.code == 0 then (NextState(s), Published(s, value, sensors))
    else (Idle, [])
  }

  function Step(sensors: set<Sensor>): (State, Observation) -> (State, seq<Publication<Sensor>>)
  {
    (s, o: Observation) => Advance(s, o.outcome, o.value, sensors)
  }

  /** The states of one cycle, in order, from the first step back to Idle. */
  const CYCLE: seq<State> :=
    [SendBuffers, SendAarq, ReadImportEnergy, ReadExportEnergy, ReadImportPower, ReadExportPower, Idle]

  /** What the first k steps of a successful cycle publish. */
  function CyclePublications(values: seq<int>, sensors: set<Sensor>, k: nat): seq<Publication<Sensor>>
    requires k <= |values| && k < |CYCLE|
  {
    if k == 0 then []
    else CyclePublications(values, sensors, k - 1) + Published(CYCLE[k - 1], values[k - 1], sensors)
  }

  /**
   * A cycle in which every step succeeds walks the states in the fixed order
   * SEND_BUFFERS, SEND_AARQ, the four reads, IDLE, one state per loop() that
   * sees a result, publishing only after read steps.
   */
  lemma {:induction false} CycleRun(values: seq<int>, sensors: set<Sensor>, k: nat)
    requires k <= |values| && k < |CYCLE|
    ensures Run(Step(sensors), SendBuffers, Successes(values[..k]))
            == (CYCLE[k], CyclePublications(values, sensors, k))
  {
    if k > 0 {
      CycleRun(values, sensors, k - 1);
      var obs := Successes(values[..k]);
      assert obs[..|obs| - 1] == Successes(values[..k - 1]);
      assert obs[|obs| - 1] == Observation(Done(0), values[k - 1]);
      assert NextState(CYCLE[k - 1]) == CYCLE[k];
    }
  }

  /** A successful cycle publishes once per read step, in read order. */
  lemma CyclePublishesReads(values: seq<int>, sensors: set<Sensor>)
    requires |values| == 6
    ensures CyclePublications(values, sensors, 6)
            == Published(ReadImportEnergy, values[2], sensors) + Published(ReadExportEnergy, values[3], sensors)
               + Published(ReadImportPower, values[4], sensors) + Published(ReadExportPower, values[5], sensors)
  {
    assert CYCLE[0] == SendBuffers && CYCLE[1] == SendAarq;
    assert CyclePublications(values, sensors, 1) == [];
    assert CyclePublications(values, sensors, 2) == [];
    assert CYCLE[2] == ReadImportEnergy && CYCLE[3] == ReadExportEnergy;
    assert CYCLE[4] == ReadImportPower && CYCLE[5] == ReadExportPower;
    assert CyclePublications(values, sensors, 3) == [] + Published(ReadImportEnergy, values[2], sensors);
    assert CyclePublications(values, sensors, 4)
        == CyclePublications(values, sensors, 3) + Published(ReadExportEnergy, values[3], sensors);
    assert CyclePublications(values, sensors, 5)
        == CyclePublications(values, sensors, 4) + Published(ReadImportPower, values[4], sensors);
  }

  /**
   * With all four sensors configured, a successful cycle ends in IDLE and
   * publishes exactly four values: energies as read, powers times 10.
   */
  lemma FullCycle(values: seq<int>)
    requires |values| == 6
    ensures Run(Step({ImportEnergy, ExportEnergy, ImportPower, ExportPower}), SendBuffers, Successes(values))
            == (Idle, [Publication(ImportEnergy, values[2]), Publication(ExportEnergy, values[3]),
                       Publication(ImportPower, values[4] * 10), Publication(ExportPower, values[5] * 10)])
  {
    var sensors := {ImportEnergy, ExportEnergy, ImportPower, ExportPower};
    CycleRun(values, sensors, 6);
    assert values[..6] == values;
    assert CYCLE[6] == Idle;
    CyclePublishesReads(values, sensors);
    assert Published(ReadImportEnergy, values[2], sensors) == [Publication(ImportEnergy, values[2])];
    assert Published(ReadExportEnergy, values[3], sensors) == [Publication(ExportEnergy, values[3])];
    assert Published(ReadImportPower, values[4], sensors) == [Publication(ImportPower, values[4] * 10)];
    assert Published(ReadExportPower, values[5], sensors) == [Publication(ExportPower, values[5] * 10)];
    assert Run(Step(sensors), SendBuffers, Successes(values)).0 == Idle;
    assert Run(Step(sensors), SendBuffers, Successes(values)).1
        == [Publication(ImportEnergy, values[2])] + [Publication(ExportEnergy, values[3])]
           + [Publication(ImportPower, values[4] * 10)] + [Publication(ExportPower, values[5] * 10)]
        == [Publication(ImportEnergy, values[2]), Publication(ExportEnergy, values[3]),
            Publication(ImportPower, values[4] * 10), Publication(ExportPower, values[5] * 10)];
  }

  /**
   * A non-zero result in any step ends the cycle at once: the state becomes
   * IDLE, the failed step publishes nothing, and no later step runs.
   */
  lemma FailureEndsCycle(sensors: set<Sensor>, s: State, pre: seq<Observation>,
                         code: int, value: int, rest: seq<Observation>)
    requires Run(Step(sensors), s, pre).0 != Idle
    requires code != 0
    ensures Run(Step(sensors), s, pre + [Observation(Done(code), value)] + rest)
            == (Idle, Run(Step(sensors), s, pre).1)
  {
    var failing := pre + [Observation(Done(code), value)];
    RunSnoc(Step(sensors), s, pre, Observation(Done(code), value));
    assert Run(Step(sensors), s, pre).1 + [] == Run(Step(sensors), s, pre).1;
    forall o ensures Step(sensors)(Idle, o) == (Idle, []) {
    }
    IdleAbsorbs(Step(sensors), Idle, s, failing, rest);
  }

  class ZivComponent {
    /** The FrameReceiver base of the C++ component. */
    const comm: FrameReceiver
    const buffersRR: RequestResponse
    const aarqRR: RequestResponse
    const cosemRR: RequestResponse
    /** The sensors that were configured (non-null sensor pointers). */
    const sensors: set<Sensor>
    var state: State
    var rr: Active
    /** Every publish_state call, in order. */
    ghost var published: seq<Publication<Sensor>>

    /** The component's objects are in place: valid buffers, one handler of each kind. */
    ghost predicate Wired()
      reads this, comm, comm.rbuf
    {
      comm.Valid() && buffersRR.kind == Buffers && aarqRR.kind == Aarq && cosemRR.kind == Cosem
    }

    /** Between loop() calls: a step in progress has its handler selected and pending. */
    ghost predicate Valid()
      reads this, comm, comm.rbuf, buffersRR, aarqRR, cosemRR
    {
      Wired() && (state != Idle ==> rr == HandlerFor(state) && Handler().result == Pending)
      && (LogicalName(state).Some? ==> cosemRR.logicalName == LogicalName(state).value)
    }

    function Handler(): RequestResponse
      reads this
      requires rr != NoHandler
    {
      if rr == BuffersRR then buffersRR else if rr == AarqRR then aarqRR else cosemRR
    }

    constructor (sensors: set<Sensor>, indeterminateTimeout: int)
      ensures Valid() && fresh(comm) && fresh(comm.rbuf)
      ensures state == Idle && rr == NoHandler && published == [] && this.sensors == sensors
      ensures cosemRR.logicalName == "1.0.1.8.0.255" && cosemRR.value == 0
      ensures buffersRR.result == Pending && aarqRR.result == Pending && cosemRR.result == Pending
      ensures comm.rbuf.Length == INITIAL_CAPACITY && comm.IsReset() && comm.messages == []
      ensures comm.timeout == indeterminateTimeout && comm.written == []
    {
      comm := new FrameReceiver(indeterminateTimeout);
      buffersRR := new RequestResponse(Buffers, "");
      aarqRR := new RequestResponse(Aarq, "");
      cosemRR := new RequestResponse(Cosem, "1.0.1.8.0.255");
      this.sensors := sensors;
      state := Idle;
      rr := NoHandler;
      published := [];
    }

    /** update(): starts a cycle when idle, otherwise changes nothing. */
    method Update(built: seq<Message>, buildRet: int)
      requires Valid()
      modifies this, comm, buffersRR, aarqRR, cosemRR
      ensures Valid()
      ensures old(state) == Idle ==>
                state == SendBuffers && rr == BuffersRR && buffersRR.result == Pending
                && comm.IsReset() && comm.messages == built && published == old(published)
                && comm.rbuf == old(comm.rbuf) && comm.timeout == old(comm.timeout)
                && comm.written == old(comm.written)
                && aarqRR.result == old(aarqRR.result) && cosemRR.result == old(cosemRR.result)
                && cosemRR.value == old(cosemRR.value) && cosemRR.logicalName == old(cosemRR.logicalName)
      ensures old(state) != Idle ==> unchanged(this, comm, buffersRR, aarqRR, cosemRR)
    {
      if state == Idle {
        NextComm(SendBuffers, built, buildRet);
      }
    }

    /** The switch of nextcomm(): point rr_ at s's handler and the COSEM handler at s's register. */
    method Select(s: State)
      requires cosemRR.kind == Cosem
      modifies this`rr, cosemRR`logicalName
      ensures rr == HandlerFor(s)
      ensures cosemRR.logicalName == match LogicalName(s) case Some(n) => n case None => old(cosemRR.logicalName)
    {
      match s {
        case SendBuffers =>
          rr := BuffersRR;
        case SendAarq =>
          rr := AarqRR;
        case ReadImportEnergy =>
          cosemRR.SetLogicalName("1.0.1.8.0.255");
          rr := CosemRR;
        case ReadExportEnergy =>
          cosemRR.SetLogicalName("1.0.2.8.0.255");
          rr := CosemRR;
        case ReadImportPower =>
          cosemRR.SetLogicalName("1.0.1.7.0.255");
          rr := CosemRR;
        case ReadExportPower =>
          cosemRR.SetLogicalName("1.0.2.7.0.255");
          rr := CosemRR;
        case Idle =>
          rr := NoHandler;
      }
    }

    /**
     * nextcomm(): select the handler (and register) for s, reset the
     * transient state, start the handler when there is one, enter s.
     * `built` and `buildRet` are what the codec's builder returns.
     */
    method NextComm(s: State, built: seq<Message>, buildRet: int)
      requires Wired()
      modifies this`state, this`rr, comm, buffersRR`result, aarqRR`result, cosemRR`result,
               cosemRR`logicalName
      ensures Valid()
      ensures state == s && rr == HandlerFor(s)
      ensures s != Idle ==> Handler().result == Pending
      ensures comm.IsReset() && comm.messages == (if s == Idle then [] else built)
      ensures comm.rbuf == old(comm.rbuf) && comm.timeout == old(comm.timeout)
      ensures comm.written == old(comm.written)
      // only the selected handler is restarted
      ensures rr != BuffersRR ==> buffersRR.result == old(buffersRR.result)
      ensures rr != AarqRR ==> aarqRR.result == old(aarqRR.result)
      ensures rr != CosemRR ==> cosemRR.result == old(cosemRR.result)
      ensures cosemRR.logicalName == match LogicalName(s) case Some(n) => n case None => old(cosemRR.logicalName)
    {
      Select(s);
      comm.ResetComm();
      if rr != NoHandler {
        var queue := Handler().Start(built, buildRet);
        comm.messages := queue;
      }
      state := s;
    }

    /**
     * The second half of loop(), after communicate(): act on the active
     * handler's result. `next`, `sensor` and `scale` are what loop() chose
     * for the current state before calling communicate().
     */
    method Settle(next: State, sensor: Option<Sensor>, scale: nat, built: seq<Message>, buildRet: int)
      requires Wired() && state != Idle && rr == HandlerFor(state)
      requires next == NextState(state) && sensor == SensorOf(state) && scale == Scale(state)
      modifies this`state, this`rr, this`published, comm, buffersRR`result, aarqRR`result, cosemRR`result,
               cosemRR`logicalName
      ensures state == Advance(old(state), old(Handler().result), cosemRR.value, sensors).0
      ensures published == old(published) + Advance(old(state), old(Handler().result), cosemRR.value, sensors).1
      ensures old(Handler().result).Succeeded() ==>
                Valid() && rr == HandlerFor(state) && comm.IsReset()
                && comm.messages == (if state == Idle then [] else built)
                && comm.timeout == old(comm.timeout) && comm.written == old(comm.written)
      ensures !old(Handler().result).Succeeded() ==>
                rr == old(rr) && Handler().result == old(Handler().result) && unchanged(comm)
      ensures Wired() && comm.rbuf == old(comm.rbuf)
      // a handler neither selected before nor after keeps its result
      ensures old(rr) != BuffersRR && rr != BuffersRR ==> buffersRR.result == old(buffersRR.result)
      ensures old(rr) != AarqRR && rr != AarqRR ==> aarqRR.result == old(aarqRR.result)
      ensures old(rr) != CosemRR && rr != CosemRR ==> cosemRR.result == old(cosemRR.result)
      // only nextcomm() retargets the register
      ensures cosemRR.logicalName == (if old(Handler().result).Succeeded() then
                                        match LogicalName(state) case Some(n) => n case None => old(cosemRR.logicalName)
                                      else old(cosemRR.logicalName))
    {
      var h := Handler();
      if h.result.Done? {
        if h.result.code == 0 {
          if sensor.Some? && sensor.value in sensors {
            published := published + [Publication(sensor.value, cosemRR.value * scale)];
          }
          NextComm(next, built, buildRet);
        } else {
          state := Idle;
        }
      }
    }

    /**
     * loop(): one tick. `observed` is the active handler's result after
     * communicate(); `built`/`buildRet` feed the builder of the next step.
     */
    method Loop(tick: Tick, built: seq<Message>, buildRet: int) returns (ghost observed: Outcome)
      requires Valid()
      requires KeepsCursorInside(tick.assemble)
      modifies this, comm, comm.rbuf, buffersRR, aarqRR, cosemRR
      ensures Valid()
      ensures comm.rbuf == old(comm.rbuf) || fresh(comm.rbuf)
      ensures comm.rbuf.Length >= old(comm.rbuf.Length)
      ensures old(rr) != BuffersRR && rr != BuffersRR ==> buffersRR.result == old(buffersRR.result)
      ensures old(rr) != AarqRR && rr != AarqRR ==> aarqRR.result == old(aarqRR.result)
      ensures old(rr) != CosemRR && rr != CosemRR ==> cosemRR.result == old(cosemRR.result)
      ensures cosemRR.logicalName == (if observed.Succeeded() then
                                        match LogicalName(state) case Some(n) => n case None => old(cosemRR.logicalName)
                                      else old(cosemRR.logicalName))
      ensures old(state) == Idle ==>
                observed == Pending && unchanged(this, comm, buffersRR, aarqRR, cosemRR)
                && comm.rbuf[..] == old(comm.rbuf[..])
      ensures state == Advance(old(state), observed, cosemRR.value, sensors).0
      ensures published == old(published) + Advance(old(state), observed, cosemRR.value, sensors).1
      ensures observed.Succeeded() ==>
                rr == HandlerFor(state) && comm.IsReset()
                && comm.messages == (if state == Idle then [] else built)
      ensures !observed.Succeeded() ==> rr == old(rr)
      ensures old(state) != Idle && !observed.Succeeded() ==> Handler().result == observed
      // what communicate() did, as CommStep describes it from the receiver's state before the tick
      ensures old(state) != Idle ==>
                observed == Handed(CommStep(old(comm.Comm()), tick).1, Pending, tick.parseCode)
      ensures old(state) != Idle && !observed.Succeeded() ==> comm.Comm() == CommStep(old(comm.Comm()), tick).0
      ensures old(state) != Idle && observed.Succeeded() ==>
                comm.timeout == CommStep(old(comm.Comm()), tick).0.timeout
                && comm.written == CommStep(old(comm.Comm()), tick).0.written
      ensures cosemRR.value == (if old(state) != Idle && old(rr) == CosemRR
                                then Stored(CommStep(old(comm.Comm()), tick).1, old(cosemRR.value), tick)
                                else old(cosemRR.value))
      // a failure goes to IDLE without resetcomm(): the queue and cursor stay
      ensures observed.Failed() ==> comm.messages == old(comm.messages) && comm.Cursor() == old(comm.Cursor())
    {
      var next := NextState(state);
      var sensor := SensorOf(state);
      var scale := Scale(state);
      if state == Idle {
        return Pending;
      }
      comm.Communicate(Handler(), tick);
      observed := Handler().result;
      Settle(next, sensor, scale, built, buildRet);
    }
  }
}
