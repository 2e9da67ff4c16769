/**
 * The earlier four-step ZivComponent: link reset (SNRM), association
 * (AARQ), then reads of the import and export energy registers, each
 * published as read. It shares FrameReceiver, the handlers and
 * communicate() with the six-step component; what differs is the
 * sequencer: the export read always closes the cycle, and closing it
 * neither resets the transient state nor deselects the handler.
 */
module ZivFourStep {
  import opened Wire
  import opened Handlers
  import opened Receiver
  import opened Schedule

  datatype State = Idle | SendBuffers | SendAarq | ReadImport | ReadExport

  datatype Sensor = ImportSensor | ExportSensor

  /** The state nextcomm() is asked for when the current step succeeds. */
  function NextState(s: State): State
  {
    match s
    case SendBuffers => SendAarq
    case SendAarq => ReadImport
    case ReadImport => ReadExport
    case _ => Idle
  }

  /** The sensor a step publishes to, if it is a read step. */
  function SensorOf(s: State): Option<Sensor>
  {
    match s
    case ReadImport => Some(ImportSensor)
    case ReadExport => Some(ExportSensor)
    case _ => None
  }

  /** The OBIS register nextcomm() selects for a read step. */
  function LogicalName(s: State): Option<string>
  {
    match s
    case ReadImport => Some("1.0.1.8.0.255")
    case ReadExport => Some("1.0.2.8.0.255")
    case _ => None
  }

  /** The handler nextcomm() selects; IDLE selects none. */
  function HandlerFor(s: State): Active
  {
    match s
    case Idle => NoHandler
    case SendBuffers => BuffersRR
    case SendAarq => AarqRR
    case _ => CosemRR
  }

  /** What a successful step in state s publishes: the decoded value, unscaled. */
  function Published(s: State, value: int, sensors: set<Sensor>): seq<Publication<Sensor>>
  {
    match SensorOf(s)
    case Some(x) => if x in sensors then [Publication(x, value)] else []
    case None => []
  }

  /**
   * One loop() call as a transition. The export read ends the cycle
   * whatever its result; any other failing step ends it too.
   */
  function Advance(s: State, o: Outcome, value: int, sensors: set<Sensor>): (State, seq<Publication<Sensor>>)
  {
    if s == Idle || o.Pending? then (s, [])
    else if s == ReadExport then (Idle, if o.code == 0 then Published(s, value, sensors) else [])
    else if o.code == 0 then (NextState(s), Published(s, value, sensors))
    else (Idle, [])
  }

  function Step(sensors: set<Sensor>): (State, Observation) -> (State, seq<Publication<Sensor>>)
  {
    (s, o: Observation) => Advance(s, o.outcome, o.value, sensors)
  }

  /** Once READ_EXPORT has a result the cycle is over; only a success is published. */
  lemma ReadExportEndsCycle(code: int, value: int, sensors: set<Sensor>)
    ensures Advance(ReadExport, Done(code), value, sensors).0 == Idle
    ensures Advance(ReadExport, Done(code), value, sensors).1
            == if code == 0 && ExportSensor in sensors then [Publication(ExportSensor, value)] else []
  {
  }

  /** The states of one cycle, in order, from the first step back to Idle. */
  const CYCLE: seq<State> := [SendBuffers, SendAarq, ReadImport, ReadExport, Idle]

  /** What the first k steps of a successful cycle publish. */
  function CyclePublications(values: seq<int>, sensors: set<Sensor>, k: nat): seq<Publication<Sensor>>
    requires k <= |values| && k < |CYCLE|
  {
    if k == 0 then []
    else CyclePublications(values, sensors, k - 1) + Published(CYCLE[k - 1], values[k - 1], sensors)
  }

  /** A cycle in which every step succeeds walks SEND_BUFFERS, SEND_AARQ, the two reads, IDLE. */
  lemma {:induction false} CycleRun(values: seq<int>, sensors: set<Sensor>, k: nat)
    requires k <= |values| && k < |CYCLE|
    ensures Run(Step(sensors), SendBuffers, Successes(values[..k]))
            == (CYCLE[k], CyclePublications(values, sensors, k))
  {
    if k > 0 {
      CycleRun(values, sensors, k - 1);
      var obs := Successes(values[..k]);
      assert obs[..|obs| - 1] == Successes(values[..k - 1]);
      assert obs[|obs| - 1] == Observation(Done(0), values[k - 1]);
      assert CYCLE[k - 1] != ReadExport ==> NextState(CYCLE[k - 1]) == CYCLE[k];
    }
  }

  /**
   * With both sensors configured, a successful cycle ends in IDLE and
   * publishes the two energy registers as read.
   */
  lemma FullCycle(values: seq<int>)
    requires |values| == 4
    ensures Run(Step({ImportSensor, ExportSensor}), SendBuffers, Successes(values))
            == (Idle, [Publication(ImportSensor, values[2]), Publication(ExportSensor, values[3])])
  {
    var sensors := {ImportSensor, ExportSensor};
    CycleRun(values, sensors, 4);
    assert values[..4] == values;
    assert CYCLE[0] == SendBuffers && CYCLE[1] == SendAarq && CYCLE[2] == ReadImport;
    assert CYCLE[3] == ReadExport && CYCLE[4] == Idle;
    assert CyclePublications(values, sensors, 1) == [];
    assert CyclePublications(values, sensors, 2) == [];
    assert CyclePublications(values, sensors, 3) == [] + [Publication(ImportSensor, values[2])];
    assert CyclePublications(values, sensors, 4)
        == [Publication(ImportSensor, values[2])] + [Publication(ExportSensor, values[3])]
        == [Publication(ImportSensor, values[2]), Publication(ExportSensor, values[3])];
  }

  /**
   * A non-zero result in any step, or any result at all of READ_EXPORT, ends
   * the cycle at once: the state becomes IDLE, only a successful export read
   * publishes, and no later step runs.
   */
  lemma CycleEndsAtIdle(sensors: set<Sensor>, s: State, pre: seq<Observation>,
                        code: int, value: int, rest: seq<Observation>)
    requires var at := Run(Step(sensors), s, pre).0;
             at != Idle && (code != 0 || at == ReadExport)
    ensures Run(Step(sensors), s, pre + [Observation(Done(code), value)] + rest)
            == (Idle, Run(Step(sensors), s, pre).1
                      + if code == 0 && ExportSensor in sensors then [Publication(ExportSensor, value)] else [])
  {
    var ending := pre + [Observation(Done(code), value)];
    var at := Run(Step(sensors), s, pre).0;
    RunSnoc(Step(sensors), s, pre, Observation(Done(code), value));
    assert Advance(at, Done(code), value, sensors)
        == (Idle, if code == 0 && ExportSensor in sensors then [Publication(ExportSensor, value)] else []);
    forall o ensures Step(sensors)(Idle, o) == (Idle, []) {
    }
    IdleAbsorbs(Step(sensors), Idle, s, ending, rest);
  }

  class ZivComponent {
    /** The FrameReceiver base of the C++ component. */
    const comm: FrameReceiver
    const buffersRR: RequestResponse
    const aarqRR: RequestResponse
    const cosemRR: RequestResponse
    /** The sensors that were configured (non-null sensor pointers). */
    const sensors: set<Sensor>
    var state: State
    var rr: Active
    /** Every publish_state call, in order. */
    ghost var published: seq<Publication<Sensor>>

    /** The component's objects are in place: valid buffers, one handler of each kind. */
    ghost predicate Wired()
      reads this, comm, comm.rbuf
    {
      comm.Valid() && buffersRR.kind == Buffers && aarqRR.kind == Aarq && cosemRR.kind == Cosem
    }

    /** Between loop() calls: a step in progress has its handler selected and pending. */
    ghost predicate Valid()
      reads this, comm, comm.rbuf, buffersRR, aarqRR, cosemRR
    {
      Wired() && (state != Idle ==> rr == HandlerFor(state) && Handler().result == Pending)
      && (LogicalName(state).Some? ==> cosemRR.logicalName == LogicalName(state).value)
    }

    function Handler(): RequestResponse
      reads this
      requires rr != NoHandler
    {
      if rr == BuffersRR then buffersRR else if rr == AarqRR then aarqRR else cosemRR
    }

    constructor (sensors: set<Sensor>, indeterminateTimeout: int)
      ensures Valid() && fresh(comm) && fresh(comm.rbuf)
      ensures state == Idle && rr == NoHandler && published == [] && this.sensors == sensors
      ensures cosemRR.logicalName == "1.0.1.8.0.255" && cosemRR.value == 0
      ensures buffersRR.result == Pending && aarqRR.result == Pending && cosemRR.result == Pending
      ensures comm.rbuf.Length == INITIAL_CAPACITY && comm.IsReset() && comm.messages == []
      ensures comm.timeout == indeterminateTimeout && comm.written == []
    {
      comm := new FrameReceiver(indeterminateTimeout);
      buffersRR := new RequestResponse(Buffers, "");
      aarqRR := new RequestResponse(Aarq, "");
      cosemRR := new RequestResponse(Cosem, "1.0.1.8.0.255");
      this.sensors := sensors;
      state := Idle;
      rr := NoHandler;
      published := [];
    }

    /** update(): starts a cycle when idle, otherwise changes nothing. */
    method Update(built: seq<Message>, buildRet: int)
      requires Valid()
      modifies this, comm, buffersRR, aarqRR, cosemRR
      ensures Valid()
      ensures old(state) == Idle ==>
                state == SendBuffers && rr == BuffersRR && buffersRR.result == Pending
                && comm.IsReset() && comm.messages == built && published == old(published)
                && comm.rbuf == old(comm.rbuf) && comm.timeout == old(comm.timeout)
                && comm.written == old(comm.written)
                && aarqRR.result == old(aarqRR.result) && cosemRR.result == old(cosemRR.result)
                && cosemRR.value == old(cosemRR.value) && cosemRR.logicalName == old(cosemRR.logicalName)
      ensures old(state) != Idle ==> unchanged(this, comm, buffersRR, aarqRR, cosemRR)
    {
      if state == Idle {
        NextComm(SendBuffers, built, buildRet);
      }
    }

    /** The switch of nextcomm() for a step: point rr_ at its handler and the COSEM handler at its register. */
    method Select(s: State)
      requires cosemRR.kind == Cosem && s != Idle
      modifies this`rr, cosemRR`logicalName
      ensures rr == HandlerFor(s)
      ensures cosemRR.logicalName == match LogicalName(s) case Some(n) => n case None => old(cosemRR.logicalName)
    {
      match s {
        case SendBuffers =>
          rr := BuffersRR;
        case SendAarq =>
          rr := AarqRR;
        case ReadImport =>
          cosemRR.SetLogicalName("1.0.1.8.0.255");
          rr := CosemRR;
        case ReadExport =>
          cosemRR.SetLogicalName("1.0.2.8.0.255");
          rr := CosemRR;
        case Idle =>
          assert false;
      }
    }

    /**
     * nextcomm(): for a step, select its handler (and register), reset the
     * transient state, start the handler and enter the step. Asked for
     * IDLE it returns at once and changes nothing.
     */
    method NextComm(s: State, built: seq<Message>, buildRet: int)
      requires Wired()
      modifies this`state, this`rr, comm, buffersRR`result, aarqRR`result, cosemRR`result,
               cosemRR`logicalName
      ensures Wired()
      ensures s == Idle ==> unchanged(this, comm, buffersRR, aarqRR, cosemRR)
      ensures s != Idle ==>
                Valid() && state == s && rr == HandlerFor(s) && Handler().result == Pending
                && comm.IsReset() && comm.messages == built
      ensures comm.rbuf == old(comm.rbuf) && comm.timeout == old(comm.timeout)
      ensures comm.written == old(comm.written)
      // only the selected handler is restarted
      ensures rr != BuffersRR ==> buffersRR.result == old(buffersRR.result)
      ensures rr != AarqRR ==> aarqRR.result == old(aarqRR.result)
      ensures rr != CosemRR ==> cosemRR.result == old(cosemRR.result)
      ensures cosemRR.logicalName == match LogicalName(s) case Some(n) => n case None => old(cosemRR.logicalName)
    {
      if s == Idle {
        return;
      }
      Select(s);
      comm.ResetComm();
      var queue := Handler().Start(built, buildRet);
      comm.messages := queue;
      state := s;
    }

    /**
     * The second half of loop(), after communicate(): act on the active
     * handler's result. The read steps act only when the COSEM handler is
     * the active one; the export read ends the cycle without nextcomm().
     */
    method Settle(built: seq<Message>, buildRet: int)
      requires Wired() && state != Idle && rr == HandlerFor(state)
      modifies this`state, this`rr, this`published, comm, buffersRR`result, aarqRR`result, cosemRR`result,
               cosemRR`logicalName
      ensures state == Advance(old(state), old(Handler().result), cosemRR.value, sensors).0
      ensures published == old(published) + Advance(old(state), old(Handler().result), cosemRR.value, sensors).1
      ensures old(state) != ReadExport && old(Handler().result).Succeeded() ==>
                Valid() && rr == HandlerFor(state) && comm.IsReset() && comm.messages == built
                && comm.timeout == old(comm.timeout) && comm.written == old(comm.written)
      ensures !(old(state) != ReadExport && old(Handler().result).Succeeded()) ==>
                rr == old(rr) && Handler().result == old(Handler().result) && unchanged(comm)
      ensures Wired() && comm.rbuf == old(comm.rbuf)
      // a handler neither selected before nor after keeps its result
      ensures old(rr) != BuffersRR && rr != BuffersRR ==> buffersRR.result == old(buffersRR.result)
      ensures old(rr) != AarqRR && rr != AarqRR ==> aarqRR.result == old(aarqRR.result)
      ensures old(rr) != CosemRR && rr != CosemRR ==> cosemRR.result == old(cosemRR.result)
      // only nextcomm() retargets the register
      ensures cosemRR.logicalName == (if old(state) != ReadExport && old(Handler().result).Succeeded() then
                                        match LogicalName(state) case Some(n) => n case None => old(cosemRR.logicalName)
                                      else old(cosemRR.logicalName))
    {
      var h := Handler();
      var reading := state == ReadImport || state == ReadExport;
      if (!reading || rr == CosemRR) && h.result.Done? {
        if state == ReadExport {
          if h.result.code == 0 && ExportSensor in sensors {
            published := published + [Publication(ExportSensor, cosemRR.value)];
          }
          state := Idle;
        } else if h.result.code == 0 {
          if state == ReadImport && ImportSensor in sensors {
            published := published + [Publication(ImportSensor, cosemRR.value)];
          }
          NextComm(NextState(state), built, buildRet);
        } else {
          state := Idle;
        }
      }
    }

    /**
     * loop(): one tick. `observed` is the active handler's result after
     * communicate(); `built`/`buildRet` feed the builder of the next step.
     */
    method Loop(tick: Tick, built: seq<Message>, buildRet: int) returns (ghost observed: Outcome)
      requires Valid()
      requires KeepsCursorInside(tick.assemble)
      modifies this, comm, comm.rbuf, buffersRR, aarqRR, cosemRR
      ensures Valid()
      ensures comm.rbuf == old(comm.rbuf) || fresh(comm.rbuf)
      ensures comm.rbuf.Length >= old(comm.rbuf.Length)
      ensures old(rr) != BuffersRR && rr != BuffersRR ==> buffersRR.result == old(buffersRR.result)
      ensures old(rr) != AarqRR && rr != AarqRR ==> aarqRR.result == old(aarqRR.result)
      ensures old(rr) != CosemRR && rr != CosemRR ==> cosemRR.result == old(cosemRR.result)
      ensures cosemRR.logicalName == (if old(state) != ReadExport && observed.Succeeded() then
                                        match LogicalName(state) case Some(n) => n case None => old(cosemRR.logicalName)
                                      else old(cosemRR.logicalName))
      ensures old(state) == Idle ==>
                observed == Pending && unchanged(this, comm, buffersRR, aarqRR, cosemRR)
                && comm.rbuf[..] == old(comm.rbuf[..])
      ensures state == Advance(old(state), observed, cosemRR.value, sensors).0
      ensures published == old(published) + Advance(old(state), observed, cosemRR.value, sensors).1
      ensures old(state) != Idle && old(state) != ReadExport && observed.Succeeded() ==>
                rr == HandlerFor(state) && comm.IsReset() && comm.messages == built
      ensures !(old(state) != ReadExport && observed.Succeeded()) ==> rr == old(rr)
      ensures old(state) != Idle && !observed.Succeeded() ==> Handler().result == observed
      // what communicate() did, as CommStep describes it from the receiver's state before the tick
      ensures old(state) != Idle ==>
                observed == Handed(CommStep(old(comm.Comm()), tick).1, Pending, tick.parseCode)
      ensures old(state) != Idle && !(old(state) != ReadExport && observed.Succeeded()) ==>
                comm.Comm() == CommStep(old(comm.Comm()), tick).0
      ensures old(state) != Idle && old(state) != ReadExport && observed.Succeeded() ==>
                comm.timeout == CommStep(old(comm.Comm()), tick).0.timeout
                && comm.written == CommStep(old(comm.Comm()), tick).0.written
      ensures cosemRR.value == (if old(state) != Idle && old(rr) == CosemRR
                                then Stored(CommStep(old(comm.Comm()), tick).1, old(cosemRR.value), tick)
                                else old(cosemRR.value))
      // ending the cycle (a failure, or any result of the export read) skips resetcomm()
      ensures observed.Failed() || (old(state) == ReadExport && observed.Done?) ==>
                comm.messages == old(comm.messages) && comm.Cursor() == old(comm.Cursor())
    {
      if state == Idle {
        return Pending;
      }
      comm.Communicate(Handler(), tick);
      observed := Handler().result;
      Settle(built, buildRet);
    }
  }
}
