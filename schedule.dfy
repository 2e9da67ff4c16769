/**
 * What the sequencer does over several loop() calls: a fold of the per-tick
 * transition of either component over the results its handler reported.
 */
module Schedule {
  import opened Handlers

  /**
   * One loop() call as the sequencer sees it: the active handler's result
   * after communicate(), and the value the COSEM handler holds at that point.
   */
  datatype Observation = Observation(outcome: Outcome, value: int)

  /** One publish_state call: which sensor, and the (scaled) integer it receives. */
  datatype Publication<Sensor> = Publication(sensor: Sensor, value: int)

  /** Every step succeeds, the COSEM handler holding values[i] after step i. */
  function Successes(values: seq<int>): seq<Observation>
  {
    seq(|values|, i requires 0 <= i < |values| => Observation(Done(0), values[i]))
  }

  /** Consecutive loop() calls with no update() in between, from state s. */
  function Run<S, P>(advance: (S, Observation) -> (S, seq<P>), s: S, obs: seq<Observation>): (S, seq<P>)
  {
    if obs == [] then (s, [])
    else
      var before := Run(advance, s, obs[..|obs| - 1]);
      var last := advance(before.0, obs[|obs| - 1]);
      (last.0, before.1 + last.1)
  }

  lemma RunSnoc<S, P>(advance: (S, Observation) -> (S, seq<P>), s: S, obs: seq<Observation>, o: Observation)
    ensures var before := Run(advance, s, obs);
            Run(advance, s, obs + [o]) == (advance(before.0, o).0, before.1 + advance(before.0, o).1)
  {
    assert (obs + [o])[..|obs + [o]| - 1] == obs;
  }

  /**
   * Once the sequencer is idle and nothing calls update(), every later
   * loop() leaves it idle and publishes nothing.
   */
  lemma {:induction false} IdleAbsorbs<S, P>(advance: (S, Observation) -> (S, seq<P>), idle: S,
                                      s: S, pre: seq<Observation>, rest: seq<Observation>)
    requires forall o :: advance(idle, o) == (idle, [])
    requires Run(advance, s, pre).0 == idle
    ensures Run(advance, s, pre + rest) == Run(advance, s, pre)
    decreases |rest|
  {
    if rest != [] {
      var init := rest[..|rest| - 1];
      var o := rest[|rest| - 1];
      IdleAbsorbs(advance, idle, s, pre, init);
      assert pre + rest == (pre + init) + [o];
      RunSnoc(advance, s, pre + init, o);
      assert advance(idle, o) == (idle, []);
      assert Run(advance, s, pre).1 + [] == Run(advance, s, pre).1;
    } else {
      assert pre + rest == pre;
    }
  }
}
