/** The protocol instantiated at the two results the crate actually sends. */
module ForkedReduction {
  import opened Wrappers
  import opened Payload
  import opened Fork
  import opened ForkVerdict
  import ForkResult
  import opened Cnf

  function Channel(closure: Closure<ForkResult.ArjunResult>, capacity: nat,
                   killDeadline: nat): Config<ForkResult.ArjunResult> {
    Config(closure, ForkResult.Encode, ForkResult.Decode, capacity, killDeadline)
  }

  /** The unweighted codec is one the protocol may trust, even when the exit status is gone. */
  lemma ChannelIsGood(closure: Closure<ForkResult.ArjunResult>, capacity: nat, killDeadline: nat)
    requires closure.Returns? && closure.result.Some? ==> ForkResult.Sendable(closure.result.value)
    ensures GoodCodec(Channel(closure, capacity, killDeadline))
  {
    ForkResult.DecodeStable();
    if closure.Returns? && closure.result.Some? { ForkResult.DecodeInverts(closure.result.value); }
  }

  /** A completed weighted reduction decodes to what was sent, and no strict prefix of it decodes. */
  lemma WeightedPrefixFree(r: ForkResult.ArjunWeightedResult, prefix: Bytes)
    requires ForkResult.SendableWeighted(r)
    requires prefix < ForkResult.EncodeWeighted(r)
    ensures ForkResult.DecodeWeighted(ForkResult.EncodeWeighted(r)) == Some((r, []))
    ensures ForkResult.DecodeWeighted(prefix) == None
  {
    ForkResult.DecodeWeightedStable();
    ForkResult.DecodeWeightedInverts(r);
    var code := ForkResult.EncodeWeighted(r);
    assert code + [] == code;
    assert InvertsAt(ForkResult.DecodeWeighted, code, r, []);
    PrefixFree(ForkResult.DecodeWeighted, code, r, prefix);
  }

  /** The same for the unweighted result. */
  lemma ResultPrefixFree(r: ForkResult.ArjunResult, prefix: Bytes)
    requires ForkResult.Sendable(r)
    requires prefix < ForkResult.Encode(r)
    ensures ForkResult.Decode(ForkResult.Encode(r)) == Some((r, []))
    ensures ForkResult.Decode(prefix) == None
  {
    ForkResult.DecodeStable();
    ForkResult.DecodeInverts(r);
    var code := ForkResult.Encode(r);
    assert code + [] == code;
    assert InvertsAt(ForkResult.Decode, code, r, []);
    PrefixFree(ForkResult.Decode, code, r, prefix);
  }

  /** Whatever happens to the child, its clock and its reaper: a reduction the parent reports is the
      one the closure computed. */
  lemma ReportedReductionIsTheChilds(closure: Closure<ForkResult.ArjunResult>, capacity: nat, killDeadline: nat,
                                     states: seq<State<ForkResult.ArjunResult>>, actions: seq<Action>, i: nat)
    requires closure.Returns? && closure.result.Some? ==> ForkResult.Sendable(closure.result.value)
    requires IsRun(Channel(closure, capacity, killDeadline), states, actions) && i < |states|
    requires states[i].parent.Done? && states[i].parent.outcome.Completed?
    ensures closure == Returns(states[i].parent.outcome.result)
  {
    ChannelIsGood(closure, capacity, killDeadline);
    ReturnsSafely(Channel(closure, capacity, killDeadline), states, actions, i);
  }

  /** The weighted encoder on every result; no table has more variables than ids. */
  function EncodeAnyWeighted(r: ForkResult.ArjunWeightedResult): Bytes {
    if |r.weights| <= MAX_VAR then ForkResult.EncodeWeighted(r) else []
  }

  function WeightedChannel(closure: Closure<ForkResult.ArjunWeightedResult>, capacity: nat, killDeadline: nat)
    : Config<ForkResult.ArjunWeightedResult>
  {
    Config(closure, EncodeAnyWeighted, ForkResult.DecodeWeighted, capacity, killDeadline)
  }

  lemma WeightedChannelIsGood(closure: Closure<ForkResult.ArjunWeightedResult>, capacity: nat, killDeadline: nat)
    requires closure.Returns? && closure.result.Some? ==> ForkResult.SendableWeighted(closure.result.value)
    ensures GoodCodec(WeightedChannel(closure, capacity, killDeadline))
  {
    ForkResult.DecodeWeightedStable();
    if closure.Returns? && closure.result.Some? { ForkResult.DecodeWeightedInverts(closure.result.value); }
  }

  /** Weighted reductions come back unchanged too, multiplier and all. */
  lemma ReportedWeightedIsTheChilds(closure: Closure<ForkResult.ArjunWeightedResult>, capacity: nat, killDeadline: nat,
                                    states: seq<State<ForkResult.ArjunWeightedResult>>, actions: seq<Action>, i: nat)
    requires closure.Returns? && closure.result.Some? ==> ForkResult.SendableWeighted(closure.result.value)
    requires IsRun(WeightedChannel(closure, capacity, killDeadline), states, actions) && i < |states|
    requires states[i].parent.Done? && states[i].parent.outcome.Completed?
    ensures closure == Returns(states[i].parent.outcome.result)
  {
    WeightedChannelIsGood(closure, capacity, killDeadline);
    ReturnsSafely(WeightedChannel(closure, capacity, killDeadline), states, actions, i);
  }

  /** A run on the real channel returns the verdict: a reduction that arrived whole is reported, and nothing else is. */
  lemma ReductionVerdict(closure: Closure<ForkResult.ArjunResult>, capacity: nat, killDeadline: nat,
                         states: seq<State<ForkResult.ArjunResult>>, actions: seq<Action>, i: nat)
    requires closure.Returns? && closure.result.Some? ==> ForkResult.Sendable(closure.result.value)
    requires IsRun(Channel(closure, capacity, killDeadline), states, actions) && i < |states|
    requires states[i].parent.Done? && !states[i].killSent
    ensures Verdict(Channel(closure, capacity, killDeadline), states[i].reap, states[i].buf, states[i].parent.outcome)
  {
    ChannelIsGood(closure, capacity, killDeadline);
    VerdictOnRuns(Channel(closure, capacity, killDeadline), states, actions, i);
  }

  lemma WeightedVerdict(closure: Closure<ForkResult.ArjunWeightedResult>, capacity: nat, killDeadline: nat,
                        states: seq<State<ForkResult.ArjunWeightedResult>>, actions: seq<Action>, i: nat)
    requires closure.Returns? && closure.result.Some? ==> ForkResult.SendableWeighted(closure.result.value)
    requires IsRun(WeightedChannel(closure, capacity, killDeadline), states, actions) && i < |states|
    requires states[i].parent.Done? && !states[i].killSent
    ensures Verdict(WeightedChannel(closure, capacity, killDeadline), states[i].reap, states[i].buf,
                    states[i].parent.outcome)
  {
    WeightedChannelIsGood(closure, capacity, killDeadline);
    VerdictOnRuns(WeightedChannel(closure, capacity, killDeadline), states, actions, i);
  }

  /** An undisturbed reduction that returns before the deadline is the one reported. */
  lemma ReductionCompletes(closure: Closure<ForkResult.ArjunResult>, capacity: nat, killDeadline: nat,
                           states: seq<State<ForkResult.ArjunResult>>, actions: seq<Action>, i: nat)
    requires closure.Returns? && (closure.result.Some? ==> ForkResult.Sendable(closure.result.value))
    requires IsRun(Channel(closure, capacity, killDeadline), states, actions) && i < |states|
    requires forall k :: 0 <= k < i ==> Calm(actions[k]) && states[k].now < killDeadline
    requires states[i].parent.Done?
    ensures states[i].parent.outcome == Completed(closure.result)
  {
    ChannelIsGood(closure, capacity, killDeadline);
    UndisturbedCompletes(Channel(closure, capacity, killDeadline), states, actions, i);
  }

  lemma WeightedCompletes(closure: Closure<ForkResult.ArjunWeightedResult>, capacity: nat, killDeadline: nat,
                          states: seq<State<ForkResult.ArjunWeightedResult>>, actions: seq<Action>, i: nat)
    requires closure.Returns? && (closure.result.Some? ==> ForkResult.SendableWeighted(closure.result.value))
    requires IsRun(WeightedChannel(closure, capacity, killDeadline), states, actions) && i < |states|
    requires forall k :: 0 <= k < i ==> Calm(actions[k]) && states[k].now < killDeadline
    requires states[i].parent.Done?
    ensures states[i].parent.outcome == Completed(closure.result)
  {
    WeightedChannelIsGood(closure, capacity, killDeadline);
    UndisturbedCompletes(WeightedChannel(closure, capacity, killDeadline), states, actions, i);
  }
}
