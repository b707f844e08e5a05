/** What a run must return, and not only what it may: every way the parent gets its answer, and exactly which one. */
module ForkVerdict {
  import opened Wrappers
  import opened Payload
  import opened Fork

  /** The bytes that carry a result: a zero byte for none, or a one and the value's encoding. */
  function Carrying<T>(cfg: Config<T>, result: Option<T>): Bytes {
    if result.Some? then [1] + cfg.encode(result.value) else [0]
  }

  /** Everything the closure's result is worth on the pipe was drained. */
  ghost predicate WholeArrived<T>(cfg: Config<T>, buf: Bytes) {
    cfg.closure.Returns? && buf == Carrying(cfg, cfg.closure.result)
  }

  /** What the reap and the bytes drained oblige the parent to return: an exit status other than zero and a signal are
      failures of their own; otherwise the result if all of it arrived, and else a failure that says how far it got. */
  ghost predicate Verdict<T>(cfg: Config<T>, reap: Reap, buf: Bytes, outcome: Outcome<T>) {
    && (reap == GotStatus(Signaled) <==> outcome == Failed(DiedOnSignal))
    && (forall code :: reap == GotStatus(Exited(code)) && code != 0 <==> outcome == Failed(ExitedNonzero(code)))
    && (reap == NoChild || reap == GotStatus(Exited(0)) ==>
          && (WholeArrived(cfg, buf) ==> outcome == Completed(cfg.closure.result))
          && (!WholeArrived(cfg, buf) ==> outcome == Failed(if buf == [] then MissingOrCorrupt else Undecodable)))
  }

  /** The whole encoding decodes to the result, a part of it to nothing. */
  lemma WholeDecodes<T>(cfg: Config<T>, buf: Bytes)
    requires GoodCodec(cfg) && buf <= Full(cfg)
    ensures WholeArrived(cfg, buf) ==> DecodeResult(cfg, buf) == Completed(cfg.closure.result)
    ensures !WholeArrived(cfg, buf) ==>
              DecodeResult(cfg, buf) == Failed(if buf == [] then MissingOrCorrupt else Undecodable)
  {
    if buf != [] {
      var result := cfg.closure.result;
      assert buf[0] == Full(cfg)[0] && buf == [buf[0]] + buf[1..];
      assert FromLittleEndian(buf[..1]) == buf[0] by { assert buf[..1][1..] == []; }
      if result.Some? {
        var code := cfg.encode(result.value);
        assert Full(cfg)[1..] == code && buf[1..] <= code;
        if buf[1..] < code {
          PrefixFree(cfg.decode, code, result.value, buf[1..]);
        } else {
          assert buf[1..] == code && code + [] == code;
          assert InvertsAt(cfg.decode, code, result.value, []);
        }
      }
    }
  }

  lemma JudgeIsVerdict<T>(cfg: Config<T>, reap: Reap, buf: Bytes)
    requires GoodCodec(cfg) && buf <= Full(cfg) && reap != NotReaped
    ensures Verdict(cfg, reap, buf, Judge(cfg, reap, buf))
  {
    hide DecodeResult, GoodCodec, Full;
    WholeDecodes(cfg, buf);
  }

  predicate CallFailed(why: Failure) {
    why == PollFailed || why == ReadFailed
  }

  /** How the answer came about: the kill path only past the deadline, the abandon path only after a failed call, and
      the verdict on a child that was never killed, at the end of the file. */
  ghost predicate VerdictHolds<T>(cfg: Config<T>, s: State<T>) {
    && (OnKillPath(s.parent) ==> s.now >= cfg.killDeadline)
    && (s.killSent <==>
          || s.parent.ReapKilled? || s.parent.CloseKilled? || s.parent == Done(Killed) || s.parent.AbandonReap?
          || (s.parent.Done? && s.parent.outcome.Failed? && CallFailed(s.parent.outcome.why)))
    && (s.parent.AbandonClose? ==> CallFailed(s.parent.why))
    && (s.parent.AbandonKill? ==> CallFailed(s.parent.why))
    && (s.parent.AbandonReap? ==> CallFailed(s.parent.why))
    && (s.parent.Done? && !s.killSent ==>
          EndOfFile(s) && s.buf == s.written && Verdict(cfg, s.reap, s.buf, s.parent.outcome))
  }

  lemma VerdictKept<T>(cfg: Config<T>, s: State<T>, a: Action, s': State<T>)
    requires GoodCodec(cfg) && Inv(cfg, s) && VerdictHolds(cfg, s) && Next(cfg, s, a, s')
    ensures VerdictHolds(cfg, s')
  {
    hide Verdict, Judge, GoodCodec, Full;
    if a.ParentStep? {
      ParentFrame(cfg, s, s');
      if s.parent.ReapAfterEof? {
        assert s.buf + [] == s.buf;
        JudgeIsVerdict(cfg, WaitResult(s.child), s.buf);
        VerdictIsNoOtherPath(cfg, WaitResult(s.child), s.buf);
      }
    } else {
      OthersFrame(cfg, s, a, s');
      if s.parent.Done? { NothingMoves(cfg, s, a, s'); }
    }
  }

  /** The verdict never looks like the answer of another path. */
  lemma VerdictIsNoOtherPath<T>(cfg: Config<T>, reap: Reap, buf: Bytes)
    requires reap != NotReaped
    ensures Judge(cfg, reap, buf) != Killed
    ensures Judge(cfg, reap, buf).Failed? ==> !CallFailed(Judge(cfg, reap, buf).why)
  {
  }

  /** After the parent returned nothing it reported about changes. */
  lemma NothingMoves<T>(cfg: Config<T>, s: State<T>, a: Action, s': State<T>)
    requires Inv(cfg, s) && s.parent.Done? && Next(cfg, s, a, s')
    ensures s' == s || s' == s.(now := s'.now)
  {
    if a.ChildStep? { ChildFrame(cfg, s, s'); }
  }

  lemma VerdictAtStart<T>(cfg: Config<T>, s: State<T>)
    requires s.(now := 0) == Start()
    ensures VerdictHolds(cfg, s)
  {
  }

  lemma {:induction false} VerdictOnRuns<T>(cfg: Config<T>, states: seq<State<T>>, actions: seq<Action>, i: nat)
    requires GoodCodec(cfg) && IsRun(cfg, states, actions) && i < |states|
    ensures Inv(cfg, states[i]) && VerdictHolds(cfg, states[i])
  {
    hide Next, Inv, VerdictHolds, GoodCodec;
    InvariantOnRuns(cfg, states, actions, i);
    if i == 0 {
      VerdictAtStart(cfg, states[0]);
    } else {
      VerdictOnRuns(cfg, states, actions, i - 1);
      VerdictKept(cfg, states[i - 1], actions[i - 1], states[i]);
    }
  }

  /** Whenever the parent returns, the answer is the one it must be. It is killed only past the deadline, and gives the
      failure of a call only after one, in both cases having killed the child; in every other case it saw the end of
      the file, and the reap and the bytes decide. */
  lemma ReturnsTheVerdict<T>(cfg: Config<T>, states: seq<State<T>>, actions: seq<Action>, i: nat)
    requires GoodCodec(cfg) && IsRun(cfg, states, actions) && i < |states| && states[i].parent.Done?
    ensures var s, outcome := states[i], states[i].parent.outcome;
            && (outcome == Killed ==> s.killSent && s.now >= cfg.killDeadline)
            && (outcome.Failed? && CallFailed(outcome.why) ==> s.killSent)
            && (outcome != Killed && !(outcome.Failed? && CallFailed(outcome.why)) ==>
                  !s.killSent && s.buf == s.written && Verdict(cfg, s.reap, s.buf, outcome))
  {
    VerdictOnRuns(cfg, states, actions, i);
  }

  // ---- runs that must complete ----

  /** No system call fails, and the child is not killed and does not leave by an exit of its own. */
  predicate Calm(a: Action) {
    !a.PollFails? && !a.ReadFails? && !a.WriteFails? && !a.ChildCallsExit? && !a.ChildDies?
  }

  ghost predicate CalmHolds<T>(cfg: Config<T>, s: State<T>) {
    && !s.killSent && !OnKillPath(s.parent)
    && !s.parent.AbandonClose? && !s.parent.AbandonKill? && !s.parent.AbandonReap?
    && (s.child.Exiting? ==> s.child.code == 0 && !s.childWrite)
    && (s.child.Zombie? ==> s.child.status == Exited(0))
    && (s.reap.GotStatus? ==> s.reap.status == Exited(0))
    && (!s.childWrite ==> s.written == Full(cfg))
  }

  lemma CalmKept<T>(cfg: Config<T>, s: State<T>, a: Action, s': State<T>)
    requires cfg.closure.Returns? && Inv(cfg, s) && CalmHolds(cfg, s) && Next(cfg, s, a, s')
    requires Calm(a) && s.now < cfg.killDeadline
    ensures CalmHolds(cfg, s')
  {
    hide Full, EncodeResult, Judge, DescriptorsHold, EofHolds, OutcomeHolds;
    if a.ParentStep? {
      ParentFrame(cfg, s, s');
      if s.parent.ReapAfterEof? { VerdictIsNoOtherPath(cfg, WaitResult(s.child), s.buf); }
    } else if a.ChildStep? {
      ChildFrame(cfg, s, s');
    }
  }

  lemma {:induction false} CalmOnRuns<T>(cfg: Config<T>, states: seq<State<T>>, actions: seq<Action>, i: nat)
    requires GoodCodec(cfg) && cfg.closure.Returns? && IsRun(cfg, states, actions) && i < |states|
    requires forall k :: 0 <= k < i ==> Calm(actions[k]) && states[k].now < cfg.killDeadline
    ensures CalmHolds(cfg, states[i])
  {
    if i > 0 {
      CalmOnRuns(cfg, states, actions, i - 1);
      InvariantOnRuns(cfg, states, actions, i - 1);
      CalmKept(cfg, states[i - 1], actions[i - 1], states[i]);
    }
  }

  /** A closure that returns, undisturbed and before the deadline, is reported complete: interrupted calls, polls that
      time out, any interleaving, and a host that reaps the child first change nothing. */
  lemma UndisturbedCompletes<T>(cfg: Config<T>, states: seq<State<T>>, actions: seq<Action>, i: nat)
    requires GoodCodec(cfg) && cfg.closure.Returns? && IsRun(cfg, states, actions) && i < |states|
    requires forall k :: 0 <= k < i ==> Calm(actions[k]) && states[k].now < cfg.killDeadline
    requires states[i].parent.Done?
    ensures states[i].parent.outcome == Completed(cfg.closure.result)
  {
    VerdictOnRuns(cfg, states, actions, i);
    CalmOnRuns(cfg, states, actions, i);
  }

  // ---- and some run does ----

  /** A run that leads to `s`, undisturbed and with the clock standing. */
  ghost predicate LeadsTo<T>(cfg: Config<T>, states: seq<State<T>>, actions: seq<Action>, s: State<T>) {
    && IsRun(cfg, states, actions) && states[|actions|] == s
    && (forall k :: 0 <= k < |actions| ==> Calm(actions[k])) && forall k :: 0 <= k < |states| ==> states[k].now == 0
  }

  ghost predicate Reaches<T(!new)>(cfg: Config<T>, s: State<T>) {
    exists states, actions :: LeadsTo(cfg, states, actions, s)
  }

  lemma OneMoreStep<T(!new)>(cfg: Config<T>, s: State<T>, a: Action, s': State<T>)
    requires Reaches(cfg, s) && Next(cfg, s, a, s') && Calm(a) && s'.now == 0
    ensures Reaches(cfg, s')
  {
    hide Next, Calm;
    var states, actions :| LeadsTo(cfg, states, actions, s);
    assert LeadsTo(cfg, states + [s'], actions + [a], s');
  }

  /** The parent back at its clock, everything written so far drained, `rest` still to be written. */
  function Midway<T>(drained: Bytes, rest: Bytes): State<T> {
    Start().(parent := ReadClock, parentWrite := false, writeCloses := 1, child := Writing(rest), buf := drained,
             written := drained)
  }

  /** One byte written, waited for and read. */
  lemma OneByte<T(!new)>(cfg: Config<T>, drained: Bytes, rest: Bytes)
    requires Reaches(cfg, Midway<T>(drained, rest)) && rest != [] && cfg.capacity > 0 && cfg.killDeadline > 0
    ensures Reaches(cfg, Midway<T>(drained + rest[..1], rest[1..]))
  {
    hide Reaches;
    var s0 := Midway<T>(drained, rest);
    var s1 := s0.(child := Writing(rest[1..]), pipe := rest[..1], written := drained + rest[..1]);
    assert s0.pipe + rest[..1] == rest[..1];
    OneMoreStep(cfg, s0, WriteBytes(1), s1);
    OneMoreStep(cfg, s1, ParentStep, s1.(parent := Poll));
    OneMoreStep(cfg, s1.(parent := Poll), ParentStep, s1.(parent := Read));
    var s4 := s1.(buf := drained + rest[..1], pipe := []);
    assert s1.pipe[..1] == rest[..1] && s1.pipe[1..] == [];
    OneMoreStep(cfg, s1.(parent := Read), ReadBytes(1), s4);
  }

  lemma {:induction false} AllBytes<T(!new)>(cfg: Config<T>, drained: Bytes, rest: Bytes)
    requires Reaches(cfg, Midway<T>(drained, rest)) && cfg.capacity > 0 && cfg.killDeadline > 0
    ensures Reaches(cfg, Midway<T>(drained + rest, []))
    decreases |rest|
  {
    hide Reaches;
    if rest == [] {
      assert drained + rest == drained;
    } else {
      OneByte(cfg, drained, rest);
      AllBytes(cfg, drained + rest[..1], rest[1..]);
      assert drained + rest[..1] + rest[1..] == drained + rest;
    }
  }

  /** The child closes and exits, the parent sees the end, closes, waits and returns. */
  lemma FromTheLastByte<T(!new)>(cfg: Config<T>, drained: Bytes) returns (done: State<T>)
    requires Reaches(cfg, Midway<T>(drained, [])) && cfg.killDeadline > 0
    ensures Reaches(cfg, done) && done.parent.Done?
  {
    hide Reaches, Judge;
    var s0 := Midway<T>(drained, []);
    OneMoreStep(cfg, s0, ChildStep, s0.(child := Closing));
    var s2 := s0.(child := Exiting(0), childWrite := false);
    OneMoreStep(cfg, s0.(child := Closing), ChildStep, s2);
    OneMoreStep(cfg, s2, ParentStep, s2.(parent := Poll));
    OneMoreStep(cfg, s2.(parent := Poll), ParentStep, s2.(parent := Read));
    OneMoreStep(cfg, s2.(parent := Read), ParentStep, s2.(parent := CloseAfterEof));
    var s6 := s2.(parent := ReapAfterEof, parentRead := false, readCloses := 1);
    OneMoreStep(cfg, s2.(parent := CloseAfterEof), ParentStep, s6);
    OneMoreStep(cfg, s6, ChildStep, s6.(child := Zombie(Exited(0))));
    done := s6.(parent := Done(Judge(cfg, GotStatus(Exited(0)), drained)), reap := GotStatus(Exited(0)),
                child := ReapedByParent);
    OneMoreStep(cfg, s6.(child := Zombie(Exited(0))), ParentStep, done);
  }

  lemma StartReached<T(!new)>(cfg: Config<T>)
    ensures Reaches(cfg, Start())
  {
    assert LeadsTo(cfg, [Start()], [], Start());
  }

  /** Results do get through: some undisturbed run ends with the closure's result reported. */
  lemma SomeRunCompletes<T(!new)>(cfg: Config<T>) returns (states: seq<State<T>>, actions: seq<Action>)
    requires GoodCodec(cfg) && cfg.closure.Returns? && cfg.capacity > 0 && cfg.killDeadline > 0
    ensures IsRun(cfg, states, actions)
    ensures states[|actions|].parent == Done(Completed(cfg.closure.result))
  {
    var full := EncodeResult(cfg, cfg.closure.result);
    hide Reaches, EncodeResult, GoodCodec;
    var s1 := Start<T>().(parent := ReadClock, parentWrite := false, writeCloses := 1);
    StartReached(cfg);
    OneMoreStep(cfg, Start(), ParentStep, s1);
    OneMoreStep(cfg, s1, ChildStep, s1.(child := Writing(full)));
    assert s1.(child := Writing(full)) == Midway<T>([], full);
    AllBytes(cfg, [], full);
    assert [] + full == full;
    var done := FromTheLastByte(cfg, full);
    states, actions := RunTo(cfg, done);
    UndisturbedCompletes(cfg, states, actions, |actions|);
  }

  lemma RunTo<T(!new)>(cfg: Config<T>, s: State<T>) returns (states: seq<State<T>>, actions: seq<Action>)
    requires Reaches(cfg, s)
    ensures LeadsTo(cfg, states, actions, s)
  {
    states, actions :| LeadsTo(cfg, states, actions, s);
  }
}
