/** The fork-with-deadline protocol as a state machine: a parent draining a bounded pipe against a
    kill deadline, a child computing and writing its result, a clock, interrupted system calls, and
    a host handler that may reap the child first. */
module Fork {
  import opened Wrappers
  import opened Payload

  const CHILD_EXIT_PANIC: int := 91
  const CHILD_EXIT_WRITE_FAILED: int := 92

  /** The most one read takes. */
  const CHUNK: nat := 65536

  /** What the closure does when it gets to run undisturbed. */
  datatype Closure<T> =
    | Returns(result: Option<T>)
    | Panics
    | NeverReturns

  datatype Config<!T> = Config(
    closure: Closure<T>, encode: T -> Bytes, decode: Decoder<T>, capacity: nat, killDeadline: nat)

  datatype Failure =
    | PollFailed
    | ReadFailed
    | DiedOnSignal
    | ExitedNonzero(code: int)
    | Undecodable
    | MissingOrCorrupt

  datatype Outcome<T> =
    | Completed(result: Option<T>)
    | Killed
    | Failed(why: Failure)

  /** Where the parent is: the next system call it makes. */
  datatype Parent<T> =
    | CloseWrite
    | ReadClock
    | Poll
    | Read
    | CloseAfterEof
    | ReapAfterEof
    | KillAtDeadline
    | ReapKilled
    | CloseKilled
    | AbandonClose(why: Failure)
    | AbandonKill(why: Failure)
    | AbandonReap(why: Failure)
    | Done(outcome: Outcome<T>)

  datatype Status = Exited(code: int) | Signaled

  datatype Child =
    | Running
    | Writing(rest: Bytes)
    | Closing
    | Exiting(code: int)
    | Zombie(status: Status)
    | ReapedByParent
    | ReapedByOther

  /** What the parent's last `waitpid` told it. */
  datatype Reap = NotReaped | GotStatus(status: Status) | NoChild

  datatype State<T> = State(
    parent: Parent<T>, child: Child, pipe: Bytes, buf: Bytes, written: Bytes, parentWrite: bool, parentRead: bool,
    childWrite: bool, writeCloses: nat, readCloses: nat, killSent: bool, reap: Reap, now: nat)

  // ---- encoding and decoding the result ----

  function EncodeResult<T>(cfg: Config<T>, result: Option<T>): Bytes {
    match result
    case Some(v) => [1] + cfg.encode(v)
    case None => [0]
  }

  /** What the bytes drained from the pipe say: a tag, and behind tag 1 an encoded value. */
  function DecodeResult<T>(cfg: Config<T>, buf: Bytes): Outcome<T> {
    match GetU8(buf)
    case None => Failed(MissingOrCorrupt)
    case Some((tag, rest)) =>
      if tag == 0 then Completed(None)
      else if tag == 1 then
        match cfg.decode(rest)
        case Some((v, _)) => Completed(Some(v))
        case None => Failed(Undecodable)
      else Failed(MissingOrCorrupt)
  }

  /** The result after a reap: a clean exit is decoded, and so is a child someone else waited for. */
  function Judge<T>(cfg: Config<T>, reap: Reap, buf: Bytes): Outcome<T>
    requires reap != NotReaped
  {
    match reap
    case NoChild => DecodeResult(cfg, buf)
    case GotStatus(Signaled) => Failed(DiedOnSignal)
    case GotStatus(Exited(code)) => if code != 0 then Failed(ExitedNonzero(code)) else DecodeResult(cfg, buf)
  }

  /** The codec facts the protocol rests on, for the value this child returns. */
  ghost predicate GoodCodec<T>(cfg: Config<T>) {
    && Stable(cfg.decode)
    && (cfg.closure.Returns? && cfg.closure.result.Some? ==>
          Inverts(cfg.decode, cfg.encode(cfg.closure.result.value), cfg.closure.result.value))
  }

  /** Every byte the child will ever write. */
  function Full<T>(cfg: Config<T>): Bytes {
    if cfg.closure.Returns? then EncodeResult(cfg, cfg.closure.result) else []
  }

  /** A prefix of what the child writes decodes only if it is all of it, and then to what was returned. */
  lemma DecodesOnlyWhole<T>(cfg: Config<T>, buf: Bytes)
    requires GoodCodec(cfg) && buf <= Full(cfg) && DecodeResult(cfg, buf).Completed?
    ensures cfg.closure == Returns(DecodeResult(cfg, buf).result) && buf == Full(cfg)
  {
    assert buf != [];
    assert buf[0] == Full(cfg)[0];
    assert FromLittleEndian(buf[..1]) == buf[0] by { assert buf[..1][1..] == []; }
    var result := cfg.closure.result;
    if result.Some? {
      var code := cfg.encode(result.value);
      assert Full(cfg)[1..] == code && buf[1..] <= code;
      if buf[1..] < code { PrefixFree(cfg.decode, code, result.value, buf[1..]); }
      assert buf[1..] == code && code + [] == code;
      assert InvertsAt(cfg.decode, code, result.value, []);
      assert buf == [buf[0]] + buf[1..];
    }
  }

  // ---- steps ----

  datatype Action =
    | ParentStep
    | ParentInterrupted
    | PollTimesOut
    | PollFails
    | ReadFails
    | ReadBytes(n: nat)
    | ChildStep
    | WriteBytes(m: nat)
    | WriteFails
    | ChildCallsExit(code: int)
    | ChildDies
    | OtherReaps
    | Tick

  predicate ChildAlive(c: Child) {
    c.Running? || c.Writing? || c.Closing? || c.Exiting?
  }

  predicate EndOfFile<T>(s: State<T>) {
    s.pipe == [] && !s.parentWrite && !s.childWrite
  }

  /** `waitpid` on the child, in the state where it does not block. */
  predicate Waitable(c: Child) {
    c.Zombie? || c.ReapedByOther?
  }

  function WaitResult(c: Child): Reap
    requires Waitable(c)
  {
    if c.Zombie? then GotStatus(c.status) else NoChild
  }

  function AfterWait(c: Child): Child {
    if c.Zombie? then ReapedByParent else c
  }

  /** One uninterrupted system call of the parent, except where the outcome is a separate action. */
  ghost predicate ParentNext<T>(cfg: Config<T>, s: State<T>, s': State<T>) {
    match s.parent
    case CloseWrite =>
      s' == s.(parent := ReadClock, parentWrite := false, writeCloses := s.writeCloses + 1)
    case ReadClock =>
      s' == s.(parent := if s.now >= cfg.killDeadline then KillAtDeadline else Poll)
    case Poll =>
      (s.pipe != [] || (!s.parentWrite && !s.childWrite)) && s' == s.(parent := Read)
    case Read =>
      EndOfFile(s) && s' == s.(parent := CloseAfterEof)
    case CloseAfterEof =>
      s' == s.(parent := ReapAfterEof, parentRead := false, readCloses := s.readCloses + 1)
    case ReapAfterEof =>
      Waitable(s.child)
      && s' == s.(parent := Done(Judge(cfg, WaitResult(s.child), s.buf)), reap := WaitResult(s.child),
                  child := AfterWait(s.child))
    case KillAtDeadline =>
      s' == s.(parent := ReapKilled, killSent := true)
    case ReapKilled =>
      Waitable(s.child)
      && s' == s.(parent := CloseKilled, reap := WaitResult(s.child), child := AfterWait(s.child))
    case CloseKilled =>
      s' == s.(parent := Done(Killed), parentRead := false, readCloses := s.readCloses + 1)
    case AbandonClose(why) =>
      s' == s.(parent := AbandonKill(why), parentRead := false, readCloses := s.readCloses + 1)
    case AbandonKill(why) =>
      s' == s.(parent := AbandonReap(why), killSent := true)
    case AbandonReap(why) =>
      Waitable(s.child)
      && s' == s.(parent := Done(Failed(why)), reap := WaitResult(s.child), child := AfterWait(s.child))
    case Done(_) => false
  }

  ghost predicate Next<T>(cfg: Config<T>, s: State<T>, a: Action, s': State<T>) {
    match a
    case ParentStep => ParentNext(cfg, s, s')
    case ParentInterrupted =>
      // EINTR: `poll` and `read` go back to the clock, `waitpid` is retried.
      || ((s.parent.Poll? || s.parent.Read?) && s' == s.(parent := ReadClock))
      || ((s.parent.ReapAfterEof? || s.parent.ReapKilled? || s.parent.AbandonReap?) && s' == s)
    case PollTimesOut => s.parent.Poll? && s' == s.(parent := ReadClock)
    case PollFails => s.parent.Poll? && s' == s.(parent := AbandonClose(PollFailed))
    case ReadFails => s.parent.Read? && s' == s.(parent := AbandonClose(ReadFailed))
    case ReadBytes(n) =>
      && s.parent.Read? && 0 < n <= |s.pipe| && n <= CHUNK
      && s' == s.(parent := ReadClock, buf := s.buf + s.pipe[..n], pipe := s.pipe[n..])
    case ChildStep => ChildNext(cfg, s, s')
    case WriteBytes(m) =>
      && s.child.Writing? && s.childWrite && 0 < m <= |s.child.rest| && |s.pipe| + m <= cfg.capacity
      && s' == s.(child := Writing(s.child.rest[m..]), pipe := s.pipe + s.child.rest[..m],
                  written := s.written + s.child.rest[..m])
    case WriteFails => s.child.Writing? && s.child.rest != [] && s' == s.(child := Exiting(CHILD_EXIT_WRITE_FAILED))
    case ChildCallsExit(code) => s.child.Running? && s' == s.(child := Exiting(code))
    case ChildDies => ChildAlive(s.child) && s' == s.(child := Zombie(Signaled), childWrite := false)
    case OtherReaps => s.child.Zombie? && s' == s.(child := ReapedByOther)
    case Tick => s' == s.(now := s.now + 1)
  }

  /** The child's own program: run the closure, write what it returned, close, exit. */
  ghost predicate ChildNext<T>(cfg: Config<T>, s: State<T>, s': State<T>) {
    match s.child
    case Running =>
      (match cfg.closure
       case Returns(result) => s' == s.(child := Writing(EncodeResult(cfg, result)))
       case Panics => s' == s.(child := Exiting(CHILD_EXIT_PANIC))
       case NeverReturns => false)
    case Writing(rest) => rest == [] && s' == s.(child := Closing)
    case Closing => s' == s.(child := Exiting(0), childWrite := false)
    case Exiting(code) => s' == s.(child := Zombie(Exited(code)), childWrite := false)
    case _ => false
  }

  /** Just after the fork, both processes hold both ends. */
  function Start<T>(): State<T> {
    State(CloseWrite, Running, [], [], [], true, true, true, 0, 0, false, NotReaped, 0)
  }

  /** A run: a state for each step taken, and the actions between them. */
  ghost predicate IsRun<T>(cfg: Config<T>, states: seq<State<T>>, actions: seq<Action>) {
    && |states| == |actions| + 1
    && states[0].(now := 0) == Start()
    && forall i :: 0 <= i < |actions| ==> Next(cfg, states[i], actions[i], states[i + 1])
  }

  // ---- the invariant ----

  predicate InLoop<T>(p: Parent<T>) {
    p.ReadClock? || p.Poll? || p.Read?
  }

  ghost predicate DescriptorsHold<T>(s: State<T>) {
    && s.writeCloses == (if s.parent.CloseWrite? then 0 else 1)
    && s.parentWrite == s.parent.CloseWrite?
    && s.parentRead == (s.parent.CloseWrite? || InLoop(s.parent) || s.parent.CloseAfterEof? || s.parent.AbandonClose?
                        || s.parent.KillAtDeadline? || s.parent.ReapKilled? || s.parent.CloseKilled?)
    && s.readCloses == (if s.parentRead then 0 else 1)
  }

  ghost predicate ReapHolds<T>(s: State<T>) {
    && (s.reap == NotReaped <==> !s.parent.Done? && !s.parent.CloseKilled?)
    && (s.reap != NotReaped ==> s.child.ReapedByParent? || s.child.ReapedByOther?)
    && (s.child.ReapedByParent? ==> s.reap.GotStatus?)
    && ((s.parent.ReapKilled? || s.parent.AbandonReap?) ==> s.killSent)
  }

  /** Nothing is lost or invented on the way from the child's buffer to the parent's. */
  ghost predicate BytesHold<T>(cfg: Config<T>, s: State<T>) {
    && s.buf + s.pipe == s.written
    && s.written <= Full(cfg)
    && (s.child.Running? ==> s.written == [] && s.childWrite)
    && (s.child.Writing? ==> cfg.closure.Returns? && s.written + s.child.rest == Full(cfg) && s.childWrite)
    && (s.child.Closing? ==> s.written == Full(cfg) && s.childWrite)
    && (s.child.Exiting? && !s.childWrite ==> s.written == Full(cfg))
    && (!ChildAlive(s.child) ==> !s.childWrite)
    && |s.pipe| <= cfg.capacity
  }

  /** Once the end of the file was seen it stays the end of the file. */
  ghost predicate EofHolds<T>(s: State<T>) {
    && (s.parent.CloseAfterEof? || s.parent.ReapAfterEof? ==> EndOfFile(s))
    && (s.parent.Read? ==> s.pipe != [] || EndOfFile(s))
  }

  ghost predicate OutcomeHolds<T>(cfg: Config<T>, s: State<T>) {
    s.parent.Done? && s.parent.outcome.Completed? ==>
      cfg.closure == Returns(s.parent.outcome.result) && s.buf == Full(cfg)
  }

  ghost predicate Inv<T>(cfg: Config<T>, s: State<T>) {
    DescriptorsHold(s) && ReapHolds(s) && BytesHold(cfg, s) && EofHolds(s) && OutcomeHolds(cfg, s)
  }

  /** A parent's step moves no byte, and touches the child only by reaping a zombie. */
  lemma ParentFrame<T>(cfg: Config<T>, s: State<T>, s': State<T>)
    requires ParentNext(cfg, s, s')
    ensures s'.pipe == s.pipe && s'.buf == s.buf && s'.written == s.written && s'.childWrite == s.childWrite
    ensures s'.child == s.child || (s.child.Zombie? && s'.child.ReapedByParent?)
  {
  }

  lemma ChildFrame<T>(cfg: Config<T>, s: State<T>, s': State<T>)
    requires ChildNext(cfg, s, s')
    ensures s' == s.(child := s'.child, childWrite := s'.childWrite)
    ensures ChildAlive(s.child) && !s'.child.ReapedByParent?
  {
  }

  /** Every other step leaves the parent's bookkeeping alone, and moves it only inside its loop. */
  lemma OthersFrame<T>(cfg: Config<T>, s: State<T>, a: Action, s': State<T>)
    requires Next(cfg, s, a, s') && !a.ParentStep?
    ensures s'.reap == s.reap && s'.killSent == s.killSent && s'.parentWrite == s.parentWrite
              && s'.parentRead == s.parentRead
    ensures s'.writeCloses == s.writeCloses && s'.readCloses == s.readCloses && s'.now >= s.now
    ensures s.child.ReapedByParent? || s.child.ReapedByOther? ==> s'.child == s.child
    ensures s'.child.ReapedByParent? ==> s.child.ReapedByParent?
    ensures !ParentMoves(s, a) ==> s'.parent == s.parent
    ensures ParentMoves(s, a) ==> InLoop(s.parent) && !s.parent.ReadClock?
    ensures ParentMoves(s, a) ==>
              s'.parent.ReadClock? || s'.parent == AbandonClose(PollFailed) || s'.parent == AbandonClose(ReadFailed)
  {
    if a.ChildStep? { ChildFrame(cfg, s, s'); }
  }

  /** The parent's calls that return something, as opposed to a `waitpid` retried after a signal. */
  predicate ParentMoves<T>(s: State<T>, a: Action) {
    || a.ParentStep? || a.PollTimesOut? || a.PollFails? || a.ReadFails? || a.ReadBytes?
    || (a.ParentInterrupted? && InLoop(s.parent))
  }

  lemma DescriptorsKept<T>(cfg: Config<T>, s: State<T>, a: Action, s': State<T>)
    requires DescriptorsHold(s) && Next(cfg, s, a, s')
    ensures DescriptorsHold(s')
  {
    if !a.ParentStep? { OthersFrame(cfg, s, a, s'); }
  }

  lemma ReapKept<T>(cfg: Config<T>, s: State<T>, a: Action, s': State<T>)
    requires ReapHolds(s) && Next(cfg, s, a, s')
    ensures ReapHolds(s')
  {
    if !a.ParentStep? { OthersFrame(cfg, s, a, s'); }
  }

  lemma BytesReadKept<T>(cfg: Config<T>, s: State<T>, n: nat, s': State<T>)
    requires BytesHold(cfg, s) && Next(cfg, s, ReadBytes(n), s')
    ensures BytesHold(cfg, s')
  {
    assert s.buf + s.pipe[..n] + s.pipe[n..] == s.buf + s.pipe;
  }

  lemma BytesWrittenKept<T>(cfg: Config<T>, s: State<T>, m: nat, s': State<T>)
    requires BytesHold(cfg, s) && Next(cfg, s, WriteBytes(m), s')
    ensures BytesHold(cfg, s')
  {
    var rest := s.child.rest;
    assert rest[..m] + rest[m..] == rest;
    assert s.buf + (s.pipe + rest[..m]) == s.written + rest[..m];
    assert s.written + rest[..m] + rest[m..] == Full(cfg);
  }

  lemma BytesKept<T>(cfg: Config<T>, s: State<T>, a: Action, s': State<T>)
    requires BytesHold(cfg, s) && Next(cfg, s, a, s')
    ensures BytesHold(cfg, s')
  {
    match a
    case ReadBytes(n) => BytesReadKept(cfg, s, n, s');
    case WriteBytes(m) => BytesWrittenKept(cfg, s, m, s');
    case ParentStep => ParentFrame(cfg, s, s');
    case ChildStep => assert s'.buf == s.buf && s'.pipe == s.pipe && s'.written == s.written;
    case _ =>
  }

  lemma EofKept<T>(cfg: Config<T>, s: State<T>, a: Action, s': State<T>)
    requires EofHolds(s) && DescriptorsHold(s) && BytesHold(cfg, s) && Next(cfg, s, a, s')
    ensures EofHolds(s')
  {
    if a.ParentStep? { ParentFrame(cfg, s, s'); }
  }

  lemma OutcomeKept<T>(cfg: Config<T>, s: State<T>, a: Action, s': State<T>)
    requires GoodCodec(cfg) && Inv(cfg, s) && Next(cfg, s, a, s')
    ensures OutcomeHolds(cfg, s')
  {
    if a.ParentStep? {
      ParentFrame(cfg, s, s');
      if s.parent.ReapAfterEof? && s'.parent.outcome.Completed? {
        assert s.buf + [] == s.buf;
        DecodesOnlyWhole(cfg, s.buf);
      }
    }
  }

  /** In every interleaving, every state reached satisfies the invariant. */
  lemma {:induction false} InvariantOnRuns<T>(cfg: Config<T>, states: seq<State<T>>, actions: seq<Action>, i: nat)
    requires GoodCodec(cfg) && IsRun(cfg, states, actions) && i < |states|
    ensures Inv(cfg, states[i])
  {
    if i > 0 {
      InvariantOnRuns(cfg, states, actions, i - 1);
      var s, a, s' := states[i - 1], actions[i - 1], states[i];
      DescriptorsKept(cfg, s, a, s');
      ReapKept(cfg, s, a, s');
      BytesKept(cfg, s, a, s');
      EofKept(cfg, s, a, s');
      OutcomeKept(cfg, s, a, s');
    }
  }

  // ---- what every run gives ----

  /** Whenever the parent returns: both of its descriptors were closed exactly once, the child was
      reaped by it or by someone else, and a result is reported only if the closure returned it and
      its whole encoding was delivered. */
  lemma ReturnsSafely<T>(cfg: Config<T>, states: seq<State<T>>, actions: seq<Action>, i: nat)
    requires GoodCodec(cfg) && IsRun(cfg, states, actions) && i < |states| && states[i].parent.Done?
    ensures states[i].writeCloses == 1 && states[i].readCloses == 1
    ensures !states[i].parentWrite && !states[i].parentRead
    ensures states[i].reap.GotStatus? || states[i].reap.NoChild?
    ensures states[i].child.ReapedByParent? || states[i].child.ReapedByOther?
    ensures states[i].parent.outcome.Completed? ==>
              cfg.closure == Returns(states[i].parent.outcome.result) && states[i].buf == Full(cfg)
  {
    InvariantOnRuns(cfg, states, actions, i);
  }

  /** The step nobody has to wait for: the parent's own call if it does not block, else the child's
      exit, or the delivery of the kill that was sent. */
  function Pending<T>(cfg: Config<T>, s: State<T>): Action {
    match s.parent
    case Poll => if s.pipe != [] || (!s.parentWrite && !s.childWrite) then ParentStep else PollTimesOut
    case Read => if s.pipe != [] then ReadBytes(1) else ParentStep
    case ReapAfterEof => if Waitable(s.child) then ParentStep else ChildStep
    case ReapKilled => if Waitable(s.child) then ParentStep else ChildDies
    case AbandonReap(_) => if Waitable(s.child) then ParentStep else ChildDies
    case _ => ParentStep
  }

  /** No reachable state is stuck: until the parent returns, some uninterrupted step is enabled, and
      the child is waited for only when it has closed the pipe or a kill was sent. */
  lemma NeverStuck<T>(cfg: Config<T>, states: seq<State<T>>, actions: seq<Action>, i: nat)
    requires GoodCodec(cfg) && IsRun(cfg, states, actions) && i < |states| && !states[i].parent.Done?
    ensures exists s' :: Next(cfg, states[i], Pending(cfg, states[i]), s')
    ensures Pending(cfg, states[i]).ChildDies? ==> states[i].killSent
    ensures Pending(cfg, states[i]).ChildStep? ==> states[i].child.Exiting?
  {
    InvariantOnRuns(cfg, states, actions, i);
    var s' := AfterPending(cfg, states[i]);
  }

  lemma AfterPending<T>(cfg: Config<T>, s: State<T>) returns (s': State<T>)
    requires Inv(cfg, s) && !s.parent.Done?
    ensures Next(cfg, s, Pending(cfg, s), s')
  {
    s' := s;
    match s.parent
    case CloseWrite => s' := s.(parent := ReadClock, parentWrite := false, writeCloses := s.writeCloses + 1);
    case ReadClock => s' := s.(parent := if s.now >= cfg.killDeadline then KillAtDeadline else Poll);
    case Poll =>
      s' := s.(parent := if s.pipe != [] || (!s.parentWrite && !s.childWrite) then Read else ReadClock);
    case Read =>
      if s.pipe != [] {
        s' := s.(parent := ReadClock, buf := s.buf + s.pipe[..1], pipe := s.pipe[1..]);
      } else {
        s' := s.(parent := CloseAfterEof);
      }
    case CloseAfterEof => s' := s.(parent := ReapAfterEof, parentRead := false, readCloses := s.readCloses + 1);
    case ReapAfterEof =>
      if Waitable(s.child) {
        s' := s.(parent := Done(Judge(cfg, WaitResult(s.child), s.buf)), reap := WaitResult(s.child),
                 child := AfterWait(s.child));
      } else {
        s' := s.(child := Zombie(Exited(s.child.code)), childWrite := false);
      }
    case KillAtDeadline => s' := s.(parent := ReapKilled, killSent := true);
    case ReapKilled =>
      if Waitable(s.child) {
        s' := s.(parent := CloseKilled, reap := WaitResult(s.child), child := AfterWait(s.child));
      } else {
        s' := s.(child := Zombie(Signaled), childWrite := false);
      }
    case CloseKilled => s' := s.(parent := Done(Killed), parentRead := false, readCloses := s.readCloses + 1);
    case AbandonClose(why) => s' := s.(parent := AbandonKill(why), parentRead := false, readCloses := s.readCloses + 1);
    case AbandonKill(why) => s' := s.(parent := AbandonReap(why), killSent := true);
    case AbandonReap(why) =>
      if Waitable(s.child) {
        s' := s.(parent := Done(Failed(why)), reap := WaitResult(s.child), child := AfterWait(s.child));
      } else {
        s' := s.(child := Zombie(Signaled), childWrite := false);
      }
    case Done(_) =>
  }

  /** How many more uninterrupted calls the parent can make once the deadline has passed. */
  function Rank<T>(p: Parent<T>): nat {
    match p
    case Done(_) => 0
    case CloseKilled => 1
    case ReapAfterEof => 1
    case AbandonReap(_) => 1
    case ReapKilled => 2
    case CloseAfterEof => 2
    case AbandonKill(_) => 2
    case KillAtDeadline => 3
    case AbandonClose(_) => 3
    case ReadClock => 4
    case Read => 5
    case Poll => 6
    case CloseWrite => 7
  }

  lemma RankFalls<T>(cfg: Config<T>, s: State<T>, a: Action, s': State<T>)
    requires Next(cfg, s, a, s') && s.now >= cfg.killDeadline
    ensures s'.now >= cfg.killDeadline
    ensures ParentMoves(s, a) ==> Rank(s'.parent) < Rank(s.parent)
    ensures !ParentMoves(s, a) ==> s'.parent == s.parent
  {
    hide ParentNext, ChildNext;
    if a.ParentStep? { ParentRankFalls(cfg, s, s'); } else { OthersFrame(cfg, s, a, s'); }
  }

  lemma ParentRankFalls<T>(cfg: Config<T>, s: State<T>, s': State<T>)
    requires ParentNext(cfg, s, s') && s.now >= cfg.killDeadline
    ensures s'.now == s.now && Rank(s'.parent) < Rank(s.parent)
  {
  }

  /** The parent's calls among the actions from `i` up to `j`. */
  ghost function MovesBetween<T>(states: seq<State<T>>, actions: seq<Action>, i: nat, j: nat): nat
    requires i <= j <= |actions| && |states| == |actions| + 1
  {
    if i == j then 0
    else MovesBetween(states, actions, i, j - 1) + (if ParentMoves(states[j - 1], actions[j - 1]) then 1 else 0)
  }

  /** After the deadline the parent makes at most seven more calls, whatever the others do. */
  lemma {:induction false} ReturnsSoonAfterDeadline<T>(cfg: Config<T>, states: seq<State<T>>, actions: seq<Action>,
                                                       i: nat, j: nat)
    requires IsRun(cfg, states, actions) && i <= j <= |actions| && states[i].now >= cfg.killDeadline
    ensures states[j].now >= cfg.killDeadline
    ensures MovesBetween(states, actions, i, j) + Rank(states[j].parent) <= Rank(states[i].parent) <= 7
  {
    hide Next, ParentMoves;
    if i < j {
      ReturnsSoonAfterDeadline(cfg, states, actions, i, j - 1);
      RankFalls(cfg, states[j - 1], actions[j - 1], states[j]);
    }
  }

  predicate OnKillPath<T>(p: Parent<T>) {
    p.KillAtDeadline? || p.ReapKilled? || p.CloseKilled? || p == Done(Killed)
  }

  /** A parent that looks at the clock at or past the deadline returns `Killed` and nothing else. */
  lemma {:induction false} DeadlineKills<T>(cfg: Config<T>, states: seq<State<T>>, actions: seq<Action>, i: nat, j: nat)
    requires IsRun(cfg, states, actions) && i <= j < |states|
    requires states[i].parent.ReadClock? && states[i].now >= cfg.killDeadline
    ensures states[j].parent.ReadClock? || OnKillPath(states[j].parent)
    ensures states[j].parent.Done? ==> states[j].parent.outcome == Killed
  {
    if i < j {
      DeadlineKills(cfg, states, actions, i, j - 1);
      ReturnsSoonAfterDeadline(cfg, states, actions, i, j - 1);
      RankFalls(cfg, states[j - 1], actions[j - 1], states[j]);
    }
  }

  ghost predicate OnAbandonPath<T>(p: Parent<T>) {
    exists why :: (why == PollFailed || why == ReadFailed)
      && (p == AbandonClose(why) || p == AbandonKill(why) || p == AbandonReap(why) || p == Done(Failed(why)))
  }

  /** While the child holds the pipe open the parent cannot leave its loop by any result: the only
      ways out are the deadline's kill and a failed `poll` or `read`. */
  lemma {:induction false} HeldOpenIsKilled<T>(cfg: Config<T>, states: seq<State<T>>, actions: seq<Action>, j: nat)
    requires IsRun(cfg, states, actions) && j < |states|
    requires forall k :: 0 <= k < j && InLoop(states[k].parent) ==> states[k].childWrite
    ensures states[j].parent.CloseWrite? || InLoop(states[j].parent) || OnKillPath(states[j].parent)
              || OnAbandonPath(states[j].parent)
    ensures states[j].parent.Done? ==> !states[j].parent.outcome.Completed?
  {
    if j > 0 {
      HeldOpenIsKilled(cfg, states, actions, j - 1);
      HeldOpenStep(cfg, states[j - 1], actions[j - 1], states[j]);
    }
  }

  lemma HeldOpenStep<T>(cfg: Config<T>, s: State<T>, a: Action, s': State<T>)
    requires Next(cfg, s, a, s') && (InLoop(s.parent) ==> s.childWrite)
    requires s.parent.CloseWrite? || InLoop(s.parent) || OnKillPath(s.parent) || OnAbandonPath(s.parent)
    ensures s'.parent.CloseWrite? || InLoop(s'.parent) || OnKillPath(s'.parent) || OnAbandonPath(s'.parent)
  {
    if !a.ParentStep? { OthersFrame(cfg, s, a, s'); }
  }
}
