/** The asynchronous log (common/log.cpp) as a protocol: producers, one worker thread, one controller. */
module LogProtocol {
  type Message = string

  /** A queued message, or the entry that tells the worker to stop. */
  datatype Entry = Entry(msg: Message, isEnd: bool)

  datatype Worker = Idle | Holding(msg: Message) | Exited

  /** `waiting`: the controller is in pause(), past the lock, waiting for the worker to end. */
  datatype LogState = LogState(queue: seq<Entry>, capacity: nat, running: bool, worker: Worker, waiting: bool,
                               accepted: seq<Message>, printed: seq<Message>)

  /** The atomic steps: what one thread does while it holds the lock, or alone. */
  datatype Action = Add(msg: Message) | Take | Print | Pause | Join | Resume

  function Start(capacity: nat): LogState {
    LogState([], capacity, true, Idle, false, [], [])
  }

  predicate Enabled(s: LogState, a: Action) {
    match a
    case Add(_) => true
    case Take => s.worker.Idle? && s.queue != []
    case Print => s.worker.Holding?
    case Pause => !s.waiting
    case Join => s.waiting && s.worker.Exited?
    case Resume => !s.waiting
  }

  /** Appending to a ring that keeps one slot free: the ring grows when the append would fill it. */
  function Step(s: LogState, a: Action): LogState {
    match a
    case Add(msg) =>
      if !s.running then s
      else s.(queue := s.queue + [Entry(msg, false)],
              capacity := if |s.queue| + 1 == s.capacity then 2 * s.capacity else s.capacity,
              accepted := s.accepted + [msg])
    case Take =>
      if !(s.worker.Idle? && s.queue != []) then s
      else s.(queue := s.queue[1..], worker := if s.queue[0].isEnd then Exited else Holding(s.queue[0].msg))
    case Print =>
      if !s.worker.Holding? then s
      else s.(worker := Idle, printed := s.printed + [s.worker.msg])
    case Pause =>
      if !s.running then s
      else s.(running := false, waiting := true,
              queue := if Full(s) then [] else s.queue + [Entry("", true)])
    case Join => s.(waiting := false)
    case Resume =>
      if s.running then s else s.(running := true, worker := Idle)
  }

  /** One more entry makes head meet tail, which reads as an empty ring. */
  predicate Full(s: LogState) { |s.queue| + 1 == s.capacity }

  /** A run: every action is taken in a state that enables it. */
  predicate IsRun(s: LogState, actions: seq<Action>)
    decreases |actions|
  {
    actions == [] || (Enabled(s, actions[0]) && IsRun(Step(s, actions[0]), actions[1..]))
  }

  function After(s: LogState, actions: seq<Action>): LogState
    decreases |actions|
  {
    if actions == [] then s else After(Step(s, actions[0]), actions[1..])
  }

  /** No pause of the run finds the ring one entry short of full. */
  predicate NeverPausedFull(s: LogState, actions: seq<Action>)
    decreases |actions|
  {
    actions == [] ||
    (!(actions[0].Pause? && s.running && Full(s)) && NeverPausedFull(Step(s, actions[0]), actions[1..]))
  }

  function Messages(q: seq<Entry>): seq<Message> {
    if q == [] then [] else (if q[0].isEnd then [] else [q[0].msg]) + Messages(q[1..])
  }

  function InHand(w: Worker): seq<Message> { if w.Holding? then [w.msg] else [] }

  predicate NoEnd(q: seq<Entry>) { forall i :: 0 <= i < |q| ==> !q[i].isEnd }

  /** What every step keeps: no message lost, doubled or reordered, and at most one end marker, behind all messages. */
  ghost predicate Inv(s: LogState) {
    && s.printed + InHand(s.worker) + Messages(s.queue) == s.accepted
    && |s.queue| < s.capacity
    && (s.running ==> !s.waiting && !s.worker.Exited? && NoEnd(s.queue))
    && (!s.running && !s.worker.Exited? ==>
          s.waiting && s.queue != [] && s.queue[|s.queue| - 1].isEnd && NoEnd(s.queue[..|s.queue| - 1]))
    && (s.worker.Exited? ==> s.queue == [])
  }

  lemma {:induction false} MessagesAppend(p: seq<Entry>, q: seq<Entry>)
    ensures Messages(p + q) == Messages(p) + Messages(q)
  {
    if p == [] {
      assert p + q == q;
    } else {
      assert (p + q)[1..] == p[1..] + q;
      MessagesAppend(p[1..], q);
    }
  }

  lemma StartInv(capacity: nat)
    requires capacity > 0
    ensures Inv(Start(capacity))
  {
  }

  lemma AddKeeps(s: LogState, msg: Message)
    requires Inv(s)
    ensures Inv(Step(s, Add(msg)))
  {
    MessagesAppend(s.queue, [Entry(msg, false)]);
    assert Messages([Entry(msg, false)]) == [msg];
  }

  lemma TakeKeeps(s: LogState)
    requires Inv(s) && Enabled(s, Take)
    ensures Inv(Step(s, Take))
  {
    var q := s.queue;
    assert Messages(q) == (if q[0].isEnd then [] else [q[0].msg]) + Messages(q[1..]);
    if !s.running {
      if |q| > 1 { assert !q[..|q| - 1][0].isEnd; }
      assert |q| > 1 ==> q[1..][..|q[1..]| - 1] == q[..|q| - 1][1..];
    }
  }

  lemma PauseKeeps(s: LogState)
    requires Inv(s) && Enabled(s, Pause) && (s.running ==> !Full(s))
    ensures Inv(Step(s, Pause))
  {
    if s.running {
      var q := s.queue + [Entry("", true)];
      MessagesAppend(s.queue, [Entry("", true)]);
      assert Messages([Entry("", true)]) == [];
      assert q[..|q| - 1] == s.queue;
    }
  }

  lemma StepKeeps(s: LogState, a: Action)
    requires Inv(s) && Enabled(s, a) && !(a.Pause? && s.running && Full(s))
    ensures Inv(Step(s, a))
  {
    match a
    case Add(msg) => AddKeeps(s, msg);
    case Take => TakeKeeps(s);
    case Print =>
      assert s.printed + [s.worker.msg] + Messages(s.queue) == (s.printed + [s.worker.msg]) + [] + Messages(s.queue);
    case Pause => PauseKeeps(s);
    case Join =>
    case Resume =>
  }

  // ---------------------------------------------------------------- the worker drains the queue

  /** The steps a worker takes on its own until it ends. */
  function Draining(s: LogState): seq<Action>
    decreases |s.queue|, s.worker.Holding?
  {
    if s.worker.Holding? then [Print] + Draining(Step(s, Print))
    else if s.worker.Idle? && s.queue != [] then [Take] + Draining(Step(s, Take))
    else []
  }

  /** Its own steps take the worker, from any state of the invariant, to where everything accepted is printed. */
  lemma {:induction false} WorkerDrains(s: LogState)
    requires Inv(s)
    ensures IsRun(s, Draining(s)) && forall a :: a in Draining(s) ==> a == Take || a == Print
    ensures var t := After(s, Draining(s));
            && t.printed == t.accepted == s.accepted && t.queue == []
            && t.running == s.running && t.waiting == s.waiting && t.capacity == s.capacity
            && (if s.running then t.worker == Idle else t.worker == Exited)
    decreases |s.queue|, s.worker.Holding?
  {
    if s.worker.Holding? {
      StepKeeps(s, Print);
      WorkerDrains(Step(s, Print));
      DrainingStarts(s, Print);
    } else if s.worker.Idle? && s.queue != [] {
      StepKeeps(s, Take);
      WorkerDrains(Step(s, Take));
      DrainingStarts(s, Take);
    }
  }

  /** So a controller waiting in pause() is released after finitely many worker steps. */
  lemma WorkerEnds(s: LogState)
    requires Inv(s) && s.waiting
    ensures IsRun(s, Draining(s)) && Enabled(After(s, Draining(s)), Join)
    ensures After(s, Draining(s)).printed == s.accepted
  {
    WorkerDrains(s);
  }

  lemma DrainingStarts(s: LogState, a: Action)
    requires Draining(s) == [a] + Draining(Step(s, a))
    ensures Draining(s)[1..] == Draining(Step(s, a))
    ensures After(s, Draining(s)) == After(Step(s, a), Draining(Step(s, a)))
    ensures IsRun(s, Draining(s)) <==> Enabled(s, a) && IsRun(Step(s, a), Draining(Step(s, a)))
  {
  }

  // ---------------------------------------------------------------- pausing a full ring

  /** The end marker is lost, the queue reads as empty, and nothing can happen any more except one last print. */
  ghost predicate Stuck(s: LogState) {
    s.waiting && !s.running && !s.worker.Exited? && s.queue == []
  }

  lemma FullPauseSticks(s: LogState)
    requires Inv(s) && s.running && Full(s)
    ensures Stuck(Step(s, Pause))
  {
  }

  /** Whatever happens from there, pause() never returns, and the queued messages are never printed. */
  lemma {:induction false} StuckForever(s: LogState, actions: seq<Action>)
    requires Stuck(s) && IsRun(s, actions)
    ensures var t := After(s, actions);
            Stuck(t) && !Enabled(t, Join) && t.accepted == s.accepted
            && t.printed + InHand(t.worker) == s.printed + InHand(s.worker)
    decreases |actions|
  {
    if actions != [] {
      StuckForever(Step(s, actions[0]), actions[1..]);
    }
  }

  /** A run keeps the invariant exactly when none of its pauses finds the ring one entry short of full. */
  lemma {:induction false} RunExact(s: LogState, actions: seq<Action>)
    requires Inv(s) && IsRun(s, actions)
    ensures Inv(After(s, actions)) <==> NeverPausedFull(s, actions)
    decreases |actions|
  {
    if actions != [] {
      var next := Step(s, actions[0]);
      if actions[0].Pause? && s.running && Full(s) {
        FullPauseSticks(s);
        StuckForever(next, actions[1..]);
      } else {
        StepKeeps(s, actions[0]);
        RunExact(next, actions[1..]);
      }
    }
  }

  /** What every run keeps, full pauses included: the invariant, or the lost queue with what came out before it. */
  ghost predicate Sound(s: LogState) {
    Inv(s) || (Stuck(s) && s.printed + InHand(s.worker) <= s.accepted)
  }

  lemma {:induction false} RunSound(s: LogState, actions: seq<Action>)
    requires Sound(s) && IsRun(s, actions)
    ensures Sound(After(s, actions))
    decreases |actions|
  {
    if actions != [] {
      if Inv(s) && !(actions[0].Pause? && s.running && Full(s)) {
        StepKeeps(s, actions[0]);
      } else if Inv(s) {
        FullPauseSticks(s);
        assert s.printed + InHand(s.worker) <= s.accepted;
      }
      RunSound(Step(s, actions[0]), actions[1..]);
    }
  }

  /**
   * Whenever pause() returns, the worker having been joined or the log having been paused already, everything accepted
   * has been printed, in order.
   */
  lemma PausedMeansPrinted(capacity: nat, actions: seq<Action>)
    requires capacity > 0 && IsRun(Start(capacity), actions)
    requires var s := After(Start(capacity), actions); Enabled(s, Join) || (!s.running && !s.waiting)
    ensures var s := After(Start(capacity), actions); s.printed == s.accepted && s.queue == []
  {
    StartInv(capacity);
    RunSound(Start(capacity), actions);
  }

  /** At every moment of every run what is printed is an initial part of what was accepted. */
  lemma PrintedIsPrefix(capacity: nat, actions: seq<Action>)
    requires capacity > 0 && IsRun(Start(capacity), actions)
    ensures var s := After(Start(capacity), actions); s.printed <= s.accepted
  {
    StartInv(capacity);
    RunSound(Start(capacity), actions);
    var s := After(Start(capacity), actions);
    assert s.printed <= s.printed + InHand(s.worker);
  }

  // ---------------------------------------------------------------- pausing and resuming

  lemma {:induction false} RunOfTwo(s: LogState, p: seq<Action>, q: seq<Action>)
    ensures IsRun(s, p + q) <==> IsRun(s, p) && IsRun(After(s, p), q)
    ensures After(s, p + q) == After(After(s, p), q)
    decreases |p|
  {
    if p == [] {
      assert p + q == q;
    } else {
      assert (p + q)[1..] == p[1..] + q;
      RunOfTwo(Step(s, p[0]), p[1..], q);
    }
  }

  lemma RunOfOne(s: LogState, a: Action)
    ensures IsRun(s, [a]) <==> Enabled(s, a)
    ensures After(s, [a]) == Step(s, a)
  {
  }

  /** A running log takes a message in behind all others, and a paused one drops it. */
  lemma AddOnlyWhileRunning(s: LogState, msg: Message)
    ensures !s.running ==> Step(s, Add(msg)) == s
    ensures s.running ==>
              var t := Step(s, Add(msg));
              && t.running && t.accepted == s.accepted + [msg] && Messages(t.queue) == Messages(s.queue) + [msg]
              && t.worker == s.worker && t.printed == s.printed && t.waiting == s.waiting
              && (t.capacity == 2 * s.capacity <==> |t.queue| == s.capacity || s.capacity == 0)
              && (t.capacity == s.capacity <==> |t.queue| != s.capacity || s.capacity == 0)
  {
    MessagesAppend(s.queue, [Entry(msg, false)]);
    assert Messages([Entry(msg, false)]) == [msg];
  }

  /** A pause stops a running log: messages that come later are dropped until it is resumed. */
  lemma PauseStops(s: LogState, msg: Message)
    requires s.running
    ensures var t := Step(s, Pause);
            !t.running && t.waiting && t.accepted == s.accepted && t.printed == s.printed && t.worker == s.worker &&
            Messages(t.queue) == (if Full(s) then [] else Messages(s.queue)) && Step(t, Add(msg)) == t
  {
    MessagesAppend(s.queue, [Entry("", true)]);
    assert Messages([Entry("", true)]) == [];
  }

  /**
   * In every state of a run in which the controller can resume, it ends up with a running log that has lost nothing.
   */
  lemma ResumedRuns(capacity: nat, actions: seq<Action>)
    requires capacity > 0 && IsRun(Start(capacity), actions) && Enabled(After(Start(capacity), actions), Resume)
    ensures var s := After(Start(capacity), actions);
            var t := Step(s, Resume);
            && Inv(t) && t.running && !t.worker.Exited? && !t.waiting && (s.running ==> t == s)
            && t.queue == s.queue && t.capacity == s.capacity && t.accepted == s.accepted && t.printed == s.printed
  {
    StartInv(capacity);
    RunSound(Start(capacity), actions);
  }

  /** A message that follows is accepted, and the worker's own steps then print everything including it. */
  lemma ResumedPrints(capacity: nat, actions: seq<Action>, msg: Message)
    requires capacity > 0 && IsRun(Start(capacity), actions) && Enabled(After(Start(capacity), actions), Resume)
    ensures var s := After(Start(capacity), actions);
            var t := Step(Step(s, Resume), Add(msg));
            && t.accepted == s.accepted + [msg]
            && exists own :: IsRun(t, own) && (forall a :: a in own ==> a == Take || a == Print) &&
                             After(t, own).printed == s.accepted + [msg]
  {
    hide Step, Enabled;
    var s := After(Start(capacity), actions);
    ResumedRuns(capacity, actions);
    var r := Step(s, Resume);
    AddKeeps(r, msg);
    AddOnlyWhileRunning(r, msg);
    WorkerDrains(Step(r, Add(msg)));
  }

  /** A pause that does not find the ring full, the worker's steps, the join, and a resumption. */
  function PauseAndResume(s: LogState): seq<Action> {
    [Pause] + Draining(Step(s, Pause)) + [Join, Resume]
  }

  /** That much can always happen, and leaves a running log with nothing queued and everything printed. */
  lemma PauseThenResume(s: LogState)
    requires Inv(s) && s.running && !Full(s)
    ensures IsRun(s, PauseAndResume(s))
    ensures var t := After(s, PauseAndResume(s));
            t == s.(queue := [], worker := Idle, printed := s.accepted)
  {
    var paused := Step(s, Pause);
    PauseKeeps(s);
    PauseStops(s, "");
    WorkerDrains(paused);
    RunOfTwo(paused, Draining(paused), [Join, Resume]);
    assert [Join, Resume][1..] == [Resume];
    RunOfOne(Step(After(paused, Draining(paused)), Join), Resume);
    assert PauseAndResume(s)[1..] == Draining(paused) + [Join, Resume];
  }

  function Adds(msg: Message, n: nat): seq<Action> { seq(n, _ => Add(msg)) }

  function Filled(capacity: nat, msg: Message, n: nat): LogState {
    LogState(seq(n, _ => Entry(msg, false)), capacity, true, Idle, false, seq(n, _ => msg), [])
  }

  /** A ring of any size gets there: one message fewer than it has slots, and a pause before the worker takes one. */
  lemma FullPauseReachable(capacity: nat, msg: Message)
    requires capacity > 0
    ensures var adds := Adds(msg, capacity - 1);
            IsRun(Start(capacity), adds) && After(Start(capacity), adds) == Filled(capacity, msg, capacity - 1)
    ensures Filled(capacity, msg, capacity - 1).running && Full(Filled(capacity, msg, capacity - 1))
  {
    assert Start(capacity) == Filled(capacity, msg, 0);
    FillRun(capacity, msg, 0, capacity - 1);
  }

  lemma {:induction false} FillRun(capacity: nat, msg: Message, done: nat, more: nat)
    requires done + more < capacity
    ensures IsRun(Filled(capacity, msg, done), Adds(msg, more))
    ensures After(Filled(capacity, msg, done), Adds(msg, more)) == Filled(capacity, msg, done + more)
    decreases more
  {
    var s, adds := Filled(capacity, msg, done), Adds(msg, more);
    if more > 0 {
      assert adds[1..] == Adds(msg, more - 1);
      assert s.queue + [Entry(msg, false)] == Filled(capacity, msg, done + 1).queue;
      assert s.accepted + [msg] == Filled(capacity, msg, done + 1).accepted;
      FillRun(capacity, msg, done + 1, more - 1);
    }
  }
}
