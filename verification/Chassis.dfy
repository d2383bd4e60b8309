/**
  The speed-command handshake: the UDP dispatcher stores a setpoint, sets a flag and posts
  a semaphore; the chassis task waits, clears the flag and reads the setpoint; a timer
  signal sets another flag and may interrupt the wait. Nothing is locked.

  One state machine step is one read or write of shared data, so every interleaving of the
  three is a run of the machine. All results hold over every run.
 */
module Chassis {

  import opened Wire
  import opened NavSpeed

  /** A number together with the command that stored it; command 0 is the constructor. */
  datatype Stamped = Stamped(value: nat, cmd: nat)

  /** The three numbers of a setpoint, each stored, read or sent on its own. */
  datatype Triple = Triple(x: Stamped, y: Stamped, w: Stamped)

  /** Where chassisCmdHandler is: idle, or about to do the named thing. */
  datatype Dispatcher = Idle | WritingY | WritingW | Flagging | Posting

  /** Where the chassis task is. */
  datatype Task =
    | Waiting                // in sem_wait
    | TestingSpeed           // about to test bNewSpeedCmd
    | ClearingSpeed          // found it set, about to clear it
    | TestingOdo
    | ClearingOdo
    | Returning              // about to return currentCmd and branch on it
    | ReadingX | ReadingY | ReadingW
    | Sending                // all three read
    | Querying               // sendQueryCmd
    | AwaitingReply          // waitCmdRet

  datatype State = State(
    cmds: seq<Setpoint>,                          // every setpoint received so far
    store: Triple,                                // ori_global_X, _Y, _W
    newSpeed: bool, odo: bool, sem: nat,          // bNewSpeedCmd, bOdoCmd, cmdSem
    current: nat,                                 // currentCmd
    dispatcher: Dispatcher, task: Task,
    read: Triple,                                 // planarVel inside sendSpeedCmd
    sent: Triple,                                 // the last setpoint sent down
    sends: nat)

  datatype Event =
    | Command(p: Setpoint)   // the handler starts and writes X
    | Dispatch               // the handler's next step
    | Timer                  // timer_expiration
    | Wake                   // sem_wait takes a count
    | Interrupt              // sem_wait returns EINTR
    | Work                   // the task's next step outside sem_wait and waitCmdRet
    | Reply                  // waitCmdRet returns

  function Start(): State {
    var zero := Stamped(0, 0);
    var zeros := Triple(zero, zero, zero);
    State([], zeros, false, false, 0, 0, Idle, Waiting, zeros, zeros, 0)
  }

  predicate Enabled(s: State, e: Event) {
    match e
    case Command(_) => s.dispatcher.Idle?
    case Dispatch => !s.dispatcher.Idle?
    case Timer => true
    case Wake => s.task.Waiting? && s.sem > 0
    case Interrupt => s.task.Waiting?
    case Work => !s.task.Waiting? && !s.task.AwaitingReply?
    case Reply => s.task.AwaitingReply?
  }

  function DispatcherStep(s: State): State
    requires !s.dispatcher.Idle?
  {
    var n := |s.cmds|;
    match s.dispatcher
    case WritingY =>
      s.(store := s.store.(y := Stamped(if n > 0 then s.cmds[n - 1].y else 0, n)), dispatcher := WritingW)
    case WritingW =>
      s.(store := s.store.(w := Stamped(if n > 0 then s.cmds[n - 1].w else 0, n)), dispatcher := Flagging)
    case Flagging => s.(newSpeed := true, dispatcher := Posting)
    case Posting => s.(sem := s.sem + 1, dispatcher := Idle)
  }

  function TaskStep(s: State): State
    requires !s.task.Waiting? && !s.task.AwaitingReply?
  {
    match s.task
    case TestingSpeed => s.(task := if s.newSpeed then ClearingSpeed else TestingOdo)
    case ClearingSpeed => s.(newSpeed := false, current := 1, task := Returning)
    case TestingOdo => s.(task := if s.odo then ClearingOdo else Returning)
    case ClearingOdo => s.(odo := false, current := 2, task := Returning)
    case Returning => s.(task := if s.current == 1 then ReadingX else if s.current == 2 then Querying else Waiting)
    case ReadingX => s.(read := s.read.(x := s.store.x), task := ReadingY)
    case ReadingY => s.(read := s.read.(y := s.store.y), task := ReadingW)
    case ReadingW => s.(read := s.read.(w := s.store.w), task := Sending)
    case Sending => s.(sent := s.read, sends := s.sends + 1, task := AwaitingReply)
    case Querying => s.(task := AwaitingReply)
  }

  function Apply(s: State, e: Event): State
    requires Enabled(s, e)
  {
    match e
    case Command(p) =>
      s.(cmds := s.cmds + [p], store := s.store.(x := Stamped(p.x, |s.cmds| + 1)), dispatcher := WritingY)
    case Dispatch => DispatcherStep(s)
    case Timer => s.(odo := true)
    case Wake => s.(sem := s.sem - 1, task := TestingSpeed)
    case Interrupt => if s.odo then s.(task := TestingSpeed) else s
    case Work => TaskStep(s)
    case Reply => s.(task := Waiting)
  }

  predicate Runs(s: State, es: seq<Event>)
    decreases |es|
  {
    es == [] || (Enabled(s, es[0]) && Runs(Apply(s, es[0]), es[1..]))
  }

  function Run(s: State, es: seq<Event>): State
    requires Runs(s, es)
    decreases |es|
  {
    if es == [] then s else Run(Apply(s, es[0]), es[1..])
  }

  // ---------------------------------------------------------------------------
  // What every step keeps
  // ---------------------------------------------------------------------------

  /** How many commands have set the flag. */
  function Flagged(s: State): nat {
    if s.dispatcher.Idle? || s.dispatcher.Posting? || s.cmds == [] then |s.cmds| else |s.cmds| - 1
  }

  /** What the send under way carries in each component, or the last send if none is. */
  function CarriedX(s: State): Stamped {
    if (s.task.Returning? && s.current == 1) || s.task.ReadingX? then s.store.x
    else if s.task.ReadingY? || s.task.ReadingW? || s.task.Sending? then s.read.x else s.sent.x
  }

  function CarriedY(s: State): Stamped {
    if (s.task.Returning? && s.current == 1) || s.task.ReadingX? || s.task.ReadingY? then s.store.y
    else if s.task.ReadingW? || s.task.Sending? then s.read.y else s.sent.y
  }

  function CarriedW(s: State): Stamped {
    if (s.task.Returning? && s.current == 1) || s.task.ReadingX? || s.task.ReadingY? || s.task.ReadingW? then s.store.w
    else if s.task.Sending? then s.read.w else s.sent.w
  }

  /** Each stamp is that component of a setpoint that was received, or the initial zero. */
  predicate Genuine(cmds: seq<Setpoint>, c: Triple) {
    && c.x.cmd <= |cmds| && c.x.value == (if c.x.cmd == 0 then 0 else cmds[c.x.cmd - 1].x)
    && c.y.cmd <= |cmds| && c.y.value == (if c.y.cmd == 0 then 0 else cmds[c.y.cmd - 1].y)
    && c.w.cmd <= |cmds| && c.w.value == (if c.w.cmd == 0 then 0 else cmds[c.w.cmd - 1].w)
  }

  predicate AllGenuine(s: State) {
    Genuine(s.cmds, s.store) && Genuine(s.cmds, s.read) && Genuine(s.cmds, s.sent)
  }

  /** How far the stored components are, by the dispatcher's position. */
  predicate Stored(s: State) {
    var n := |s.cmds|;
    && (!s.dispatcher.Idle? ==> n > 0)
    && s.store.x.cmd == n
    && s.store.y.cmd == (if s.dispatcher.WritingY? then n - 1 else n)
    && s.store.w.cmd == (if s.dispatcher.WritingY? || s.dispatcher.WritingW? then n - 1 else n)
  }

  /** With the flag clear, the send under way or the last one is not older than any flagged command. */
  predicate NothingLost(s: State) {
    !s.newSpeed ==>
      CarriedX(s).cmd >= Flagged(s) && CarriedY(s).cmd >= Flagged(s) && CarriedW(s).cmd >= Flagged(s)
  }

  /** With the flag set, a wake-up is in the semaphore, on its way, or being acted on. */
  predicate WakeupPending(s: State) {
    s.newSpeed ==>
      s.sem > 0 || s.dispatcher.Posting? || s.task.TestingSpeed? || s.task.ClearingSpeed?
  }

  predicate Inv(s: State) {
    AllGenuine(s) && Stored(s) && NothingLost(s) && WakeupPending(s)
  }

  /** Received setpoints are never changed, so stamps stay genuine. */
  lemma GenuineGrows(cmds: seq<Setpoint>, p: Setpoint, c: Triple)
    requires Genuine(cmds, c)
    ensures Genuine(cmds + [p], c)
  {
  }

  lemma StepKeepsGenuine(s: State, e: Event)
    requires AllGenuine(s) && Stored(s) && Enabled(s, e)
    ensures AllGenuine(Apply(s, e))
  {
    hide Stored;
    match e {
      case Command(p) =>
        StoredBounds(s);
        GenuineGrows(s.cmds, p, s.store);
        GenuineGrows(s.cmds, p, s.read);
        GenuineGrows(s.cmds, p, s.sent);
      case Dispatch => DispatchKeepsGenuine(s);
      case Work => ReadKeepsGenuine(s);
      case _ =>
    }
  }

  lemma DispatchKeepsGenuine(s: State)
    requires Genuine(s.cmds, s.store) && Stored(s) && Enabled(s, Dispatch)
    ensures var t := DispatcherStep(s);
            Genuine(t.cmds, t.store) && t.cmds == s.cmds && t.read == s.read && t.sent == s.sent
  {
    match s.dispatcher {
      case WritingY =>
      case WritingW =>
      case Flagging =>
      case Posting =>
    }
  }

  lemma ReadKeepsGenuine(s: State)
    requires AllGenuine(s) && Enabled(s, Work)
    ensures AllGenuine(TaskStep(s))
  {
    if !s.task.ReadingX? && !s.task.ReadingY? && !s.task.ReadingW? {
      hide Genuine;
      var t := TaskStep(s);
      assert t.cmds == s.cmds && t.store == s.store && t.read == s.read && (t.sent == s.sent || t.sent == s.read);
    }
  }

  lemma StepKeepsStored(s: State, e: Event)
    requires Stored(s) && Enabled(s, e)
    ensures Stored(Apply(s, e))
  {
    match e {
      case Dispatch => { match s.dispatcher { case WritingY => case WritingW => case Flagging => case Posting => } }
      case Work => { match s.task { case _ => } }
      case _ =>
    }
  }

  lemma StepKeepsNothingLost(s: State, e: Event)
    requires Stored(s) && NothingLost(s) && Enabled(s, e)
    ensures NothingLost(Apply(s, e))
  {
    hide Stored;
    StoredBounds(s);
    match e {
      case Command(p) =>
      case Dispatch => { match s.dispatcher { case WritingY => case WritingW => case Flagging => case Posting => } }
      case Work => TaskKeepsNothingLost(s);
      case _ =>
    }
  }

  lemma StoredBounds(s: State)
    requires Stored(s)
    ensures s.store.x.cmd >= Flagged(s) && s.store.y.cmd >= Flagged(s) && s.store.w.cmd >= Flagged(s)
    ensures !s.dispatcher.Idle? ==> s.cmds != []
    ensures s.store.x.cmd == |s.cmds| && s.store.y.cmd <= |s.cmds| && s.store.w.cmd <= |s.cmds|
  {
  }

  lemma TaskKeepsNothingLost(s: State)
    requires Stored(s) && NothingLost(s) && Enabled(s, Work)
    ensures NothingLost(TaskStep(s))
  {
    hide Stored;
    StoredBounds(s);
    match s.task {
      case TestingSpeed =>
      case ClearingSpeed =>
      case TestingOdo =>
      case ClearingOdo =>
      case Returning =>
      case ReadingX =>
      case ReadingY =>
      case ReadingW =>
      case Sending =>
      case Querying =>
    }
  }

  lemma StepKeepsWakeup(s: State, e: Event)
    requires WakeupPending(s) && Enabled(s, e)
    ensures WakeupPending(Apply(s, e))
  {
    match e {
      case Dispatch => { match s.dispatcher { case WritingY => case WritingW => case Flagging => case Posting => } }
      case Work => { match s.task { case TestingSpeed => case ClearingSpeed => case _ => } }
      case _ =>
    }
  }

  /** Every step of every actor, in any order, keeps the invariant. */
  lemma StepKeepsInv(s: State, e: Event)
    requires Inv(s) && Enabled(s, e)
    ensures Inv(Apply(s, e))
  {
    hide AllGenuine, Stored, NothingLost, WakeupPending, Apply, Enabled;
    StepKeepsGenuine(s, e);
    StepKeepsStored(s, e);
    StepKeepsNothingLost(s, e);
    StepKeepsWakeup(s, e);
  }

  lemma {:induction false} RunKeepsInv(s: State, es: seq<Event>)
    requires Inv(s) && Runs(s, es)
    ensures Inv(Run(s, es))
    decreases |es|
  {
    if es != [] {
      StepKeepsInv(s, es[0]);
      RunKeepsInv(Apply(s, es[0]), es[1..]);
    }
  }

  // ---------------------------------------------------------------------------
  // The results
  // ---------------------------------------------------------------------------

  /**
    No setpoint is lost: once command k has set its flag, either the flag is still set, or
    every component of the send under way (or of the last one) is from command k or a later
    one. Every component sent is one that was received.
   */
  lemma NoSetpointLost(es: seq<Event>, k: nat)
    requires Runs(Start(), es)
    requires k <= Flagged(Run(Start(), es))
    ensures var s := Run(Start(), es);
            && (s.newSpeed || (k <= CarriedX(s).cmd && k <= CarriedY(s).cmd && k <= CarriedW(s).cmd))
            && Genuine(s.cmds, s.sent)
  {
    RunKeepsInv(Start(), es);
  }

  /** At rest the last setpoint sent is exactly the last one received. */
  lemma AtRestTheLatestWasSent(es: seq<Event>)
    requires Runs(Start(), es)
    ensures var s := Run(Start(), es);
            s.task.Waiting? && s.dispatcher.Idle? && !s.newSpeed && s.cmds != [] ==>
              Setpoint(s.sent.x.value, s.sent.y.value, s.sent.w.value) == s.cmds[|s.cmds| - 1]
  {
    RunKeepsInv(Start(), es);
  }

  /** The task never sleeps on an empty semaphore with a command pending and no post to come. */
  lemma NeverAsleepOnACommand(es: seq<Event>)
    requires Runs(Start(), es)
    ensures var s := Run(Start(), es);
            s.task.Waiting? && s.newSpeed && s.sem == 0 ==> s.dispatcher.Posting?
  {
    RunKeepsInv(Start(), es);
  }

  // ---------------------------------------------------------------------------
  // How soon a setpoint is sent
  // ---------------------------------------------------------------------------

  /** Whether the event moves the task on; an interrupt without an odometry request does not. */
  predicate Moves(s: State, e: Event) {
    e.Wake? || e.Work? || e.Reply? || (e.Interrupt? && s.odo)
  }

  function TaskMoves(s: State, es: seq<Event>): nat
    requires Runs(s, es)
    decreases |es|
  {
    if es == [] then 0 else (if Moves(s, es[0]) then 1 else 0) + TaskMoves(Apply(s, es[0]), es[1..])
  }

  predicate NotOlder(c: Triple, k: nat) {
    k <= c.x.cmd && k <= c.y.cmd && k <= c.w.cmd
  }

  /** Somewhere in the run a setpoint is sent no part of which is older than command `k`. */
  predicate Delivers(s: State, es: seq<Event>, k: nat)
    requires Runs(s, es)
    decreases |es|
  {
    es != [] && ((s.task.Sending? && es[0].Work? && NotOlder(s.read, k)) || Delivers(Apply(s, es[0]), es[1..], k))
  }

  /** The task is on its way to such a send. */
  predicate Committed(s: State, k: nat) {
    && ((s.task.Returning? && s.current == 1) || s.task.ReadingX? || s.task.ReadingY?
        || s.task.ReadingW? || s.task.Sending?)
    && NotOlder(Triple(CarriedX(s), CarriedY(s), CarriedW(s)), k)
  }

  /** Moves left until the flag is cleared, at most. */
  function ToClearing(task: Task): nat {
    match task
    case ClearingSpeed => 1
    case TestingSpeed => 2
    case Waiting => 3
    case AwaitingReply => 4
    case Sending => 5
    case Querying => 5
    case ReadingW => 6
    case ReadingY => 7
    case ReadingX => 8
    case Returning => 9
    case ClearingOdo => 10
    case TestingOdo => 11
  }

  function ToSending(task: Task): nat {
    match task
    case Sending => 1
    case ReadingW => 2
    case ReadingY => 3
    case ReadingX => 4
    case _ => 5
  }

  function Rank(s: State, k: nat): (r: nat)
    ensures 1 <= r <= 16
  {
    if Committed(s, k) then ToSending(s.task) else ToClearing(s.task) + 5
  }

  /** The command is still flagged, or its send has begun. */
  predicate Due(s: State, k: nat) {
    k <= Flagged(s) && (s.newSpeed || Committed(s, k))
  }

  /** Events that leave the task where it is only make the stored stamps newer. */
  lemma OthersKeepDue(s: State, e: Event, k: nat)
    requires Stored(s) && Enabled(s, e) && Due(s, k) && !Moves(s, e)
    ensures var t := Apply(s, e); Due(t, k) && Rank(t, k) <= Rank(s, k)
  {
    var t := Apply(s, e);
    assert t.task == s.task && t.current == s.current && t.read == s.read && (s.newSpeed ==> t.newSpeed);
    assert t.store.x.cmd >= s.store.x.cmd && t.store.y.cmd >= s.store.y.cmd && t.store.w.cmd >= s.store.w.cmd by {
      match e {
        case Dispatch => { match s.dispatcher { case WritingY => case WritingW => case Flagging => case Posting => } }
        case _ =>
      }
    }
    hide Apply, Enabled, Stored;
    assert Flagged(t) >= Flagged(s) by { OthersKeepFlags(s, e); }
    assert Committed(s, k) ==> Committed(t, k);
  }

  lemma OthersKeepFlags(s: State, e: Event)
    requires Stored(s) && Enabled(s, e) && !Moves(s, e)
    ensures Flagged(Apply(s, e)) >= Flagged(s)
  {
  }

  /** A send under way goes on step by step and carries nothing older. */
  lemma CommittedGoesOn(s: State, k: nat)
    requires Committed(s, k) && !s.task.Sending?
    ensures var t := TaskStep(s); Committed(t, k) && ToSending(t.task) < ToSending(s.task) && t.newSpeed == s.newSpeed
  {
  }

  /** A task move before the flag is cleared brings the clearing nearer; clearing it commits to a send. */
  lemma MovesBringClearingNearer(s: State, e: Event, k: nat)
    requires NothingLost(s) && Stored(s) && Enabled(s, e) && s.newSpeed && k <= Flagged(s) && Moves(s, e)
    ensures var t := Apply(s, e);
            if s.task.ClearingSpeed? then Committed(t, k) && ToSending(t.task) <= 5
            else t.newSpeed && ToClearing(t.task) < ToClearing(s.task)
  {
    if s.task.ClearingSpeed? { StepKeepsNothingLost(s, e); }
  }

  lemma MovesKeepFlagged(s: State, e: Event)
    requires Enabled(s, e) && Moves(s, e)
    ensures Flagged(Apply(s, e)) == Flagged(s)
  {
    if e.Work? { match s.task { case _ => } }
  }

  /** What one event does to a command that is due. */
  lemma StepKeepsDue(s: State, e: Event, k: nat)
    requires Inv(s) && Enabled(s, e) && Due(s, k)
    requires !(s.task.Sending? && e.Work? && NotOlder(s.read, k))
    ensures var t := Apply(s, e); Due(t, k) && Rank(t, k) + (if Moves(s, e) then 1 else 0) <= Rank(s, k)
  {
    if !Moves(s, e) {
      OthersKeepDue(s, e, k);
    } else {
      MovesKeepFlagged(s, e);
      if Committed(s, k) {
        CommittedGoesOn(s, k);
      } else {
        hide Stored, NothingLost, AllGenuine, WakeupPending, Flagged;
        MovesBringClearingNearer(s, e, k);
      }
    }
  }

  lemma {:induction false} DueIsDelivered(s: State, es: seq<Event>, k: nat)
    requires Inv(s) && Runs(s, es) && Due(s, k)
    requires Rank(s, k) <= TaskMoves(s, es)
    ensures Delivers(s, es, k)
    decreases |es|
  {
    hide Inv, Due, Rank, NotOlder, Apply, Enabled, Moves;
    if es != [] && !(s.task.Sending? && es[0].Work? && NotOlder(s.read, k)) {
      StepKeepsDue(s, es[0], k);
      StepKeepsInv(s, es[0]);
      DueIsDelivered(Apply(s, es[0]), es[1..], k);
    }
  }

  /**
    However the actors interleave: once command k has set its flag, either the last send
    already carried it or something newer in every component, or the next 16 moves of the
    task contain a send that does.
   */
  lemma DeliveredWithinSixteenMoves(es: seq<Event>, more: seq<Event>, k: nat)
    requires Runs(Start(), es) && k <= Flagged(Run(Start(), es)) && Runs(Run(Start(), es), more)
    ensures var s := Run(Start(), es);
            NotOlder(s.sent, k) || (TaskMoves(s, more) >= 16 ==> Delivers(s, more, k))
  {
    RunKeepsInv(Start(), es);
    var s := Run(Start(), es);
    if TaskMoves(s, more) >= 16 && Due(s, k) { DueIsDelivered(s, more, k); }
  }

  lemma RunNothing(s: State)
    ensures Runs(s, []) && Run(s, []) == s
  {
  }

  lemma RunStep(s: State, e: Event, es: seq<Event>, whole: seq<Event>)
    requires Enabled(s, e) && Runs(Apply(s, e), es) && whole == [e] + es
    ensures Runs(s, whole) && Run(s, whole) == Run(Apply(s, e), es)
  {
    assert whole[1..] == es;
  }

  lemma {:induction false} RunConcat(s: State, a: seq<Event>, b: seq<Event>)
    requires Runs(s, a) && Runs(Run(s, a), b)
    ensures Runs(s, a + b) && Run(s, a + b) == Run(Run(s, a), b)
    decreases |a|
  {
    if a == [] {
      assert a + b == b;
    } else {
      assert (a + b)[1..] == a[1..] + b;
      RunConcat(Apply(s, a[0]), a[1..], b);
    }
  }

  lemma WorksStep(s: State, next: State, n: nat, t: State)
    ensures WorksTo(t, 0, t)
    ensures Enabled(s, Work) && next == TaskStep(s) && WorksTo(next, n, t) ==> WorksTo(s, n + 1, t)
  {
  }

  /** A pending speed command is taken up in three steps ... */
  lemma TakeUp(s: State)
    requires s.task.TestingSpeed? && s.newSpeed
    ensures WorksTo(s, 3, s.(newSpeed := false, current := 1, task := ReadingX))
  {
  }

  /** ... and undisturbed the three reads and the send take four more. */
  lemma SendRun(s: State)
    requires s.task.ReadingX?
    ensures var t := s.(read := s.store, sent := s.store, sends := s.sends + 1, task := AwaitingReply);
            WorksTo(s, 4, t) && Runs(s, Works(4)) && Run(s, Works(4)) == t
  {
    hide Runs, Run, WorksTo;
    var t := s.(read := s.store, sent := s.store, sends := s.sends + 1, task := AwaitingReply);
    var s1 := s.(read := s.read.(x := s.store.x), task := ReadingY);
    var s2 := s1.(read := s1.read.(y := s.store.y), task := ReadingW);
    var s3 := s.(read := s.store, task := Sending);
    WorksStep(t, t, 0, t);
    WorksStep(s3, t, 0, t);
    WorksStep(s2, s3, 1, t);
    WorksStep(s1, s2, 2, t);
    WorksStep(s, s1, 3, t);
    WorksToRun(s, 4, t);
  }

  /** Left alone, a waiting task with a command pending takes it up and sends the stored setpoint. */
  lemma PendingCommandGetsSent(s: State)
    requires Inv(s) && s.newSpeed && s.task.Waiting? && s.dispatcher.Idle?
    ensures var es := [Wake] + Works(7);
            Runs(s, es)
            && Run(s, es) == s.(sem := s.sem - 1, newSpeed := false, current := 1, task := AwaitingReply,
                                read := s.store, sent := s.store, sends := s.sends + 1)
  {
    hide Runs, Run, AllGenuine, Stored, NothingLost, Works, WorksTo;
    assert s.sem > 0;
    hide Inv, WakeupPending;
    var s1 := Apply(s, Wake);
    var t := s1.(newSpeed := false, current := 1, task := AwaitingReply, read := s.store, sent := s.store,
                 sends := s.sends + 1);
    var mid := s1.(newSpeed := false, current := 1, task := ReadingX);
    TakeUp(s1);
    SendRun(mid);
    WorksToThen(s1, 3, mid, 4, t);
    WorksToRun(s1, 7, t);
    RunStep(s, Wake, Works(7), [Wake] + Works(7));
  }

  /** An odometry request that finds the task waiting becomes a query, by the signal alone. */
  lemma RequestGetsQueried(s: State)
    requires s.task.Waiting? && s.odo && !s.newSpeed
    ensures Runs(s, [Interrupt] + Works(4))
    ensures Run(s, [Interrupt] + Works(4)) == s.(odo := false, current := 2, task := Querying)
    ensures Runs(s, [Interrupt] + Works(5))
    ensures Run(s, [Interrupt] + Works(5)) == s.(odo := false, current := 2, task := AwaitingReply)
  {
    hide Runs, Run, Works, WorksTo;
    var s1 := Apply(s, Interrupt);
    QueryWorks(s1);
    WorksToRun(s1, 4, s1.(odo := false, current := 2, task := Querying));
    WorksToRun(s1, 5, s1.(odo := false, current := 2, task := AwaitingReply));
    RunStep(s, Interrupt, Works(5), [Interrupt] + Works(5));
    RunStep(s, Interrupt, Works(4), [Interrupt] + Works(4));
  }

  lemma QueryWorks(s: State)
    requires s.task.TestingSpeed? && s.odo && !s.newSpeed
    ensures WorksTo(s, 4, s.(odo := false, current := 2, task := Querying))
    ensures WorksTo(s, 5, s.(odo := false, current := 2, task := AwaitingReply))
  {
  }

  /** A wake-up left over from posts that coincided repeats the last command: it is sent, or the query made, again. */
  lemma LeftoverWakeRepeats(s: State)
    requires s.task.Waiting? && s.sem > 0 && !s.newSpeed && !s.odo
    ensures var es := [Wake] + Works(3);
            Runs(s, es)
            && Run(s, es) == s.(sem := s.sem - 1, task := if s.current == 1 then ReadingX
                                                          else if s.current == 2 then Querying else Waiting)
  {
    hide Runs, Run, Works;
    var s1 := Apply(s, Wake);
    var t := s1.(task := if s.current == 1 then ReadingX else if s.current == 2 then Querying else Waiting);
    assert WorksTo(s1, 3, t);
    WorksToRun(s1, 3, t);
    RunStep(s, Wake, Works(3), [Wake] + Works(3));
  }

  /** After each round, the reply received, the task is back in sem_wait. */
  lemma RoundsEndWaiting(s: State)
    requires Inv(s) && s.newSpeed && s.task.Waiting? && s.dispatcher.Idle?
    ensures var es := [Wake] + Works(7) + [Reply];
            Runs(s, es) && Run(s, es) == s.(sem := s.sem - 1, newSpeed := false, current := 1,
                                            read := s.store, sent := s.store, sends := s.sends + 1)
  {
    PendingCommandGetsSent(s);
    hide Runs, Run, Inv, Works;
    var t := Run(s, [Wake] + Works(7));
    RunNothing(Apply(t, Reply));
    RunStep(t, Reply, [], [Reply]);
    RunConcat(s, [Wake] + Works(7), [Reply]);
  }

  function Works(n: nat): seq<Event> {
    if n == 0 then [] else [Work] + Works(n - 1)
  }

  /** `n` steps of the task lead from `s` to `t`. */
  predicate WorksTo(s: State, n: nat, t: State)
    decreases n
  {
    if n == 0 then s == t else Enabled(s, Work) && WorksTo(TaskStep(s), n - 1, t)
  }

  lemma {:induction false} WorksToThen(s: State, a: nat, m: State, b: nat, t: State)
    requires WorksTo(s, a, m) && WorksTo(m, b, t)
    ensures WorksTo(s, a + b, t)
    decreases a
  {
    if a > 0 { WorksToThen(TaskStep(s), a - 1, m, b, t); }
  }

  lemma {:induction false} WorksToRun(s: State, n: nat, t: State)
    requires WorksTo(s, n, t)
    ensures Runs(s, Works(n)) && Run(s, Works(n)) == t
    decreases n
  {
    if n > 0 {
      WorksToRun(TaskStep(s), n - 1, t);
      RunStep(s, Work, Works(n - 1), Works(n));
    }
  }

  // ---------------------------------------------------------------------------
  // What does not hold
  // ---------------------------------------------------------------------------

  /** One whole command, from the handler's start to its post. */
  function Handler(p: Setpoint): seq<Event> {
    [Command(p), Dispatch, Dispatch, Dispatch, Dispatch]
  }

  lemma {:induction false} HandlerRun(s: State, p: Setpoint)
    requires s.dispatcher.Idle?
    ensures Runs(s, Handler(p))
    ensures var n := |s.cmds| + 1;
            Run(s, Handler(p)) == s.(cmds := s.cmds + [p],
                                     store := Triple(Stamped(p.x, n), Stamped(p.y, n), Stamped(p.w, n)),
                                     newSpeed := true, sem := s.sem + 1)
  {
    hide Runs, Run;
    var s1 := Apply(s, Command(p));
    var s2 := DispatcherStep(s1);
    var s3 := DispatcherStep(s2);
    var s4 := DispatcherStep(s3);
    var s5 := DispatcherStep(s4);
    RunNothing(Apply(s4, Dispatch));
    RunStep(s4, Dispatch, [], [Dispatch]);
    RunStep(s3, Dispatch, [Dispatch], [Dispatch, Dispatch]);
    RunStep(s2, Dispatch, [Dispatch, Dispatch], [Dispatch, Dispatch, Dispatch]);
    RunStep(s1, Dispatch, [Dispatch, Dispatch, Dispatch], [Dispatch, Dispatch, Dispatch, Dispatch]);
    RunStep(s, Command(p), [Dispatch, Dispatch, Dispatch, Dispatch],
      [Command(p), Dispatch, Dispatch, Dispatch, Dispatch]);
  }

  /**
    A setpoint can be sent torn: the task reads X, the next command's first write comes in,
    and the task reads the rest. (The flag is then still to be set, so a whole one follows.)
   */
  lemma SendCanBeTorn(p: Setpoint, q: Setpoint)
    ensures var es := [Wake] + Works(4) + [Command(q), Dispatch] + Works(3);
            Runs(Start(), Handler(p) + es) && var s := Run(Start(), Handler(p) + es);
            (s.sent.x.value, s.sent.y.value, s.sent.w.value) == (p.x, q.y, p.w)
  {
    hide Runs, Run;
    var s0 := Start();
    HandlerRun(s0, p);
    var s1 := Run(s0, Handler(p));
    var s2 := Apply(s1, Wake);
    var s3 := s2.(newSpeed := false, current := 1, read := s2.read.(x := s2.store.x), task := ReadingY);
    var taken := s2.(newSpeed := false, current := 1, task := ReadingX);
    TakeUp(s2);
    assert WorksTo(taken, 1, s3);
    WorksToThen(s2, 3, taken, 1, s3);
    WorksToRun(s2, 4, s3);
    RunStep(s1, Wake, Works(4), [Wake] + Works(4));
    var s4 := Apply(s3, Command(q));
    var s5 := DispatcherStep(s4);
    RunNothing(s5);
    RunStep(s4, Dispatch, [], [Dispatch]);
    RunStep(s3, Command(q), [Dispatch], [Command(q), Dispatch]);
    var mixed := Triple(s1.store.x, s5.store.y, s1.store.w);
    var s6 := s5.(read := mixed, sent := mixed, sends := s5.sends + 1, task := AwaitingReply);
    assert WorksTo(s5, 3, s6);
    WorksToRun(s5, 3, s6);
    RunConcat(s1, [Wake] + Works(4), [Command(q), Dispatch]);
    RunConcat(s1, [Wake] + Works(4) + [Command(q), Dispatch], Works(3));
    RunConcat(s0, Handler(p), [Wake] + Works(4) + [Command(q), Dispatch] + Works(3));
  }

  // ---------------------------------------------------------------------------
  // Exactly when a send is whole
  // ---------------------------------------------------------------------------

  /** All three numbers were stored by the same command. */
  predicate OneCommand(c: Triple) {
    c.x.cmd == c.y.cmd == c.w.cmd
  }

  /** How many commands have stored their Y, and their W, so far. (X is stored as a command starts.) */
  function StoredY(s: State): int {
    |s.cmds| - if s.dispatcher.WritingY? then 1 else 0
  }

  function StoredW(s: State): int {
    |s.cmds| - if s.dispatcher.WritingY? || s.dispatcher.WritingW? then 1 else 0
  }

  /** The state in which the task took its last step from `stage` in a run from the start. */
  function LastAt(es: seq<Event>, stage: Task): State
    requires Runs(Start(), es)
    decreases |es|
  {
    if es == [] then Start()
    else
      var before := es[..|es| - 1];
      RunLast(Start(), es);
      var s := Run(Start(), before);
      if es[|es| - 1].Work? && s.task == stage then s else LastAt(before, stage)
  }

  lemma {:induction false} RunLast(s: State, es: seq<Event>)
    requires Runs(s, es) && es != []
    ensures var before, e := es[..|es| - 1], es[|es| - 1];
            Runs(s, before) && Enabled(Run(s, before), e) && Run(s, es) == Apply(Run(s, before), e)
    decreases |es|
  {
    if |es| > 1 {
      assert es[1..][..|es| - 2] == es[..|es| - 1][1..];
      RunLast(Apply(s, es[0]), es[1..]);
    }
  }

  lemma {:induction false} LastAtStored(es: seq<Event>, stage: Task)
    requires Runs(Start(), es)
    ensures Stored(LastAt(es, stage))
    decreases |es|
  {
    if es != [] {
      RunLast(Start(), es);
      RunKeepsInv(Start(), es[..|es| - 1]);
      LastAtStored(es[..|es| - 1], stage);
    }
  }

  /** What is in planarVel was read from the store in the last states at X, Y and W. */
  lemma {:induction false} ReadsAreTied(es: seq<Event>)
    requires Runs(Start(), es)
    ensures var s := Run(Start(), es);
            && (s.task.ReadingY? || s.task.ReadingW? || s.task.Sending? ==> s.read.x == LastAt(es, ReadingX).store.x)
            && (s.task.ReadingW? || s.task.Sending? ==> s.read.y == LastAt(es, ReadingY).store.y)
            && (s.task.Sending? ==> s.read.w == LastAt(es, ReadingW).store.w)
    decreases |es|
  {
    if es != [] {
      var before, e := es[..|es| - 1], es[|es| - 1];
      RunLast(Start(), es);
      ReadsAreTied(before);
      var s := Run(Start(), before);
      hide Runs, Run;
      StepTiesReads(s, e);
    }
  }

  /** How one event moves the task through the three reads. */
  lemma StepTiesReads(s: State, e: Event)
    requires Enabled(s, e)
    ensures var t := Apply(s, e);
            && (t.task.ReadingY? ==> if e.Work? && s.task.ReadingX? then t.read.x == s.store.x
                                     else s.task.ReadingY? && t.read == s.read && !e.Work?)
            && (t.task.ReadingW? ==> if e.Work? && s.task.ReadingY? then t.read.x == s.read.x && t.read.y == s.store.y
                                     else s.task.ReadingW? && t.read == s.read && !e.Work?)
            && (t.task.Sending? ==> if e.Work? && s.task.ReadingW?
                                    then t.read.x == s.read.x && t.read.y == s.read.y && t.read.w == s.store.w
                                    else s.task.Sending? && t.read == s.read && !e.Work?)
  {
    match e {
      case Dispatch => { match s.dispatcher { case WritingY => case WritingW => case Flagging => case Posting => } }
      case Work => { match s.task { case _ => } }
      case _ =>
    }
  }

  /**
    Every send of every run: it is one command's exactly when as many commands had stored
    their X at the read of X as had stored their Y at the read of Y and their W at the read
    of W, that is, when no command's stores fall between the reads. Then it is that
    command's setpoint, or the zeros of the start.
   */
  lemma {:induction false} SendIsWholeExactly(es: seq<Event>)
    requires Runs(Start(), es) && Run(Start(), es).task.Sending?
    ensures var s := Run(Start(), es);
            var sx, sy, sw := LastAt(es, ReadingX), LastAt(es, ReadingY), LastAt(es, ReadingW);
            && TaskStep(s).sent == Triple(sx.store.x, sy.store.y, sw.store.w)
            && (OneCommand(TaskStep(s).sent) <==> |sx.cmds| == StoredY(sy) == StoredW(sw))
            && (OneCommand(TaskStep(s).sent) && |sx.cmds| > 0 ==>
                  |sx.cmds| <= |s.cmds|
                  && Setpoint(s.read.x.value, s.read.y.value, s.read.w.value) == s.cmds[|sx.cmds| - 1])
  {
    ReadsAreTied(es);
    LastAtStored(es, ReadingX);
    LastAtStored(es, ReadingY);
    LastAtStored(es, ReadingW);
    RunKeepsInv(Start(), es);
    hide Runs, Run, LastAt, NothingLost, WakeupPending, Stored, Genuine;
    WholeExactly(Run(Start(), es), LastAt(es, ReadingX), LastAt(es, ReadingY), LastAt(es, ReadingW));
  }

  lemma WholeExactly(s: State, sx: State, sy: State, sw: State)
    requires Stored(s) && Stored(sx) && Stored(sy) && Stored(sw) && Genuine(s.cmds, s.read)
    requires s.read == Triple(sx.store.x, sy.store.y, sw.store.w)
    ensures OneCommand(s.read) <==> |sx.cmds| == StoredY(sy) == StoredW(sw)
    ensures OneCommand(s.read) && |sx.cmds| > 0 ==>
              |sx.cmds| <= |s.cmds|
              && Setpoint(s.read.x.value, s.read.y.value, s.read.w.value) == s.cmds[|sx.cmds| - 1]
  {
  }

  /**
    The odometry request has no such guarantee: a timer signal that arrives while the task
    is busy leaves it asleep with bOdoCmd set and nothing to wake it.
   */
  lemma OdometryCanBeMissed()
    ensures var es := [Timer, Interrupt] + Works(5) + [Timer, Reply];
            Runs(Start(), es) && var s := Run(Start(), es);
            s.task.Waiting? && s.odo && s.sem == 0 && s.dispatcher.Idle?
  {
    hide Runs, Run;
    var s1 := Apply(Start(), Timer);
    var s2 := Apply(s1, Interrupt);
    RunNothing(s2);
    RunStep(s1, Interrupt, [], [Interrupt]);
    RunStep(Start(), Timer, [Interrupt], [Timer, Interrupt]);
    var s3 := s2.(odo := false, current := 2, task := AwaitingReply);
    assert WorksTo(s2, 5, s3);
    WorksToRun(s2, 5, s3);
    var s4 := Apply(s3, Timer);
    var s5 := Apply(s4, Reply);
    RunNothing(s5);
    RunStep(s4, Reply, [], [Reply]);
    RunStep(s3, Timer, [Reply], [Timer, Reply]);
    RunConcat(Start(), [Timer, Interrupt], Works(5));
    RunConcat(Start(), [Timer, Interrupt] + Works(5), [Timer, Reply]);
  }

  // ---------------------------------------------------------------------------
  // Exactly when an odometry request is taken up without outside help
  // ---------------------------------------------------------------------------

  /** The events that are the task's own doing: no new command, post, timer signal or interrupt. */
  predicate OwnEvents(es: seq<Event>) {
    forall i | 0 <= i < |es| :: es[i].Wake? || es[i].Work? || es[i].Reply?
  }

  /** The task is past the test of the speed flag, or has wake-ups enough to get there with the flag clear. */
  predicate OdoComesUp(s: State) {
    if s.task.TestingOdo? || s.task.ClearingOdo? then true
    else if s.task.TestingSpeed? || s.task.ClearingSpeed? then !s.newSpeed || s.sem > 0
    else s.sem >= if s.newSpeed then 2 else 1
  }

  /** Only the task clears the flags, so where it is about to clear one, that is set. */
  predicate FlagsStay(s: State) {
    (s.task.ClearingSpeed? ==> s.newSpeed) && (s.task.ClearingOdo? ==> s.odo)
  }

  lemma {:induction false} RunKeepsFlagsStay(es: seq<Event>)
    requires Runs(Start(), es)
    ensures FlagsStay(Run(Start(), es))
    decreases |es|
  {
    if es != [] {
      RunLast(Start(), es);
      RunKeepsFlagsStay(es[..|es| - 1]);
      hide Runs, Run;
      StepKeepsFlagsStay(Run(Start(), es[..|es| - 1]), es[|es| - 1]);
    }
  }

  lemma StepKeepsFlagsStay(s: State, e: Event)
    requires FlagsStay(s) && Enabled(s, e)
    ensures FlagsStay(Apply(s, e))
  {
    match e {
      case Dispatch => { match s.dispatcher { case WritingY => case WritingW => case Flagging => case Posting => } }
      case Work => { match s.task { case _ => } }
      case _ =>
    }
  }

  /** Without the condition no event of the task's own brings it about or clears the request. */
  lemma OwnStepDoesNotHelp(s: State, e: Event)
    requires FlagsStay(s) && s.odo && !OdoComesUp(s) && Enabled(s, e) && (e.Wake? || e.Work? || e.Reply?)
    ensures var t := Apply(s, e); FlagsStay(t) && t.odo && !OdoComesUp(t)
  {
    if e.Work? { match s.task { case _ => } }
  }

  lemma {:induction false} OwnRunDoesNotHelp(s: State, es: seq<Event>)
    requires FlagsStay(s) && s.odo && !OdoComesUp(s) && Runs(s, es) && OwnEvents(es)
    ensures Run(s, es).odo
    decreases |es|
  {
    if es != [] {
      OwnStepDoesNotHelp(s, es[0]);
      assert OwnEvents(es[1..]) by { assert forall i | 0 <= i < |es[1..]| :: es[1..][i] == es[i + 1]; }
      OwnRunDoesNotHelp(Apply(s, es[0]), es[1..]);
    }
  }

  /** What the task does next when nothing else happens. */
  function NextOwn(s: State): Event {
    if s.task.Waiting? then Wake else if s.task.AwaitingReply? then Reply else Work
  }

  /** Steps to the clearing of the odometry flag, with a round for a pending speed command. */
  function ToOdo(s: State): nat {
    (if s.newSpeed then 20 else 0) +
    match s.task
    case ClearingOdo => 1
    case TestingOdo => 2
    case ClearingSpeed => 3
    case TestingSpeed => 4
    case Waiting => 5
    case AwaitingReply => 6
    case Sending => 7
    case Querying => 7
    case ReadingW => 8
    case ReadingY => 9
    case ReadingX => 10
    case Returning => 11
  }

  /** With the condition the task's next event is enabled and clears the request or comes nearer to that. */
  lemma OwnStepHelps(s: State)
    requires FlagsStay(s) && s.odo && OdoComesUp(s)
    ensures Enabled(s, NextOwn(s))
    ensures var t := Apply(s, NextOwn(s)); FlagsStay(t) && (t.odo ==> OdoComesUp(t) && ToOdo(t) < ToOdo(s))
  {
    if NextOwn(s).Work? { match s.task { case _ => } }
  }

  lemma {:induction false} OwnRunClears(s: State) returns (es: seq<Event>)
    requires FlagsStay(s) && s.odo && OdoComesUp(s)
    ensures Runs(s, es) && OwnEvents(es) && !Run(s, es).odo
    decreases ToOdo(s)
  {
    hide Runs, Run, FlagsStay, OdoComesUp, ToOdo, Apply, Enabled;
    OwnStepHelps(s);
    var e := NextOwn(s);
    var t := Apply(s, e);
    var rest := [];
    RunNothing(t);
    if t.odo { rest := OwnRunClears(t); }
    es := [e] + rest;
    RunStep(s, e, rest, es);
  }

  /** The task, left to itself, can take the request up. */
  ghost predicate TakenUpAlone(s: State) {
    exists es :: OwnEvents(es) && Runs(s, es) && !Run(s, es).odo
  }

  /**
    In every reachable state with a timer request pending: the task left to itself takes it
    up if and only if it is past the test of the speed flag, or will test with that flag
    clear, or has the wake-ups it needs for another round.
   */
  lemma OdometryTakenUpExactly(history: seq<Event>)
    requires Runs(Start(), history) && Run(Start(), history).odo
    ensures var s := Run(Start(), history); TakenUpAlone(s) <==> OdoComesUp(s)
  {
    var s := Run(Start(), history);
    RunKeepsFlagsStay(history);
    hide FlagsStay, OdoComesUp;
    if OdoComesUp(s) {
      var es := OwnRunClears(s);
    } else if TakenUpAlone(s) {
      var es :| OwnEvents(es) && Runs(s, es) && !Run(s, es).odo;
      OwnRunDoesNotHelp(s, es);
      assert false;
    }
  }

  // ---------------------------------------------------------------------------
  // The object, one member function at a time
  // ---------------------------------------------------------------------------

  class ChassisDevice {
    var cmds: seq<Setpoint>
    var oriGlobalX: Stamped
    var oriGlobalY: Stamped
    var oriGlobalW: Stamped
    var bNewSpeedCmd: bool
    var bOdoCmd: bool
    var cmdSem: nat
    var currentCmd: nat
    var planarVel: Triple
    var sent: Triple
    var sends: nat

    /** The machine's state with the handler and the task at the given places. */
    ghost function Between(dispatcher: Dispatcher, task: Task): State
      reads this
    {
      State(cmds, Triple(oriGlobalX, oriGlobalY, oriGlobalW), bNewSpeedCmd, bOdoCmd, cmdSem, currentCmd,
            dispatcher, task, planarVel, sent, sends)
    }

    /** ... and with no handler running. */
    ghost function At(task: Task): State
      reads this
    {
      Between(Idle, task)
    }

    constructor ()
      ensures At(Waiting) == Start()
    {
      cmds := [];
      var zero := Stamped(0, 0);
      oriGlobalX, oriGlobalY, oriGlobalW := zero, zero, zero;
      planarVel, sent := Triple(zero, zero, zero), Triple(zero, zero, zero);
      bNewSpeedCmd, bOdoCmd := false, false;
      cmdSem, currentCmd, sends := 0, 0, 0;
    }

    /**
      newSpeedCmd is the handler's last two steps, the flag first and then the post; `between`
      is the state after the first of them.
     */
    method NewSpeedCmd(ghost task: Task) returns (ghost between: State)
      modifies this`bNewSpeedCmd, this`cmdSem
      ensures between == Apply(old(Between(Flagging, task)), Dispatch)
      ensures between.newSpeed && between.sem == old(cmdSem)
      ensures between.dispatcher.Posting? && At(task) == Apply(between, Dispatch)
    {
      bNewSpeedCmd := true;
      between := Between(Posting, task);
      cmdSem := cmdSem + 1;
    }

    /**
      chassisCmdHandler on a datagram: what pb_decode returns is not looked at, so the setpoint
      is whatever it left in the struct.
     */
    method ChassisCmdHandler(pbData: seq<byte>, ghost task: Task)
      modifies this
      ensures Runs(old(At(task)), Handler(Received(pbData)))
      ensures At(task) == Run(old(At(task)), Handler(Received(pbData)))
    {
      hide Runs, Run, Received;
      var status, pbMsg := DecodeSpeed(pbData);
      HandlerRun(At(task), pbMsg);
      cmds := cmds + [pbMsg];
      oriGlobalX := Stamped(pbMsg.x, |cmds|);
      oriGlobalY := Stamped(pbMsg.y, |cmds|);
      oriGlobalW := Stamped(pbMsg.w, |cmds|);
      ghost var between := NewSpeedCmd(task);
    }

    /** queryOdoCmd, run by timer_expiration. */
    method QueryOdoCmd(ghost task: Task)
      modifies this`bOdoCmd
      ensures At(task) == Apply(old(At(task)), Timer)
    {
      bOdoCmd := true;
    }

    /**
      waitCmd from the moment sem_wait returns: `interrupted` says it failed with EINTR. The
      third flag of the original, bStateCmd, is never set and is left out.
     */
    method WaitCmd(interrupted: bool) returns (ret: int, ghost es: seq<Event>)
      requires interrupted || cmdSem > 0
      modifies this
      ensures Runs(old(At(Waiting)), es)
      ensures ret == -1 ==> At(Waiting) == Run(old(At(Waiting)), es)
      ensures ret != -1 ==> ret == currentCmd && At(Returning) == Run(old(At(Waiting)), es)
      ensures ret == -1 <==> interrupted && !old(bOdoCmd)
      ensures ret != -1 && old(bNewSpeedCmd) ==> ret == 1 && !bNewSpeedCmd && bOdoCmd == old(bOdoCmd)
      ensures ret != -1 && !old(bNewSpeedCmd) && old(bOdoCmd) ==> ret == 2 && !bOdoCmd && !bNewSpeedCmd
      ensures !old(bNewSpeedCmd) && !old(bOdoCmd) ==> currentCmd == old(currentCmd) && !bNewSpeedCmd && !bOdoCmd
      ensures !old(bNewSpeedCmd) && !old(bOdoCmd) && ret != -1 ==> ret == old(currentCmd)
      ensures cmdSem == old(cmdSem) - (if interrupted then 0 else 1)
    {
      hide Runs, Run;
      ghost var s0 := At(Waiting);
      ghost var first := if interrupted then Interrupt else Wake;
      if interrupted {
        if !bOdoCmd {
          es := [Interrupt];
          RunNothing(s0);
          RunStep(s0, Interrupt, [], es);
          return -1, es;
        }
      } else {
        cmdSem := cmdSem - 1;
      }
      ghost var s1 := At(TestingSpeed);
      assert Enabled(s0, first) && s1 == Apply(s0, first);
      ghost var n := if !bNewSpeedCmd && bOdoCmd then 3 else 2;
      if bNewSpeedCmd {
        bNewSpeedCmd := false;
        currentCmd := 1;
      } else if bOdoCmd {
        bOdoCmd := false;
        currentCmd := 2;
      }
      if n == 3 { assert WorksTo(s1, 3, At(Returning)); } else { assert WorksTo(s1, 2, At(Returning)); }
      WorksToRun(s1, n, At(Returning));
      es := [first] + Works(n);
      RunStep(s0, first, Works(n), es);
      return currentCmd, es;
    }

    /** sendSpeedCmd: three separate reads, then the send. */
    method SendSpeedCmd() returns (ghost es: seq<Event>)
      modifies this
      ensures Runs(old(At(ReadingX)), es) && At(AwaitingReply) == Run(old(At(ReadingX)), es)
      ensures sent == old(Triple(oriGlobalX, oriGlobalY, oriGlobalW))
    {
      hide Runs, Run;
      es := Works(4);
      SendRun(At(ReadingX));
      planarVel := planarVel.(x := oriGlobalX);
      planarVel := planarVel.(y := oriGlobalY);
      planarVel := planarVel.(w := oriGlobalW);
      sent := planarVel;
      sends := sends + 1;
    }
  }
}
