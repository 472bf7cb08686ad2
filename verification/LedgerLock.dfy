/** The ledger lock file as an interleaved step system: any number of concurrent calls of appendWithLock, in any
    number of processes, each file operation a separate step (src/ledger_lock.ts). */
module LedgerLock {
  import opened Wrappers

  type Pid = nat
  /** One call of appendWithLock. Several may run in the same process. */
  type Agent = nat

  datatype Config = Config(pidOf: Agent -> Pid, lineOf: Agent -> string)

  /** What a lock file holds: nothing that parses yet, or the pid of its writer. */
  datatype Content = Unreadable | Names(pid: Pid)

  datatype Phase =
    | Trying                 // about to open the lock file exclusively
    | Opened(inode: nat)     // created it, content not written
    | Wrote(inode: nat)      // content written, handle not closed
    | Holding(inode: nat)    // acquired; appending the line
    | Appended(inode: nat)   // append finished or failed; release not begun
    | Releasing(inode: nat)  // read its own pid in the lock file; about to unlink
    | Blocked                // the lock file exists; about to read it
    | Checking(seen: Pid)    // read a pid; about to probe it
    | Stealing               // the probe failed; about to unlink
    | Done

  /** A lock file is an inode that the path may name; writing goes through the inode. */
  datatype State = State(
    lock: Option<nat>, inodes: seq<Content>, phase: map<Agent, Phase>,
    writers: set<Pid>,      // pids that ever wrote a lock file
    gone: set<Pid>,         // pids whose liveness probe fails
    order: seq<Agent>,      // agents in the order of acquisition
    sent: map<Agent, nat>,  // how much of each acquired agent's line reached the ledger
    broken: set<Agent>,     // agents whose append failed
    ledger: string)

  const INIT := State(None, [], map[], {}, {}, [], map[], {}, "")

  function PhaseOf(s: State, a: Agent): Phase {
    if a in s.phase then s.phase[a] else Trying
  }

  function Sent(s: State, a: Agent): nat {
    if a in s.sent then s.sent[a] else 0
  }

  /** The file operations of the calls. A failure while creating the lock file either ends the call or, when its code is
      EPERM, is taken for an existing lock file. */
  datatype Action =
    | Open(agent: Agent)
    | OpenFails(agent: Agent, retries: bool)
    | WriteLock(agent: Agent)
    | WriteLockFails(agent: Agent, landed: bool, retries: bool)
    | Close(agent: Agent)
    | CloseFails(agent: Agent, retries: bool)
    | ReadLock(agent: Agent)
    | ReadLockFails(agent: Agent)
    | Probe(agent: Agent)
    | Steal(agent: Agent)
    | StealFails(agent: Agent)
    | TimeOut(agent: Agent)
    | Append(agent: Agent, count: nat)
    | AppendEnds(agent: Agent)
    | AppendFails(agent: Agent)
    | ReadOwn(agent: Agent)
    | ReleaseFails(agent: Agent)
    | UnlinkOwn(agent: Agent)
    | Vanish(pid: Pid)

  function To(s: State, a: Agent, p: Phase): State {
    s.(phase := s.phase[a := p])
  }

  function WriteTo(cfg: Config, s: State, a: Agent, inode: nat): State {
    if inode < |s.inodes| then
      s.(inodes := s.inodes[inode := Names(cfg.pidOf(a))], writers := s.writers + {cfg.pidOf(a)})
    else s
  }

  function Min(x: nat, y: nat): nat {
    if x < y then x else y
  }

  function AfterFailure(retries: bool): Phase {
    if retries then Blocked else Done
  }

  /** acquireLedgerLock up to the acquisition: the exclusive open, the write and the close. */
  function CreateStep(cfg: Config, s: State, act: Action): State
    requires !act.Vanish?
  {
    var a, p := act.agent, PhaseOf(s, act.agent);
    match act
    case Open(_) =>
      if !p.Trying? then s
      else if s.lock.Some? then To(s, a, Blocked)
      else To(s, a, Opened(|s.inodes|)).(lock := Some(|s.inodes|), inodes := s.inodes + [Unreadable])
    case OpenFails(_, retries) => if p.Trying? then To(s, a, AfterFailure(retries)) else s
    case TimeOut(_) => if p.Trying? then To(s, a, Done) else s
    case WriteLock(_) => if p.Opened? then WriteTo(cfg, To(s, a, Wrote(p.inode)), a, p.inode) else s
    case WriteLockFails(_, landed, retries) =>
      if !p.Opened? then s
      else if landed then WriteTo(cfg, To(s, a, AfterFailure(retries)), a, p.inode)
      else To(s, a, AfterFailure(retries))
    case Close(_) =>
      if p.Wrote? then To(s, a, Holding(p.inode)).(order := s.order + [a], sent := s.sent[a := 0]) else s
    case CloseFails(_, retries) => if p.Wrote? then To(s, a, AfterFailure(retries)) else s
    case _ => s
  }

  /** The path taken when the lock file exists: read it, probe its pid, steal it or wait. */
  function ContendStep(s: State, act: Action): State
    requires !act.Vanish?
  {
    var a, p := act.agent, PhaseOf(s, act.agent);
    match act
    case ReadLock(_) =>
      if !p.Blocked? then s
      else if s.lock.Some? && s.lock.value < |s.inodes| && s.inodes[s.lock.value].Names? then
        To(s, a, Checking(s.inodes[s.lock.value].pid))
      else To(s, a, Trying)
    case ReadLockFails(_) => if p.Blocked? then To(s, a, Trying) else s
    case Probe(_) => if p.Checking? then To(s, a, if p.seen in s.gone then Stealing else Trying) else s
    case Steal(_) => if p.Stealing? then To(s, a, Trying).(lock := None) else s
    case StealFails(_) => if p.Stealing? then To(s, a, Trying) else s
    case _ => s
  }

  /** The guarded append, which may reach the file piece by piece, and the release in the finally block. */
  function HoldStep(cfg: Config, s: State, act: Action): State
    requires !act.Vanish?
  {
    var a, p := act.agent, PhaseOf(s, act.agent);
    match act
    case Append(_, count) =>
      if !p.Holding? then s
      else
        var line := cfg.lineOf(a);
        var from := Min(Sent(s, a), |line|);
        var upto := Min(from + count, |line|);
        s.(ledger := s.ledger + line[from..upto], sent := s.sent[a := upto])
    case AppendEnds(_) =>
      if p.Holding? && Sent(s, a) >= |cfg.lineOf(a)| then To(s, a, Appended(p.inode)) else s
    case AppendFails(_) =>
      if p.Holding? then To(s, a, Appended(p.inode)).(broken := s.broken + {a}) else s
    case ReadOwn(_) =>
      if !p.Appended? then s
      else if s.lock.Some? && s.lock.value < |s.inodes| && s.inodes[s.lock.value] == Names(cfg.pidOf(a)) then
        To(s, a, Releasing(p.inode))
      else To(s, a, Done)
    case ReleaseFails(_) => if p.Appended? || p.Releasing? then To(s, a, Done) else s
    case UnlinkOwn(_) => if p.Releasing? then To(s, a, Done).(lock := None) else s
    case _ => s
  }

  /** One step. An action that is not enabled in a state leaves it unchanged. */
  function Next(cfg: Config, s: State, act: Action): State {
    match act
    case Vanish(pid) => s.(gone := s.gone + {pid})
    case Open(_) | OpenFails(_, _) | TimeOut(_) | WriteLock(_) | WriteLockFails(_, _, _) | Close(_)
       | CloseFails(_, _) =>
      CreateStep(cfg, s, act)
    case ReadLock(_) | ReadLockFails(_) | Probe(_) | Steal(_) | StealFails(_) => ContendStep(s, act)
    case Append(_, _) | AppendEnds(_) | AppendFails(_) | ReadOwn(_) | ReleaseFails(_) | UnlinkOwn(_) =>
      HoldStep(cfg, s, act)
  }

  function Run(cfg: Config, acts: seq<Action>): State {
    if acts == [] then INIT else Next(cfg, Run(cfg, acts[..|acts| - 1]), acts[|acts| - 1])
  }

  // ----- Mutual exclusion -----

  /** Between a successful acquire and its release. */
  predicate Critical(s: State, a: Agent) {
    var p := PhaseOf(s, a);
    p.Holding? || p.Appended? || p.Releasing?
  }

  /** From creating the lock file to giving it up. */
  predicate Owns(s: State, a: Agent) {
    var p := PhaseOf(s, a);
    p.Opened? || p.Wrote? || p.Holding? || p.Appended? || p.Releasing?
  }

  /** No pid that ever wrote a lock file fails its liveness probe. */
  predicate WritersLive(s: State) {
    s.writers !! s.gone
  }

  /** An owner's lock file is the one at the path, and once written it names the owner. */
  ghost predicate OwnerInPlace(cfg: Config, s: State, a: Agent)
    requires Owns(s, a)
  {
    var p := PhaseOf(s, a);
    && s.lock == Some(p.inode) && p.inode < |s.inodes|
    && s.inodes[p.inode] == (if p.Opened? then Unreadable else Names(cfg.pidOf(a)))
  }

  ghost predicate LockInv(cfg: Config, s: State) {
    && (s.lock.Some? ==> s.lock.value < |s.inodes|)
    && (forall a | Owns(s, a) :: OwnerInPlace(cfg, s, a))
    && (forall a, b | Owns(s, a) && Owns(s, b) :: a == b)
    && (forall i | 0 <= i < |s.inodes| && s.inodes[i].Names? :: s.inodes[i].pid in s.writers)
    && (forall a :: PhaseOf(s, a).Checking? ==> PhaseOf(s, a).seen in s.writers)
    && (forall a :: !PhaseOf(s, a).Stealing?)
    && (forall p | p in s.writers :: exists a :: cfg.pidOf(a) == p)
  }

  lemma OpenKeepsLockInv(cfg: Config, s: State, a: Agent)
    requires LockInv(cfg, s) && PhaseOf(s, a).Trying? && s.lock.None?
    ensures LockInv(cfg, CreateStep(cfg, s, Open(a)))
  {
    var s' := CreateStep(cfg, s, Open(a));
    assert forall b | b != a :: PhaseOf(s', b) == PhaseOf(s, b);
    forall b | Owns(s', b) ensures b == a {
      if b != a {
        assert !Owns(s, b) by { assert Owns(s, b) ==> OwnerInPlace(cfg, s, b); }
      }
    }
  }

  lemma CreateKeepsLockInv(cfg: Config, s: State, act: Action)
    requires !act.Vanish? && LockInv(cfg, s) && WritersLive(CreateStep(cfg, s, act))
    ensures LockInv(cfg, CreateStep(cfg, s, act))
  {
    var a, s' := act.agent, CreateStep(cfg, s, act);
    if act.Open? && PhaseOf(s, a).Trying? && s.lock.None? {
      OpenKeepsLockInv(cfg, s, a);
    } else {
      assert forall b | b != a :: PhaseOf(s', b) == PhaseOf(s, b);
      assert forall b | b != a :: Owns(s', b) <==> Owns(s, b);
      assert Owns(s', a) ==> Owns(s, a);
      forall b | Owns(s', b) ensures OwnerInPlace(cfg, s', b) {
        assert Owns(s, b) && OwnerInPlace(cfg, s, b);
        assert Owns(s, a) ==> b == a;
      }
    }
  }

  lemma ContendKeepsLockInv(cfg: Config, s: State, act: Action)
    requires !act.Vanish? && LockInv(cfg, s) && WritersLive(s)
    ensures LockInv(cfg, ContendStep(s, act))
  {
    var s' := ContendStep(s, act);
    assert forall b | b != act.agent :: PhaseOf(s', b) == PhaseOf(s, b);
    assert forall b | b != act.agent :: Owns(s', b) <==> Owns(s, b);
  }

  lemma HoldKeepsLockInv(cfg: Config, s: State, act: Action)
    requires !act.Vanish? && LockInv(cfg, s)
    ensures LockInv(cfg, HoldStep(cfg, s, act))
  {
    var s' := HoldStep(cfg, s, act);
    assert forall b | b != act.agent :: PhaseOf(s', b) == PhaseOf(s, b);
    assert forall b | b != act.agent :: Owns(s', b) <==> Owns(s, b);
    assert Owns(s', act.agent) ==> Owns(s, act.agent);
    forall b | Owns(s', b) ensures OwnerInPlace(cfg, s', b) {
      assert Owns(s, b) && OwnerInPlace(cfg, s, b);
      assert Owns(s, act.agent) ==> b == act.agent;
    }
  }

  /** Having written a lock file, and having vanished, are for good. */
  lemma GhostsGrow(cfg: Config, s: State, act: Action)
    ensures s.writers <= Next(cfg, s, act).writers && s.gone <= Next(cfg, s, act).gone
  {
  }

  lemma VanishKeepsLockInv(cfg: Config, s: State, pid: Pid)
    requires LockInv(cfg, s)
    ensures LockInv(cfg, s.(gone := s.gone + {pid}))
  {
    var s' := s.(gone := s.gone + {pid});
    assert forall b :: PhaseOf(s', b) == PhaseOf(s, b) && (Owns(s', b) <==> Owns(s, b));
  }

  lemma StepKeepsLockInv(cfg: Config, s: State, act: Action)
    requires LockInv(cfg, s) && WritersLive(Next(cfg, s, act))
    ensures LockInv(cfg, Next(cfg, s, act))
    ensures WritersLive(s)
  {
    hide CreateStep, ContendStep, HoldStep, LockInv;
    GhostsGrow(cfg, s, act);
    match act
    case Vanish(pid) =>
      VanishKeepsLockInv(cfg, s, pid);
    case Open(_) | OpenFails(_, _) | TimeOut(_) | WriteLock(_) | WriteLockFails(_, _, _) | Close(_)
       | CloseFails(_, _) =>
      CreateKeepsLockInv(cfg, s, act);
    case ReadLock(_) | ReadLockFails(_) | Probe(_) | Steal(_) | StealFails(_) =>
      ContendKeepsLockInv(cfg, s, act);
    case Append(_, _) | AppendEnds(_) | AppendFails(_) | ReadOwn(_) | ReleaseFails(_) | UnlinkOwn(_) =>
      HoldKeepsLockInv(cfg, s, act);
  }

  lemma {:induction false} RunKeepsLockInv(cfg: Config, acts: seq<Action>)
    requires WritersLive(Run(cfg, acts))
    ensures LockInv(cfg, Run(cfg, acts))
  {
    hide Next;
    if acts != [] {
      var s, act := Run(cfg, acts[..|acts| - 1]), acts[|acts| - 1];
      GhostsGrow(cfg, s, act);
      RunKeepsLockInv(cfg, acts[..|acts| - 1]);
      StepKeepsLockInv(cfg, s, act);
    }
  }

  /** Mutual exclusion, for every interleaving in which no writer of the lock file has vanished; and the lock file,
      while one call is critical, is there and names its process. */
  lemma MutualExclusion(cfg: Config, acts: seq<Action>, a: Agent, b: Agent)
    requires WritersLive(Run(cfg, acts))
    requires Critical(Run(cfg, acts), a) && Critical(Run(cfg, acts), b)
    ensures a == b
    ensures var s := Run(cfg, acts);
            s.lock.Some? && s.lock.value < |s.inodes| && s.inodes[s.lock.value] == Names(cfg.pidOf(a))
  {
    RunKeepsLockInv(cfg, acts);
    var s := Run(cfg, acts);
    assert Owns(s, a) && Owns(s, b);
    assert OwnerInPlace(cfg, s, a);
  }

  // ----- Who occupies the path -----

  /** The call ends or starts over without removing the lock file it created: writing or closing it failed, or the
      guarded release did. */
  predicate Abandons(s: State, act: Action) {
    || (act.WriteLockFails? && PhaseOf(s, act.agent).Opened?)
    || (act.CloseFails? && PhaseOf(s, act.agent).Wrote?)
    || (act.ReleaseFails? && (PhaseOf(s, act.agent).Appended? || PhaseOf(s, act.agent).Releasing?))
  }

  ghost predicate Unowned(s: State) {
    forall a :: !Owns(s, a)
  }

  /** Without an abandoned file, the path is occupied exactly while somebody owns the lock. */
  ghost predicate OccupiedByOwner(s: State) {
    s.lock.None? <==> Unowned(s)
  }

  lemma CreateKeepsOccupied(cfg: Config, s: State, act: Action)
    requires !act.Vanish? && LockInv(cfg, s) && OccupiedByOwner(s) && !Abandons(s, act)
    ensures OccupiedByOwner(CreateStep(cfg, s, act))
  {
    var a, s' := act.agent, CreateStep(cfg, s, act);
    assert forall b | b != a :: Owns(s', b) <==> Owns(s, b) by {
      assert forall b | b != a :: PhaseOf(s', b) == PhaseOf(s, b);
    }
    assert s.lock != s'.lock ==> Owns(s', a);
    assert Owns(s, a) ==> Owns(s', a);
    assert !Owns(s, a) && Owns(s', a) ==> s'.lock.Some?;
  }

  lemma ContendKeepsOccupied(cfg: Config, s: State, act: Action)
    requires !act.Vanish? && LockInv(cfg, s) && OccupiedByOwner(s)
    ensures OccupiedByOwner(ContendStep(s, act))
  {
    var a, s' := act.agent, ContendStep(s, act);
    assert forall b :: Owns(s', b) <==> Owns(s, b) by {
      assert forall b | b != a :: PhaseOf(s', b) == PhaseOf(s, b);
    }
    assert !PhaseOf(s, a).Stealing?;
  }

  lemma HoldKeepsOccupied(cfg: Config, s: State, act: Action)
    requires !act.Vanish? && LockInv(cfg, s) && OccupiedByOwner(s) && !Abandons(s, act)
    ensures OccupiedByOwner(HoldStep(cfg, s, act))
  {
    var a, s' := act.agent, HoldStep(cfg, s, act);
    assert forall b | b != a :: Owns(s', b) <==> Owns(s, b) by {
      assert forall b | b != a :: PhaseOf(s', b) == PhaseOf(s, b);
    }
    if Owns(s, a) {
      assert OwnerInPlace(cfg, s, a);
      assert forall b | b != a :: !Owns(s, b);
      if act.UnlinkOwn? && PhaseOf(s, a).Releasing? {
        assert forall b :: !Owns(s', b);
      } else {
        assert Owns(s', a);
      }
    }
  }

  lemma StepKeepsOccupied(cfg: Config, s: State, act: Action)
    requires LockInv(cfg, s) && OccupiedByOwner(s) && !Abandons(s, act)
    ensures OccupiedByOwner(Next(cfg, s, act))
  {
    hide CreateStep, ContendStep, HoldStep, LockInv, Abandons;
    if act.Vanish? {
      var s' := Next(cfg, s, act);
      assert forall b :: PhaseOf(s', b) == PhaseOf(s, b) && (Owns(s', b) <==> Owns(s, b));
    } else {
      CreateKeepsOccupied(cfg, s, act);
      ContendKeepsOccupied(cfg, s, act);
      HoldKeepsOccupied(cfg, s, act);
    }
  }

  /** The inode of the lock file is at the path, and no call owns it. */
  ghost predicate LeftBehind(s: State, inode: nat) {
    s.lock == Some(inode) && Unowned(s)
  }

  lemma AbandoningLeaves(cfg: Config, s: State, act: Action)
    requires LockInv(cfg, s) && Abandons(s, act)
    ensures !act.Vanish?
    ensures Owns(s, act.agent) && LeftBehind(Next(cfg, s, act), PhaseOf(s, act.agent).inode)
  {
    var a, s' := act.agent, Next(cfg, s, act);
    assert forall b | b != a :: PhaseOf(s', b) == PhaseOf(s, b);
    assert Owns(s, a) && OwnerInPlace(cfg, s, a);
    forall b ensures !Owns(s', b) {
      if b != a { assert !Owns(s, b) && (Owns(s', b) <==> Owns(s, b)); }
    }
  }

  lemma NoThief(cfg: Config, s: State, a: Agent)
    requires LockInv(cfg, s)
    ensures !PhaseOf(s, a).Stealing?
  {
  }

  lemma StaysLeft(cfg: Config, s: State, act: Action, inode: nat)
    requires LockInv(cfg, s) && LeftBehind(s, inode)
    ensures LeftBehind(Next(cfg, s, act), inode) && !Abandons(s, act)
  {
    hide LockInv;
    var s' := Next(cfg, s, act);
    if act.Vanish? {
      assert forall b :: PhaseOf(s', b) == PhaseOf(s, b) && (Owns(s', b) <==> Owns(s, b));
    } else {
      var a := act.agent;
      assert !Owns(s, a);
      NoThief(cfg, s, a);
      assert forall b | b != a :: PhaseOf(s', b) == PhaseOf(s, b);
      forall b ensures !Owns(s', b) {
        if b != a { assert !Owns(s, b) && (Owns(s', b) <==> Owns(s, b)); }
      }
    }
  }

  /** The n-th action of the run abandons the file with the given inode. */
  predicate AbandonedAt(cfg: Config, acts: seq<Action>, n: nat, inode: nat) {
    && n < |acts| && Abandons(Run(cfg, acts[..n]), acts[n])
    && Owns(Run(cfg, acts[..n]), acts[n].agent) && PhaseOf(Run(cfg, acts[..n]), acts[n].agent).inode == inode
  }

  ghost predicate EverAbandoned(cfg: Config, acts: seq<Action>) {
    exists n: nat, inode: nat :: AbandonedAt(cfg, acts, n, inode)
  }

  lemma LiveBefore(cfg: Config, acts: seq<Action>)
    requires acts != [] && WritersLive(Run(cfg, acts))
    ensures WritersLive(Run(cfg, acts[..|acts| - 1]))
  {
    GhostsGrow(cfg, Run(cfg, acts[..|acts| - 1]), acts[|acts| - 1]);
  }

  lemma AbandonedLater(cfg: Config, acts: seq<Action>, n: nat, inode: nat)
    requires acts != []
    ensures n < |acts| - 1 ==>
              (AbandonedAt(cfg, acts[..|acts| - 1], n, inode) <==> AbandonedAt(cfg, acts, n, inode))
  {
    var front := acts[..|acts| - 1];
    if n < |front| {
      assert front[..n] == acts[..n];
    }
  }

  lemma NothingOwned()
    ensures OccupiedByOwner(INIT)
  {
  }

  lemma AbandonedInRange(cfg: Config, acts: seq<Action>, n: nat, inode: nat)
    ensures AbandonedAt(cfg, acts, n, inode) ==> n < |acts|
  {
  }

  lemma OwnerHasInode(s: State, a: Agent)
    requires Owns(s, a)
    ensures PhaseOf(s, a).inode >= 0
  {
  }

  lemma AbandonedLast(cfg: Config, acts: seq<Action>, inode: nat)
    requires acts != []
    ensures var s, act := Run(cfg, acts[..|acts| - 1]), acts[|acts| - 1];
            AbandonedAt(cfg, acts, |acts| - 1, inode)
            <==> Abandons(s, act) && Owns(s, act.agent) && PhaseOf(s, act.agent).inode == inode
  {
  }

  /** Whoever occupies the path, over every run in which no writer has vanished: a file that a call abandoned stays
      there for good, nobody owning it; and there is at most one. Otherwise there is a lock file exactly while some call
      is between creating and removing it. */
  lemma {:induction false} PathOccupied(cfg: Config, acts: seq<Action>)
    requires WritersLive(Run(cfg, acts))
    ensures forall n: nat, inode: nat | AbandonedAt(cfg, acts, n, inode) :: LeftBehind(Run(cfg, acts), inode)
    ensures !EverAbandoned(cfg, acts) ==> OccupiedByOwner(Run(cfg, acts))
  {
    hide Next, LockInv, Abandons, LeftBehind, OccupiedByOwner, Owns, AbandonedAt;
    if acts == [] {
      NothingOwned();
      forall n: nat, inode: nat ensures !AbandonedAt(cfg, acts, n, inode) { AbandonedInRange(cfg, acts, n, inode); }
    } else {
      var front, act := acts[..|acts| - 1], acts[|acts| - 1];
      var s := Run(cfg, front);
      LiveBefore(cfg, acts);
      RunKeepsLockInv(cfg, front);
      PathOccupied(cfg, front);
      forall n: nat, inode: nat | AbandonedAt(cfg, acts, n, inode) ensures LeftBehind(Run(cfg, acts), inode) {
        AbandonedInRange(cfg, acts, n, inode);
        if n < |front| {
          AbandonedLater(cfg, acts, n, inode);
          StaysLeft(cfg, s, act, inode);
        } else {
          AbandonedLast(cfg, acts, inode);
          AbandoningLeaves(cfg, s, act);
        }
      }
      if !EverAbandoned(cfg, acts) {
        forall n: nat, inode: nat ensures !AbandonedAt(cfg, front, n, inode) {
          AbandonedInRange(cfg, front, n, inode);
          AbandonedLater(cfg, acts, n, inode);
        }
        if Abandons(s, act) {
          AbandoningLeaves(cfg, s, act);
          OwnerHasInode(s, act.agent);
          AbandonedLast(cfg, acts, PhaseOf(s, act.agent).inode);
        }
        StepKeepsOccupied(cfg, s, act);
      }
    }
  }

  // ----- No call hangs -----

  /** One action of the call, which takes it to the given phase. */
  lemma Moves(cfg: Config, acts: seq<Action>, x: Agent, act: Action, next: Phase) returns (longer: seq<Action>)
    requires !act.Vanish? && act.agent == x && PhaseOf(Next(cfg, Run(cfg, acts), act), x) == next
    ensures acts <= longer && |longer| == |acts| + 1 && PhaseOf(Run(cfg, longer), x) == next
    ensures longer[|acts|..] == [act]
  {
    longer := acts + [act];
    assert longer[..|acts|] == acts;
  }

  predicate OwnActions(acts: seq<Action>, from: nat, x: Agent) {
    forall i | 0 <= from <= i < |acts| :: !acts[i].Vanish? && acts[i].agent == x
  }

  /** A failure while creating, reading, probing or stealing takes the call back to another attempt. */
  lemma BackToTrying(cfg: Config, acts: seq<Action>, x: Agent) returns (longer: seq<Action>)
    requires !Critical(Run(cfg, acts), x) && !PhaseOf(Run(cfg, acts), x).Done?
    ensures acts <= longer && |longer| <= |acts| + 3 && OwnActions(longer, |acts|, x)
    ensures PhaseOf(Run(cfg, longer), x).Trying?
  {
    hide Run;
    longer := acts;
    var p := PhaseOf(Run(cfg, longer), x);
    if p.Opened? {
      longer := Moves(cfg, longer, x, WriteLockFails(x, false, true), Blocked);
      longer := Moves(cfg, longer, x, ReadLockFails(x), Trying);
    } else if p.Wrote? {
      longer := Moves(cfg, longer, x, CloseFails(x, true), Blocked);
      longer := Moves(cfg, longer, x, ReadLockFails(x), Trying);
    } else if p.Blocked? {
      longer := Moves(cfg, longer, x, ReadLockFails(x), Trying);
    } else if p.Checking? {
      if p.seen in Run(cfg, acts).gone {
        longer := Moves(cfg, longer, x, Probe(x), Stealing);
        longer := Moves(cfg, longer, x, StealFails(x), Trying);
      } else {
        longer := Moves(cfg, longer, x, Probe(x), Trying);
      }
    } else if p.Stealing? {
      longer := Moves(cfg, longer, x, StealFails(x), Trying);
    }
  }

  /** In every state every call can end within four of its own steps, even if each of its file operations fails from
      now on: none waits for another call, and none is left without a step. */
  lemma CanAlwaysEnd(cfg: Config, acts: seq<Action>, x: Agent) returns (longer: seq<Action>)
    ensures acts <= longer && |longer| <= |acts| + 4 && OwnActions(longer, |acts|, x)
    ensures PhaseOf(Run(cfg, longer), x).Done?
  {
    hide Run;
    longer := acts;
    var p := PhaseOf(Run(cfg, acts), x);
    if p.Holding? {
      longer := Moves(cfg, longer, x, AppendFails(x), Appended(p.inode));
      longer := Moves(cfg, longer, x, ReleaseFails(x), Done);
    } else if p.Appended? || p.Releasing? {
      longer := Moves(cfg, longer, x, ReleaseFails(x), Done);
    } else if !p.Done? {
      longer := BackToTrying(cfg, acts, x);
      longer := Moves(cfg, longer, x, TimeOut(x), Done);
    }
  }

  /** An attempt that fails for another reason than an existing file ends the call; one that fails with EPERM goes the
      way of an existing file. */
  lemma FailedAttempt(cfg: Config, acts: seq<Action>, x: Agent, retries: bool)
    requires PhaseOf(Run(cfg, acts), x).Trying?
    ensures var s' := Run(cfg, acts + [OpenFails(x, retries)]);
            && (retries <==> PhaseOf(s', x).Blocked?) && (!retries <==> PhaseOf(s', x).Done?)
            && s'.lock == Run(cfg, acts).lock
  {
    assert (acts + [OpenFails(x, retries)])[..|acts|] == acts;
  }

  // ----- Where exclusion ends -----

  /** No two calls of processes that are still there are critical at once. */
  ghost predicate Exclusive(cfg: Config, s: State) {
    forall a, b | Critical(s, a) && Critical(s, b) && cfg.pidOf(a) !in s.gone && cfg.pidOf(b) !in s.gone :: a == b
  }

  lemma {:induction false} WritersAreAgents(cfg: Config, acts: seq<Action>, p: Pid)
    requires p in Run(cfg, acts).writers
    ensures exists a :: cfg.pidOf(a) == p
  {
    if acts != [] && p !in Run(cfg, acts[..|acts| - 1]).writers {
      assert cfg.pidOf(acts[|acts| - 1].agent) == p;
    } else if acts != [] {
      WritersAreAgents(cfg, acts[..|acts| - 1], p);
    }
  }

  /** Everything but x's own phase that matters to the other calls is as before. */
  ghost predicate OnlyMoved(s: State, s': State, x: Agent) {
    s'.gone == s.gone && forall y | y != x :: PhaseOf(s', y) == PhaseOf(s, y)
  }

  lemma Extend(cfg: Config, acts: seq<Action>, act: Action)
    ensures Run(cfg, acts + [act]) == Next(cfg, Run(cfg, acts), act)
  {
  }

  /** A call finding no lock file acquires in three steps. */
  lemma Acquires(cfg: Config, acts: seq<Action>, x: Agent) returns (longer: seq<Action>)
    requires PhaseOf(Run(cfg, acts), x) == Trying && Run(cfg, acts).lock == None
    ensures var s, s' := Run(cfg, acts), Run(cfg, longer);
            && acts <= longer && OnlyMoved(s, s', x) && PhaseOf(s', x) == Holding(|s.inodes|)
            && Sent(s', x) == 0 && s'.ledger == s.ledger && s'.order == s.order + [x] && s'.broken == s.broken
            && s'.lock == Some(|s.inodes|) && s'.inodes == s.inodes + [Names(cfg.pidOf(x))]
  {
    longer := acts + [Open(x)] + [WriteLock(x)] + [Close(x)];
    Extend(cfg, acts, Open(x));
    Extend(cfg, acts + [Open(x)], WriteLock(x));
    Extend(cfg, acts + [Open(x)] + [WriteLock(x)], Close(x));
    var s := Run(cfg, acts);
    assert (s.inodes + [Unreadable])[|s.inodes| := Names(cfg.pidOf(x))] == s.inodes + [Names(cfg.pidOf(x))];
  }

  lemma OwnedIsOccupied(cfg: Config, s: State)
    requires LockInv(cfg, s) && !Unowned(s)
    ensures s.lock.Some?
  {
    var a :| Owns(s, a);
    assert OwnerInPlace(cfg, s, a);
  }

  /** A trying call that takes its three steps acquires the lock exactly when nobody owns it and nobody has abandoned
      a lock file, over every run in which no writer has vanished. */
  lemma AcquiresIffFree(cfg: Config, acts: seq<Action>, x: Agent)
    requires WritersLive(Run(cfg, acts)) && PhaseOf(Run(cfg, acts), x) == Trying
    ensures PhaseOf(Run(cfg, acts + [Open(x)] + [WriteLock(x)] + [Close(x)]), x).Holding?
       <==> Unowned(Run(cfg, acts)) && !EverAbandoned(cfg, acts)
  {
    hide LockInv, AbandonedAt;
    PathOccupied(cfg, acts);
    Extend(cfg, acts, Open(x));
    Extend(cfg, acts + [Open(x)], WriteLock(x));
    Extend(cfg, acts + [Open(x)] + [WriteLock(x)], Close(x));
    RunKeepsLockInv(cfg, acts);
    if !Unowned(Run(cfg, acts)) {
      OwnedIsOccupied(cfg, Run(cfg, acts));
    }
  }

  lemma AppendsLine(cfg: Config, acts: seq<Action>, x: Agent) returns (longer: seq<Action>)
    requires PhaseOf(Run(cfg, acts), x).Holding? && Sent(Run(cfg, acts), x) == 0
    ensures var s, s' := Run(cfg, acts), Run(cfg, longer);
            && acts <= longer && OnlyMoved(s, s', x) && PhaseOf(s', x) == Appended(PhaseOf(s, x).inode)
            && s'.lock == s.lock && s'.inodes == s.inodes && s'.order == s.order && s'.broken == s.broken
            && s'.ledger == s.ledger + cfg.lineOf(x)[0..|cfg.lineOf(x)|]
  {
    var append := Append(x, |cfg.lineOf(x)|);
    longer := acts + [append] + [AppendEnds(x)];
    Extend(cfg, acts, append);
    Extend(cfg, acts + [append], AppendEnds(x));
  }

  lemma Releases(cfg: Config, acts: seq<Action>, x: Agent) returns (longer: seq<Action>)
    requires var s := Run(cfg, acts);
             && PhaseOf(s, x).Appended? && s.lock == Some(PhaseOf(s, x).inode) && s.lock.value < |s.inodes|
             && s.inodes[s.lock.value] == Names(cfg.pidOf(x))
    ensures var s, s' := Run(cfg, acts), Run(cfg, longer);
            && acts <= longer && OnlyMoved(s, s', x) && PhaseOf(s', x) == Done && s'.lock == None
            && s'.ledger == s.ledger && s'.order == s.order && s'.broken == s.broken
  {
    longer := acts + [ReadOwn(x)] + [UnlinkOwn(x)];
    Extend(cfg, acts, ReadOwn(x));
    Extend(cfg, acts + [ReadOwn(x)], UnlinkOwn(x));
  }

  /** A release first reads the lock file. It goes on to unlink it exactly if the file names its process; if it does
      not, or is gone, because the lock was stolen, the call ends and leaves whatever lock there is. */
  lemma ReleaseReadsFirst(cfg: Config, acts: seq<Action>, x: Agent)
    requires PhaseOf(Run(cfg, acts), x).Appended?
    ensures var s, s' := Run(cfg, acts), Run(cfg, acts + [ReadOwn(x)]);
            && s'.lock == s.lock && s'.inodes == s.inodes
            && PhaseOf(s', x) == if s.lock.Some? && s.lock.value < |s.inodes|
                                    && s.inodes[s.lock.value] == Names(cfg.pidOf(x)) then
                                   Releasing(PhaseOf(s, x).inode)
                                 else Done
  {
    Extend(cfg, acts, ReadOwn(x));
  }

  /** With a free lock a call can go all the way: its whole line is appended, its turn recorded, and the lock is free
      again. */
  lemma CompletesWhenFree(cfg: Config, acts: seq<Action>, x: Agent) returns (longer: seq<Action>)
    requires WritersLive(Run(cfg, acts)) && PhaseOf(Run(cfg, acts), x) == Trying
    requires Unowned(Run(cfg, acts)) && !EverAbandoned(cfg, acts)
    ensures var s, s' := Run(cfg, acts), Run(cfg, longer);
            && acts <= longer && OnlyMoved(s, s', x) && PhaseOf(s', x) == Done && s'.lock == None
            && s'.ledger == s.ledger + cfg.lineOf(x) && s'.order == s.order + [x] && s'.broken == s.broken
  {
    hide LockInv, AbandonedAt, Next;
    PathOccupied(cfg, acts);
    longer := Acquires(cfg, acts, x);
    longer := AppendsLine(cfg, longer, x);
    longer := Releases(cfg, longer, x);
    assert cfg.lineOf(x)[0..|cfg.lineOf(x)|] == cfg.lineOf(x);
  }

  /** A call finding the lock file of a vanished process is about to steal after three steps. */
  lemma Contends(cfg: Config, acts: seq<Action>, x: Agent, i: nat) returns (longer: seq<Action>)
    requires var s := Run(cfg, acts);
             && PhaseOf(s, x) == Trying && s.lock == Some(i) && i < |s.inodes|
             && s.inodes[i].Names? && s.inodes[i].pid in s.gone
    ensures var s, s' := Run(cfg, acts), Run(cfg, longer);
            OnlyMoved(s, s', x) && PhaseOf(s', x) == Stealing && s'.lock == s.lock && s'.inodes == s.inodes
  {
    longer := acts + [Open(x)] + [ReadLock(x)] + [Probe(x)];
    Extend(cfg, acts, Open(x));
    Extend(cfg, acts + [Open(x)], ReadLock(x));
    Extend(cfg, acts + [Open(x)] + [ReadLock(x)], Probe(x));
  }

  lemma Steals(cfg: Config, acts: seq<Action>, x: Agent) returns (longer: seq<Action>)
    requires PhaseOf(Run(cfg, acts), x) == Stealing
    ensures var s, s' := Run(cfg, acts), Run(cfg, longer);
            OnlyMoved(s, s', x) && PhaseOf(s', x) == Trying && s'.lock == None && s'.inodes == s.inodes
  {
    longer := acts + [Steal(x)];
    Extend(cfg, acts, Steal(x));
  }

  lemma VanishStep(cfg: Config, s: State, pid: Pid)
    ensures Next(cfg, s, Vanish(pid)) == s.(gone := s.gone + {pid})
    ensures forall x :: PhaseOf(Next(cfg, s, Vanish(pid)), x) == PhaseOf(s, x)
  {
  }

  /** Read, probe and unlink are not one step: once a holder has vanished, two live calls can both end up holding,
      the second having unlinked the lock file of the first. */
  lemma StolenTwice(cfg: Config, a: Agent, b: Agent, c: Agent) returns (acts: seq<Action>)
    requires b != c && cfg.pidOf(b) != cfg.pidOf(a) && cfg.pidOf(c) != cfg.pidOf(a)
    ensures Run(cfg, acts).gone == {cfg.pidOf(a)}
    ensures Critical(Run(cfg, acts), b) && Critical(Run(cfg, acts), c)
  {
    hide Next;
    assert forall x :: PhaseOf(Run(cfg, []), x) == Trying;
    acts := Acquires(cfg, [], a);
    Extend(cfg, acts, Vanish(cfg.pidOf(a)));
    VanishStep(cfg, Run(cfg, acts), cfg.pidOf(a));
    acts := acts + [Vanish(cfg.pidOf(a))];
    acts := Contends(cfg, acts, b, 0);
    acts := Contends(cfg, acts, c, 0);
    acts := Steals(cfg, acts, b);
    acts := Acquires(cfg, acts, b);
    acts := Steals(cfg, acts, c);
    acts := Acquires(cfg, acts, c);
  }

  lemma ImmortalExclusive(cfg: Config, mortal: set<Pid>, acts: seq<Action>)
    requires Run(cfg, acts).gone <= mortal && forall a :: cfg.pidOf(a) !in mortal
    ensures Exclusive(cfg, Run(cfg, acts))
  {
    hide Run;
    var s := Run(cfg, acts);
    forall p | p in s.writers ensures p !in s.gone {
      WritersAreAgents(cfg, acts, p);
    }
    forall x, y | Critical(s, x) && Critical(s, y) ensures x == y {
      MutualExclusion(cfg, acts, x, y);
    }
  }

  /** Let any of the `mortal` processes, and no others, vanish. Exclusion then holds over all interleavings exactly
      when no call runs in a mortal process (given two calls that do not). */
  lemma ExclusionIffImmortal(cfg: Config, mortal: set<Pid>, b: Agent, c: Agent)
    requires b != c && cfg.pidOf(b) !in mortal && cfg.pidOf(c) !in mortal
    ensures (forall acts | Run(cfg, acts).gone <= mortal :: Exclusive(cfg, Run(cfg, acts)))
       <==> (forall a :: cfg.pidOf(a) !in mortal)
  {
    hide Run;
    if a :| cfg.pidOf(a) in mortal {
      var acts := StolenTwice(cfg, a, b, c);
      assert !Exclusive(cfg, Run(cfg, acts));
    } else {
      forall acts | Run(cfg, acts).gone <= mortal ensures Exclusive(cfg, Run(cfg, acts)) {
        ImmortalExclusive(cfg, mortal, acts);
      }
    }
  }

  // ----- The ledger under the lock -----

  /** What the agents of the order contributed to the ledger, one after the other. */
  function Text(cfg: Config, sent: map<Agent, nat>, order: seq<Agent>): string {
    if order == [] then ""
    else
      var a := order[|order| - 1];
      var line := cfg.lineOf(a);
      Text(cfg, sent, order[..|order| - 1]) + line[..Min(if a in sent then sent[a] else 0, |line|)]
  }

  predicate Reached(s: State, a: Agent) {
    Critical(s, a) || PhaseOf(s, a).Done?
  }

  ghost predicate LedgerInv(cfg: Config, s: State) {
    && (forall i, j | 0 <= i < j < |s.order| :: s.order[i] != s.order[j])
    && (forall i | 0 <= i < |s.order| :: Reached(s, s.order[i]))
    && (forall a | Critical(s, a) :: a in s.order)
    && (forall a :: PhaseOf(s, a).Holding? ==> s.order != [] && a == s.order[|s.order| - 1])
    && (forall i | 0 <= i < |s.order| ::
          Sent(s, s.order[i]) == |cfg.lineOf(s.order[i])|
          || PhaseOf(s, s.order[i]).Holding? || s.order[i] in s.broken)
    && (forall a :: Sent(s, a) <= |cfg.lineOf(a)|)
    && s.ledger == Text(cfg, s.sent, s.order)
  }

  lemma {:induction false} TextIgnores(cfg: Config, sent: map<Agent, nat>, sent': map<Agent, nat>, order: seq<Agent>)
    requires forall i | 0 <= i < |order| ::
               (order[i] in sent <==> order[i] in sent') && (order[i] in sent ==> sent[order[i]] == sent'[order[i]])
    ensures Text(cfg, sent, order) == Text(cfg, sent', order)
  {
    if order != [] {
      TextIgnores(cfg, sent, sent', order[..|order| - 1]);
    }
  }

  /** A step that writes no ledger text and acquires nothing. */
  lemma QuietKeepsLedgerInv(cfg: Config, s: State, s': State)
    requires LedgerInv(cfg, s)
    requires s'.order == s.order && s'.sent == s.sent && s'.ledger == s.ledger && s.broken <= s'.broken
    requires forall b | Reached(s, b) :: Reached(s', b)
    requires forall b | Critical(s', b) :: Critical(s, b)
    requires forall b | PhaseOf(s', b).Holding? :: PhaseOf(s, b).Holding?
    requires forall b | PhaseOf(s, b).Holding? :: PhaseOf(s', b).Holding? || b in s'.broken
                                                  || Sent(s, b) == |cfg.lineOf(b)|
    ensures LedgerInv(cfg, s')
  {
  }

  lemma SoleOwner(cfg: Config, s: State, a: Agent)
    requires LockInv(cfg, s) && Owns(s, a)
    ensures forall b | b != a :: !PhaseOf(s, b).Holding?
  {
    assert forall b | Owns(s, b) :: b == a;
    forall b | b != a ensures !PhaseOf(s, b).Holding? {
      assert !Owns(s, b);
    }
  }

  lemma AcquireText(cfg: Config, s: State, a: Agent)
    requires s.ledger == Text(cfg, s.sent, s.order) && a !in s.order
    ensures s.ledger == Text(cfg, s.sent[a := 0], s.order + [a])
  {
    TextIgnores(cfg, s.sent, s.sent[a := 0], s.order);
    assert (s.order + [a])[..|s.order|] == s.order;
  }

  lemma CloseKeepsLedgerInv(cfg: Config, s: State, a: Agent)
    requires LockInv(cfg, s) && LedgerInv(cfg, s) && PhaseOf(s, a).Wrote?
    ensures LedgerInv(cfg, CreateStep(cfg, s, Close(a)))
  {
    hide Text;
    var s' := CreateStep(cfg, s, Close(a));
    assert forall b | b != a :: PhaseOf(s', b) == PhaseOf(s, b) && Sent(s', b) == Sent(s, b);
    assert a !in s.order by {
      assert !Reached(s, a);
    }
    SoleOwner(cfg, s, a);
    assert s'.order[..|s.order|] == s.order;
    assert s.ledger == Text(cfg, s'.sent, s'.order) by {
      AcquireText(cfg, s, a);
    }
  }

  lemma CreateKeepsLedgerInv(cfg: Config, s: State, act: Action)
    requires !act.Vanish? && LockInv(cfg, s) && LedgerInv(cfg, s)
    ensures LedgerInv(cfg, CreateStep(cfg, s, act))
  {
    hide LedgerInv;
    var a, s' := act.agent, CreateStep(cfg, s, act);
    assert forall b | b != a :: PhaseOf(s', b) == PhaseOf(s, b);
    if act.Close? && PhaseOf(s, a).Wrote? {
      CloseKeepsLedgerInv(cfg, s, a);
    } else {
      QuietKeepsLedgerInv(cfg, s, s');
    }
  }

  lemma ContendKeepsLedgerInv(cfg: Config, s: State, act: Action)
    requires !act.Vanish? && LedgerInv(cfg, s)
    ensures LedgerInv(cfg, ContendStep(s, act))
  {
    hide LedgerInv;
    var s' := ContendStep(s, act);
    assert forall b | b != act.agent :: PhaseOf(s', b) == PhaseOf(s, b);
    QuietKeepsLedgerInv(cfg, s, s');
  }

  lemma AppendText(cfg: Config, s: State, a: Agent, upto: nat)
    requires s.order != [] && a == s.order[|s.order| - 1] && a !in s.order[..|s.order| - 1]
    requires Sent(s, a) <= upto <= |cfg.lineOf(a)| && s.ledger == Text(cfg, s.sent, s.order)
    ensures s.ledger + cfg.lineOf(a)[Sent(s, a)..upto] == Text(cfg, s.sent[a := upto], s.order)
  {
    var front, line := s.order[..|s.order| - 1], cfg.lineOf(a);
    TextIgnores(cfg, s.sent, s.sent[a := upto], front);
    assert line[..Sent(s, a)] + line[Sent(s, a)..upto] == line[..upto];
  }

  lemma AppendKeepsLedgerInv(cfg: Config, s: State, a: Agent, count: nat)
    requires LedgerInv(cfg, s) && PhaseOf(s, a).Holding?
    ensures LedgerInv(cfg, HoldStep(cfg, s, Append(a, count)))
  {
    hide Text;
    var upto := Min(Sent(s, a) + count, |cfg.lineOf(a)|);
    assert Sent(s, a) <= |cfg.lineOf(a)|;
    var s' := s.(ledger := s.ledger + cfg.lineOf(a)[Sent(s, a)..upto], sent := s.sent[a := upto]);
    assert s' == HoldStep(cfg, s, Append(a, count));
    AppendText(cfg, s, a, upto);
    assert forall b :: && PhaseOf(s', b) == PhaseOf(s, b)
                       && (Reached(s', b) <==> Reached(s, b)) && (Critical(s', b) <==> Critical(s, b));
    assert forall b | b != a :: Sent(s', b) == Sent(s, b);
  }

  lemma HoldKeepsLedgerInv(cfg: Config, s: State, act: Action)
    requires !act.Vanish? && LedgerInv(cfg, s)
    ensures LedgerInv(cfg, HoldStep(cfg, s, act))
  {
    var a, s' := act.agent, HoldStep(cfg, s, act);
    assert forall b | b != a :: PhaseOf(s', b) == PhaseOf(s, b);
    if act.Append? && PhaseOf(s, a).Holding? {
      AppendKeepsLedgerInv(cfg, s, a, act.count);
    } else {
      assert Sent(s, a) <= |cfg.lineOf(a)|;
      QuietKeepsLedgerInv(cfg, s, s');
    }
  }

  lemma LedgerInvInit(cfg: Config)
    ensures LedgerInv(cfg, INIT)
  {
  }

  lemma VanishKeepsLedgerInv(cfg: Config, s: State, pid: Pid)
    requires LedgerInv(cfg, s)
    ensures LedgerInv(cfg, s.(gone := s.gone + {pid}))
  {
    var s' := s.(gone := s.gone + {pid});
    assert forall b :: && PhaseOf(s', b) == PhaseOf(s, b) && Sent(s', b) == Sent(s, b)
                       && (Reached(s', b) <==> Reached(s, b)) && (Critical(s', b) <==> Critical(s, b));
  }

  lemma {:induction false} RunKeepsLedgerInv(cfg: Config, acts: seq<Action>)
    requires WritersLive(Run(cfg, acts))
    ensures LedgerInv(cfg, Run(cfg, acts))
  {
    hide CreateStep, ContendStep, HoldStep, LockInv, LedgerInv;
    if acts == [] {
      LedgerInvInit(cfg);
    } else {
      var s, act := Run(cfg, acts[..|acts| - 1]), acts[|acts| - 1];
      GhostsGrow(cfg, s, act);
      RunKeepsLockInv(cfg, acts[..|acts| - 1]);
      RunKeepsLedgerInv(cfg, acts[..|acts| - 1]);
      match act
      case Vanish(pid) =>
        VanishKeepsLedgerInv(cfg, s, pid);
      case Open(_) | OpenFails(_, _) | TimeOut(_) | WriteLock(_) | WriteLockFails(_, _, _) | Close(_)
       | CloseFails(_, _) =>
        CreateKeepsLedgerInv(cfg, s, act);
      case ReadLock(_) | ReadLockFails(_) | Probe(_) | Steal(_) | StealFails(_) =>
        ContendKeepsLedgerInv(cfg, s, act);
      case Append(_, _) | AppendEnds(_) | AppendFails(_) | ReadOwn(_) | ReleaseFails(_) | UnlinkOwn(_) =>
        HoldKeepsLedgerInv(cfg, s, act);
    }
  }

  // ----- The order is that of the acquisitions -----

  /** Only acquiring calls join the order, at its end. */
  ghost predicate OrderKept(s: State, s': State) {
    && s.order <= s'.order
    && (forall a | a in s'.order && a !in s.order :: Critical(s', a))
    && (forall a | Critical(s', a) :: Critical(s, a) || a in s'.order)
  }

  lemma CreateKeepsOrder(cfg: Config, s: State, act: Action)
    requires !act.Vanish?
    ensures OrderKept(s, CreateStep(cfg, s, act))
  {
    assert forall b | b != act.agent :: PhaseOf(CreateStep(cfg, s, act), b) == PhaseOf(s, b);
  }

  lemma ContendKeepsOrder(s: State, act: Action)
    requires !act.Vanish?
    ensures OrderKept(s, ContendStep(s, act))
  {
    assert forall b | b != act.agent :: PhaseOf(ContendStep(s, act), b) == PhaseOf(s, b);
  }

  lemma HoldKeepsOrder(cfg: Config, s: State, act: Action)
    requires !act.Vanish?
    ensures OrderKept(s, HoldStep(cfg, s, act))
  {
    assert forall b | b != act.agent :: PhaseOf(HoldStep(cfg, s, act), b) == PhaseOf(s, b);
  }

  lemma OrderStep(cfg: Config, s: State, act: Action)
    ensures OrderKept(s, Next(cfg, s, act))
  {
    hide CreateStep, ContendStep, HoldStep;
    if act.Vanish? {
      assert forall b :: PhaseOf(Next(cfg, s, act), b) == PhaseOf(s, b);
    } else {
      CreateKeepsOrder(cfg, s, act);
      ContendKeepsOrder(s, act);
      HoldKeepsOrder(cfg, s, act);
    }
  }

  /** The call held the lock at some moment of the run. */
  ghost predicate EverAcquired(cfg: Config, acts: seq<Action>, a: Agent) {
    exists n | 0 <= n <= |acts| :: Critical(Run(cfg, acts[..n]), a)
  }

  lemma NothingCritical()
    ensures forall a :: !Critical(INIT, a)
  {
  }

  /** For every interleaving, thefts included, the order holds exactly the calls that ever acquired the lock. */
  lemma {:induction false} OrderIsAcquirers(cfg: Config, acts: seq<Action>)
    ensures forall a :: a in Run(cfg, acts).order <==> EverAcquired(cfg, acts, a)
  {
    hide Next, Critical;
    assert acts[..|acts|] == acts;
    if acts == [] {
      NothingCritical();
    } else {
      var front := acts[..|acts| - 1];
      OrderIsAcquirers(cfg, front);
      OrderStep(cfg, Run(cfg, front), acts[|acts| - 1]);
      assert forall n | 0 <= n <= |front| :: acts[..n] == front[..n];
      assert front[..|front|] == front;
      forall a ensures a in Run(cfg, acts).order <==> EverAcquired(cfg, acts, a) {
        if EverAcquired(cfg, acts, a) {
          var n :| 0 <= n <= |acts| && Critical(Run(cfg, acts[..n]), a);
          if n == |acts| && Critical(Run(cfg, front), a) {
            assert Critical(Run(cfg, front[..|front|]), a);
          } else if n < |acts| {
            assert Critical(Run(cfg, front[..n]), a);
          }
        }
        if a in Run(cfg, front).order {
          var n :| 0 <= n <= |front| && Critical(Run(cfg, front[..n]), a);
          assert Critical(Run(cfg, acts[..n]), a);
        } else if a in Run(cfg, acts).order {
          assert Critical(Run(cfg, acts[..|acts|]), a);
        }
      }
    }
  }

  /** The order only grows at its end, so earlier acquisitions come first. */
  lemma {:induction false} OrderGrows(cfg: Config, acts: seq<Action>, n: nat)
    requires n <= |acts|
    ensures Run(cfg, acts[..n]).order <= Run(cfg, acts).order
  {
    hide Next;
    if n == |acts| {
      assert acts[..n] == acts;
    } else {
      var front := acts[..|acts| - 1];
      OrderGrows(cfg, front, n);
      assert front[..n] == acts[..n];
      OrderStep(cfg, Run(cfg, front), acts[|acts| - 1]);
    }
  }

  // ----- Whole lines -----

  /** The lines of the given agents, whole, one after the other. */
  function Lines(cfg: Config, order: seq<Agent>): string {
    if order == [] then "" else Lines(cfg, order[..|order| - 1]) + cfg.lineOf(order[|order| - 1])
  }

  lemma {:induction false} WholeText(cfg: Config, s: State, order: seq<Agent>)
    requires forall i | 0 <= i < |order| :: Sent(s, order[i]) == |cfg.lineOf(order[i])|
    ensures Text(cfg, s.sent, order) == Lines(cfg, order)
  {
    if order != [] {
      WholeText(cfg, s, order[..|order| - 1]);
      var line := cfg.lineOf(order[|order| - 1]);
      assert line[..|line|] == line;
      assert Sent(s, order[|order| - 1]) == |line|;
    }
  }

  /** The ledger is whole lines in acquisition order, followed by the part written so far of the current holder's
      line: for every interleaving in which no writer of the lock file has vanished and no append has failed. */
  lemma LedgerIsWholeLines(cfg: Config, acts: seq<Action>)
    requires WritersLive(Run(cfg, acts)) && Run(cfg, acts).broken == {}
    ensures var s := Run(cfg, acts);
            var n := |s.order|;
            if n > 0 && PhaseOf(s, s.order[n - 1]).Holding? then
              var line := cfg.lineOf(s.order[n - 1]);
              Sent(s, s.order[n - 1]) <= |line|
              && s.ledger == Lines(cfg, s.order[..n - 1]) + line[..Sent(s, s.order[n - 1])]
            else s.ledger == Lines(cfg, s.order)
  {
    hide Next;
    RunKeepsLedgerInv(cfg, acts);
    var s := Run(cfg, acts);
    if s.order != [] {
      var last := s.order[|s.order| - 1];
      assert forall i | 0 <= i < |s.order| - 1 :: !PhaseOf(s, s.order[i]).Holding?;
      WholeText(cfg, s, s.order[..|s.order| - 1]);
      assert cfg.lineOf(last)[..|cfg.lineOf(last)|] == cfg.lineOf(last);
    }
  }
}
