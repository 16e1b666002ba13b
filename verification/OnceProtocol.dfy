/** b_once (src/pthread_bridge.c) as a transition system: any number of threads, one program
    counter per source step, sequentially consistent memory, and the recursive g_lock with owner
    and depth. Init routines may themselves call b_once, and may run any other g_lock section of
    the bridge. */
module OnceProtocol {
  import opened Prelude

  type Tid = nat
  type Ctl = nat

  /** What a thread, or an init routine, asks of the bridge: b_once on a control, or one of the
      short g_lock sections of the lazy paths. */
  datatype Call = Once(ctl: Ctl) | Section

  /** calls[c] is what the init routine of control c calls, in order; rank orders the controls for the
      proofs, the steps do not read it. */
  datatype Program = Program(calls: seq<seq<Call>>, rank: seq<nat>)

  datatype Pc =
    | AtLock        // line 167
    | AtTest        // line 168
    | AtSpinUnlock  // line 169
    | AtSleep       // line 170
    | AtSpinLock    // line 171
    | AtCheck       // line 173
    | AtSetOne      // line 174
    | AtUnlockInit  // line 175
    | InInit        // line 176
    | AtRelock      // line 177
    | AtSetTwo      // line 178
    | AtUnlock      // line 180

  datatype Frame =
    | OnceFrame(ctl: Ctl, pc: Pc, todo: seq<Call>)
    | SectionFrame(held: bool)

  /** The innermost activation is last in the stack; todo lists the calls still to be made. */
  datatype Thread = Thread(stack: seq<Frame>, todo: seq<Call>)

  datatype Lock = Lock(owner: Option<Tid>, depth: nat) {
    predicate FreeFor(t: Tid) { owner == None || owner == Some(t) }
    function Acquire(t: Tid): Lock { Lock(Some(t), depth + 1) }
    function Release(): Lock { if depth <= 1 then Lock(None, 0) else Lock(owner, depth - 1) }
  }

  /** What a client can observe: init entered, init left, a call on the control returned. */
  datatype Event = Began(t: Tid, ctl: Ctl) | Ended(t: Tid, ctl: Ctl) | Returned(t: Tid, ctl: Ctl)

  datatype State = State(words: seq<int>, lock: Lock, threads: seq<Thread>, log: seq<Event>)

  // ----- steps -----

  function FrameFor(call: Call): Frame {
    match call
    case Once(c) => OnceFrame(c, AtLock, [])
    case Section => SectionFrame(false)
  }

  predicate WantsLock(f: Frame) {
    match f
    case OnceFrame(_, pc, _) => pc == AtLock || pc == AtSpinLock || pc == AtRelock
    case SectionFrame(held) => !held
  }

  predicate Busy(th: Thread) { th.stack != [] || th.todo != [] }

  function Top(th: Thread): Frame
    requires th.stack != []
  {
    th.stack[|th.stack| - 1]
  }

  predicate Enabled(s: State, t: Tid) {
    && t < |s.threads|
    && Busy(s.threads[t])
    && (s.threads[t].stack != [] && WantsLock(Top(s.threads[t])) ==> s.lock.FreeFor(t))
  }

  function WithTop(th: Thread, f: Frame): Thread
    requires th.stack != []
  {
    th.(stack := th.stack[..|th.stack| - 1] + [f])
  }

  function Pop(th: Thread): Thread
    requires th.stack != []
  {
    th.(stack := th.stack[..|th.stack| - 1])
  }

  function Push(th: Thread, f: Frame): Thread {
    th.(stack := th.stack + [f])
  }

  /** The word of the control that the innermost activation works on. */
  function Watched(s: State, th: Thread): int {
    if th.stack != [] && Top(th).OnceFrame? && Top(th).ctl < |s.words| then s.words[Top(th).ctl] else 0
  }

  /** The program counter after pc, for the steps that neither enter nor leave an activation. */
  function NextPc(pc: Pc, w: int): Pc {
    match pc
    case AtLock => AtTest
    case AtTest => if w == 1 then AtSpinUnlock else AtCheck
    case AtSpinUnlock => AtSleep
    case AtSleep => AtSpinLock
    case AtSpinLock => AtTest
    case AtCheck => if w == 0 then AtSetOne else AtUnlock
    case AtSetOne => AtUnlockInit
    case AtUnlockInit => InInit
    case InInit => AtRelock
    case AtRelock => AtSetTwo
    case AtSetTwo => AtUnlock
    case AtUnlock => AtUnlock
  }

  /** The innermost activation after a step that neither calls nor returns. */
  function Turn(p: Program, f: Frame, w: int): Frame
    requires KnownFrame(|p.calls|, f)
  {
    match f
    case SectionFrame(_) => SectionFrame(true)
    case OnceFrame(c, pc, todo) => OnceFrame(c, NextPc(pc, w), if pc == AtUnlockInit then p.calls[c] else todo)
  }

  predicate Returns(f: Frame) { if f.SectionFrame? then f.held else f.pc == AtUnlock }

  predicate Calls(f: Frame) { f.OnceFrame? && f.pc == InInit && f.todo != [] }

  /** How one step of a thread changes its own stack, given the word it watches. */
  function Move(p: Program, th: Thread, w: int): Thread
    requires Busy(th) && KnownThread(|p.calls|, th)
  {
    if th.stack == [] then Thread([FrameFor(th.todo[0])], th.todo[1..])
    else if Returns(Top(th)) then Pop(th)
    else if Calls(Top(th)) then Push(WithTop(th, Top(th).(todo := Top(th).todo[1..])), FrameFor(Top(th).todo[0]))
    else WithTop(th, Turn(p, Top(th), w))
  }

  predicate Acquires(th: Thread) { th.stack != [] && WantsLock(Top(th)) }

  predicate Releases(th: Thread) {
    th.stack != [] && (Returns(Top(th))
        || (Top(th).OnceFrame? && (Top(th).pc == AtSpinUnlock || Top(th).pc == AtUnlockInit)))
  }

  predicate TopAt(th: Thread, pc: Pc) { th.stack != [] && Top(th).OnceFrame? && Top(th).pc == pc }

  function EventOf(th: Thread, t: Tid): seq<Event> {
    if TopAt(th, AtUnlockInit) then [Began(t, Top(th).ctl)]
    else if TopAt(th, InInit) && Top(th).todo == [] then [Ended(t, Top(th).ctl)]
    else if TopAt(th, AtUnlock) then [Returned(t, Top(th).ctl)]
    else []
  }

  function WordsAfter(words: seq<int>, th: Thread): seq<int>
    requires KnownThread(|words|, th)
  {
    if TopAt(th, AtSetOne) then words[Top(th).ctl := 1]
    else if TopAt(th, AtSetTwo) then words[Top(th).ctl := 2]
    else words
  }

  /** The step of thread t; each thread is deterministic, the schedule is not. */
  function Next(p: Program, s: State, t: Tid): State
    requires Enabled(s, t) && Shaped(p, s)
  {
    var th := s.threads[t];
    State(
      WordsAfter(s.words, th),
      if Acquires(th) then s.lock.Acquire(t) else if Releases(th) then s.lock.Release() else s.lock,
      s.threads[t := Move(p, th, Watched(s, th))],
      s.log + EventOf(th, t))
  }

  // ----- well-shaped states and runs -----

  predicate KnownCalls(n: nat, calls: seq<Call>) {
    forall i | 0 <= i < |calls| :: calls[i].Once? ==> calls[i].ctl < n
  }

  predicate KnownFrame(n: nat, f: Frame) {
    f.OnceFrame? ==> f.ctl < n && KnownCalls(n, f.todo)
  }

  predicate KnownThread(n: nat, th: Thread) {
    && KnownCalls(n, th.todo)
    && forall k | 0 <= k < |th.stack| :: KnownFrame(n, th.stack[k])
  }

  predicate Shaped(p: Program, s: State) {
    && |p.rank| == |p.calls| == |s.words|
    && (forall c | 0 <= c < |p.calls| :: KnownCalls(|p.calls|, p.calls[c]))
    && (forall t | 0 <= t < |s.threads| :: KnownThread(|p.calls|, s.threads[t]))
  }

  /** Every control starts at 0 and no thread has entered the bridge yet. */
  predicate Initial(p: Program, s: State) {
    && Shaped(p, s)
    && (forall c | 0 <= c < |s.words| :: s.words[c] == 0)
    && s.lock == Lock(None, 0)
    && (forall t | 0 <= t < |s.threads| :: s.threads[t].stack == [])
    && s.log == []
  }

  // ----- the invariant -----

  predicate HoldsLock(f: Frame) {
    match f
    case OnceFrame(_, pc, _) =>
      pc in {AtTest, AtSpinUnlock, AtCheck, AtSetOne, AtUnlockInit, AtSetTwo, AtUnlock}
    case SectionFrame(held) => held
  }

  /** The activation is between taking the control from 0 to 1 and taking it to 2. */
  predicate Initialising(f: Frame, c: Ctl) {
    f.OnceFrame? && f.ctl == c && f.pc in {AtUnlockInit, InInit, AtRelock, AtSetTwo}
  }

  predicate InitAt(th: Thread, c: Ctl, k: nat) {
    k < |th.stack| && Initialising(th.stack[k], c)
  }

  predicate At(s: State, c: Ctl, t: Tid, k: nat) {
    t < |s.threads| && InitAt(s.threads[t], c, k)
  }

  predicate TopHolds(th: Thread) { th.stack != [] && HoldsLock(Top(th)) }

  /** Only the innermost activation can be anywhere but inside an init routine. */
  predicate Nested(th: Thread) {
    forall k | 0 <= k < |th.stack| - 1 :: th.stack[k].OnceFrame? && th.stack[k].pc == InInit
  }

  predicate LockInv(s: State) {
    && (s.lock.owner == None ==> s.lock.depth == 0)
    && (s.lock.owner.Some? ==> s.lock.depth == 1 && s.lock.owner.value < |s.threads|)
    && (forall t | 0 <= t < |s.threads| :: TopHolds(s.threads[t]) <==> s.lock.owner == Some(t))
    && (forall t | 0 <= t < |s.threads| :: Nested(s.threads[t]))
  }

  ghost predicate OwnerInv(s: State) {
    && (forall c | 0 <= c < |s.words| :: s.words[c] in {0, 1, 2})
    && (forall c | 0 <= c < |s.words| && s.words[c] == 1 :: exists t: Tid, k: nat :: At(s, c, t, k))
    && (forall c: Ctl, t: Tid, k: nat | c < |s.words| && At(s, c, t, k) :: s.words[c] == 1)
    && (forall c: Ctl, t: Tid, k: nat, u: Tid, j: nat | At(s, c, t, k) && At(s, c, u, j) :: t == u && k == j)
  }

  /** What the word must be for an activation to stand at pc. */
  predicate PcFits(pc: Pc, w: int) {
    && (pc == AtSpinUnlock ==> w == 1)
    && (pc == AtCheck ==> w != 1)
    && (pc == AtSetOne ==> w == 0)
    && (pc == AtUnlock ==> w == 2)
  }

  predicate PcsInv(s: State) {
    forall t | 0 <= t < |s.threads| ::
      var th := s.threads[t];
      th.stack != [] && Top(th).OnceFrame? ==> PcFits(Top(th).pc, Watched(s, th))
  }

  ghost predicate HasBegan(log: seq<Event>, c: Ctl) { exists t :: Began(t, c) in log }
  ghost predicate HasEnded(log: seq<Event>, c: Ctl) { exists t :: Ended(t, c) in log }

  /** The abstract once: on every control init is entered at most once and left at most once, by
      the same thread and in that order, and no call returns before it has been left. */
  ghost predicate OnceLog(log: seq<Event>) {
    && (forall i, j | 0 <= i < |log| && 0 <= j < |log| && log[i].Began? && log[j].Began?
        && log[i].ctl == log[j].ctl :: i == j)
    && (forall i, j | 0 <= i < |log| && 0 <= j < |log| && log[i].Ended? && log[j].Ended?
        && log[i].ctl == log[j].ctl :: i == j)
    && (forall i | 0 <= i < |log| && log[i].Ended? :: Began(log[i].t, log[i].ctl) in log[..i])
    && (forall i | 0 <= i < |log| && log[i].Returned? :: HasEnded(log[..i], log[i].ctl))
  }

  /** What has been logged about a control while this activation is initialising it. */
  ghost predicate LogAt(s: State, c: Ctl, t: Tid, k: nat)
    requires At(s, c, t, k)
  {
    var pc := s.threads[t].stack[k].pc;
    && (pc == AtUnlockInit ==> !HasBegan(s.log, c))
    && (pc == AtUnlockInit || pc == InInit ==> !HasEnded(s.log, c))
    && (pc != AtUnlockInit ==> Began(t, c) in s.log)
    && (pc == AtRelock || pc == AtSetTwo ==> HasEnded(s.log, c))
  }

  ghost predicate LogInv(s: State) {
    && OnceLog(s.log)
    && (forall c | 0 <= c < |s.words| && s.words[c] == 0 :: !HasBegan(s.log, c) && !HasEnded(s.log, c))
    && (forall c | 0 <= c < |s.words| && s.words[c] == 2 :: HasEnded(s.log, c))
    && (forall c: Ctl, t: Tid, k: nat | At(s, c, t, k) :: LogAt(s, c, t, k))
  }

  ghost predicate Inv(p: Program, s: State) {
    && Shaped(p, s)
    && LockInv(s)
    && OwnerInv(s)
    && PcsInv(s)
    && LogInv(s)
  }

  lemma InitialInv(p: Program, s: State)
    requires Initial(p, s)
    ensures Inv(p, s)
  {
  }

  // ----- one thread's step -----

  lemma MoveKnown(p: Program, th: Thread, w: int)
    requires Busy(th) && KnownThread(|p.calls|, th)
    requires forall c | 0 <= c < |p.calls| :: KnownCalls(|p.calls|, p.calls[c])
    ensures KnownThread(|p.calls|, Move(p, th, w))
  {
  }

  lemma MoveNested(p: Program, th: Thread, w: int)
    requires Busy(th) && KnownThread(|p.calls|, th) && Nested(th)
    ensures Nested(Move(p, th, w))
  {
  }

  lemma MoveHolds(p: Program, th: Thread, w: int)
    requires Busy(th) && KnownThread(|p.calls|, th) && Nested(th)
    ensures Acquires(th) ==> !TopHolds(th) && TopHolds(Move(p, th, w))
    ensures Releases(th) ==> TopHolds(th) && !TopHolds(Move(p, th, w))
    ensures !Acquires(th) && !Releases(th) ==> (TopHolds(th) <==> TopHolds(Move(p, th, w)))
  {
  }

  /** Only lines 174 and 178 change which activations are initialising. */
  lemma MoveInitAt(p: Program, th: Thread, w: int, c: Ctl, k: nat)
    requires Busy(th) && KnownThread(|p.calls|, th)
    ensures InitAt(Move(p, th, w), c, k) <==>
            if TopAt(th, AtSetOne) && Top(th).ctl == c && k == |th.stack| - 1 then true
            else InitAt(th, c, k) && !(TopAt(th, AtSetTwo) && k == |th.stack| - 1)
  {
  }

  // ----- the invariant is kept -----

  lemma NextShaped(p: Program, s: State, t: Tid)
    requires Shaped(p, s) && Enabled(s, t)
    ensures Shaped(p, Next(p, s, t))
  {
    MoveKnown(p, s.threads[t], Watched(s, s.threads[t]));
  }

  lemma NextLock(p: Program, s: State, t: Tid)
    requires Shaped(p, s) && LockInv(s) && Enabled(s, t)
    ensures LockInv(Next(p, s, t))
  {
    MoveNested(p, s.threads[t], Watched(s, s.threads[t]));
    MoveHolds(p, s.threads[t], Watched(s, s.threads[t]));
  }

  /** Which activations are initialising after a step, over the whole state. */
  lemma NextAt(p: Program, s: State, t: Tid, c: Ctl, u: Tid, k: nat)
    requires Shaped(p, s) && Enabled(s, t)
    ensures At(Next(p, s, t), c, u, k) <==>
            var th := s.threads[t];
            if u == t && TopAt(th, AtSetOne) && Top(th).ctl == c && k == |th.stack| - 1 then true
            else At(s, c, u, k) && !(u == t && TopAt(th, AtSetTwo) && k == |th.stack| - 1)
  {
    if u == t {
      MoveInitAt(p, s.threads[t], Watched(s, s.threads[t]), c, k);
    }
  }

  lemma NextOwner(p: Program, s: State, t: Tid)
    requires Shaped(p, s) && LockInv(s) && OwnerInv(s) && PcsInv(s) && Enabled(s, t)
    ensures OwnerInv(Next(p, s, t))
  {
    var n := Next(p, s, t);
    var th := s.threads[t];
    forall c: Ctl, u: Tid, k: nat | c < |n.words| && At(n, c, u, k)
      ensures n.words[c] == 1
    {
      NextAt(p, s, t, c, u, k);
      if TopAt(th, AtSetTwo) {
        assert At(s, Top(th).ctl, t, |th.stack| - 1);
      }
    }
    forall c: Ctl | c < |n.words| && n.words[c] == 1
      ensures exists u: Tid, k: nat :: At(n, c, u, k)
    {
      if TopAt(th, AtSetOne) && Top(th).ctl == c {
        NextAt(p, s, t, c, t, |th.stack| - 1);
      } else {
        var u: Tid, k: nat :| At(s, c, u, k);
        NextAt(p, s, t, c, u, k);
      }
    }
    forall c: Ctl, u: Tid, k: nat, v: Tid, j: nat | At(n, c, u, k) && At(n, c, v, j)
      ensures u == v && k == j
    {
      NextAt(p, s, t, c, u, k);
      NextAt(p, s, t, c, v, j);
    }
  }

  lemma NextPcs(p: Program, s: State, t: Tid)
    requires Shaped(p, s) && LockInv(s) && PcsInv(s) && OwnerInv(s) && Enabled(s, t)
    ensures PcsInv(Next(p, s, t))
  {
    var n := Next(p, s, t);
    forall u | 0 <= u < |n.threads| && n.threads[u].stack != [] && Top(n.threads[u]).OnceFrame?
      ensures PcFits(Top(n.threads[u]).pc, Watched(n, n.threads[u]))
    {
      if u != t && n.words != s.words {
        assert TopHolds(s.threads[t]) && !TopHolds(s.threads[u]);
      }
    }
  }

  lemma LogAppend(log: seq<Event>, e: Event)
    requires OnceLog(log)
    requires e.Began? ==> !HasBegan(log, e.ctl)
    requires e.Ended? ==> Began(e.t, e.ctl) in log && !HasEnded(log, e.ctl)
    requires e.Returned? ==> HasEnded(log, e.ctl)
    ensures OnceLog(log + [e])
  {
    var n := log + [e];
    assert n[..|log|] == log;
    assert forall i | 0 <= i < |log| :: n[..i] == log[..i];
    if e.Began? {
      assert forall i | 0 <= i < |log| && log[i].Began? && log[i].ctl == e.ctl :: Began(log[i].t, e.ctl) in log;
    }
    if e.Ended? {
      assert forall i | 0 <= i < |log| && log[i].Ended? && log[i].ctl == e.ctl :: Ended(log[i].t, e.ctl) in log;
    }
  }

  lemma SeenAfter(log: seq<Event>, es: seq<Event>, c: Ctl)
    requires |es| <= 1
    ensures HasBegan(log + es, c) <==> HasBegan(log, c) || (es != [] && es[0].Began? && es[0].ctl == c)
    ensures HasEnded(log + es, c) <==> HasEnded(log, c) || (es != [] && es[0].Ended? && es[0].ctl == c)
  {
    if es != [] {
      var e := es[0];
      assert e in log + es;
      assert e == Began(e.t, e.ctl) || e == Ended(e.t, e.ctl) || e == Returned(e.t, e.ctl);
    }
    forall t | Began(t, c) in log ensures HasBegan(log + es, c) { assert Began(t, c) in log + es; }
    forall t | Ended(t, c) in log ensures HasEnded(log + es, c) { assert Ended(t, c) in log + es; }
  }

  lemma NextOnceLog(p: Program, s: State, t: Tid)
    requires Inv(p, s) && Enabled(s, t)
    ensures OnceLog(Next(p, s, t).log)
  {
    var th := s.threads[t];
    if TopAt(th, AtUnlockInit) || TopAt(th, InInit) {
      assert At(s, Top(th).ctl, t, |th.stack| - 1);
    }
    if EventOf(th, t) != [] {
      LogAppend(s.log, EventOf(th, t)[0]);
    } else {
      assert s.log + [] == s.log;
    }
  }

  lemma NextLog(p: Program, s: State, t: Tid)
    requires Inv(p, s) && Enabled(s, t)
    ensures LogInv(Next(p, s, t))
  {
    NextOnceLog(p, s, t);
    var n := Next(p, s, t);
    var th := s.threads[t];
    var k0 := |th.stack| - 1;
    forall c: Ctl | c < |s.words|
      ensures n.words[c] == 0 ==> !HasBegan(n.log, c) && !HasEnded(n.log, c)
      ensures n.words[c] == 2 ==> HasEnded(n.log, c)
    {
      SeenAfter(s.log, EventOf(th, t), c);
      if k0 >= 0 && Initialising(Top(th), c) {
        assert At(s, c, t, k0);
      }
    }
    forall c: Ctl, u: Tid, k: nat | At(n, c, u, k)
      ensures LogAt(n, c, u, k)
    {
      NextLogAt(p, s, t, c, u, k);
    }
  }

  lemma NextLogAt(p: Program, s: State, t: Tid, c: Ctl, u: Tid, k: nat)
    requires Inv(p, s) && Enabled(s, t) && At(Next(p, s, t), c, u, k)
    ensures LogAt(Next(p, s, t), c, u, k)
  {
    var th := s.threads[t];
    NextAt(p, s, t, c, u, k);
    SeenAfter(s.log, EventOf(th, t), c);
    var k0 := |th.stack| - 1;
    if k0 >= 0 && Initialising(Top(th), c) {
      assert At(s, c, t, k0);
    }
  }

  /** One step of any thread keeps the invariant. */
  lemma NextInv(p: Program, s: State, t: Tid)
    requires Inv(p, s) && Enabled(s, t)
    ensures Inv(p, Next(p, s, t))
  {
    NextShaped(p, s, t);
    NextLock(p, s, t);
    NextOwner(p, s, t);
    NextPcs(p, s, t);
    NextLog(p, s, t);
  }

  // ----- schedules -----

  predicate CanRun(p: Program, s: State, sched: seq<Tid>)
    decreases |sched|
  {
    Shaped(p, s) && (sched == [] || (Enabled(s, sched[0]) && CanRun(p, Next(p, s, sched[0]), sched[1..])))
  }

  function Exec(p: Program, s: State, sched: seq<Tid>): State
    requires CanRun(p, s, sched)
    decreases |sched|
  {
    if sched == [] then s else Exec(p, Next(p, s, sched[0]), sched[1..])
  }

  lemma {:induction false} ExecInv(p: Program, s: State, sched: seq<Tid>)
    requires CanRun(p, s, sched) && Inv(p, s)
    ensures Inv(p, Exec(p, s, sched))
    decreases |sched|
  {
    if sched == [] {
    } else {
      NextInv(p, s, sched[0]);
      ExecInv(p, Next(p, s, sched[0]), sched[1..]);
    }
  }

  lemma {:induction false} ExecAppend(p: Program, s: State, a: seq<Tid>, b: seq<Tid>)
    requires CanRun(p, s, a) && CanRun(p, Exec(p, s, a), b)
    ensures CanRun(p, s, a + b) && Exec(p, s, a + b) == Exec(p, Exec(p, s, a), b)
    decreases |a|
  {
    hide Shaped, Enabled, Next;
    if a == [] {
      assert a + b == b;
    } else {
      assert (a + b)[1..] == a[1..] + b;
      ExecAppend(p, Next(p, s, a[0]), a[1..], b);
    }
  }

  // ----- safety -----

  /** In every interleaving from controls at 0, the observable history is one of the abstract once,
      and g_lock is held exactly once by the thread inside a critical section, or not at all. */
  lemma RunsAreOnce(p: Program, s: State, sched: seq<Tid>)
    requires Initial(p, s) && CanRun(p, s, sched)
    ensures OnceLog(Exec(p, s, sched).log)
    ensures var e := Exec(p, s, sched);
            forall t | 0 <= t < |e.threads| :: TopHolds(e.threads[t]) <==> e.lock == Lock(Some(t), 1)
  {
    InitialInv(p, s);
    ExecInv(p, s, sched);
  }

  lemma NextClimbs(p: Program, s: State, t: Tid, c: Ctl)
    requires Shaped(p, s) && OwnerInv(s) && PcsInv(s) && Enabled(s, t) && c < |s.words|
    ensures |Next(p, s, t).words| == |s.words|
    ensures 0 <= s.words[c] <= Next(p, s, t).words[c] <= 2
    ensures Next(p, s, t).words[c] - s.words[c] <= 1
  {
    var th := s.threads[t];
    if TopAt(th, AtSetTwo) {
      assert At(s, Top(th).ctl, t, |th.stack| - 1);
    }
  }

  /** From any reachable state on, a control's word only moves from 0 to 1 to 2; each step adds at
      most 1. */
  lemma {:induction false} WordsOnlyClimb(p: Program, s: State, sched: seq<Tid>, c: Ctl)
    requires Inv(p, s) && CanRun(p, s, sched) && c < |p.calls|
    ensures |Exec(p, s, sched).words| == |p.calls|
    ensures 0 <= s.words[c] <= Exec(p, s, sched).words[c] <= 2
    ensures Exec(p, s, sched).words[c] - s.words[c] <= |sched|
    decreases |sched|
  {
    if sched == [] {
    } else {
      NextClimbs(p, s, sched[0], c);
      NextInv(p, s, sched[0]);
      WordsOnlyClimb(p, Next(p, s, sched[0]), sched[1..], c);
    }
  }

  // ----- progress, for init routines whose calls follow an acyclic order -----

  /** Every control an init routine calls b_once on has a smaller rank. */
  predicate Acyclic(p: Program) {
    && |p.rank| == |p.calls|
    && (forall c | 0 <= c < |p.calls| :: KnownCalls(|p.calls|, p.calls[c]))
    && (forall c, i | 0 <= c < |p.calls| && 0 <= i < |p.calls[c]| && p.calls[c][i].Once? ::
          p.rank[p.calls[c][i].ctl] < p.rank[c])
  }

  /** One more than the largest rank among the controls in calls. */
  function Height(p: Program, calls: seq<Call>): nat
    requires |p.rank| == |p.calls| && KnownCalls(|p.calls|, calls)
  {
    if calls == [] then 0
    else
      var rest := Height(p, calls[1..]);
      if calls[0].Once? && p.rank[calls[0].ctl] + 1 > rest then p.rank[calls[0].ctl] + 1 else rest
  }

  lemma {:induction false} HeightBelow(p: Program, calls: seq<Call>, r: nat)
    requires |p.rank| == |p.calls| && KnownCalls(|p.calls|, calls)
    requires forall i | 0 <= i < |calls| && calls[i].Once? :: p.rank[calls[i].ctl] < r
    ensures Height(p, calls) <= r
  {
    if calls == [] {
    } else {
      HeightBelow(p, calls[1..], r);
    }
  }

  /** How many non-spinning steps making these calls takes at most. */
  function Cost(p: Program, calls: seq<Call>): nat
    requires Acyclic(p) && KnownCalls(|p.calls|, calls)
    decreases Height(p, calls), |calls|
  {
    if calls == [] then 0
    else
      match calls[0]
      case Section => 3 + Cost(p, calls[1..])
      case Once(c) =>
        HeightBelow(p, p.calls[c], p.rank[c]);
        10 + Cost(p, p.calls[c]) + Cost(p, calls[1..])
  }

  function FrameWork(p: Program, f: Frame): nat
    requires Acyclic(p) && KnownFrame(|p.calls|, f)
  {
    match f
    case SectionFrame(held) => if held then 1 else 2
    case OnceFrame(c, pc, todo) =>
      match pc
      case AtLock => 9 + Cost(p, p.calls[c])
      case AtTest | AtSpinUnlock | AtSleep | AtSpinLock => 8 + Cost(p, p.calls[c])
      case AtCheck => 7 + Cost(p, p.calls[c])
      case AtSetOne => 6 + Cost(p, p.calls[c])
      case AtUnlockInit => 5 + Cost(p, p.calls[c])
      case InInit => 4 + Cost(p, todo)
      case AtRelock => 3
      case AtSetTwo => 2
      case AtUnlock => 1
  }

  function StackWork(p: Program, stack: seq<Frame>): nat
    requires Acyclic(p) && forall k | 0 <= k < |stack| :: KnownFrame(|p.calls|, stack[k])
  {
    if stack == [] then 0 else StackWork(p, stack[..|stack| - 1]) + FrameWork(p, stack[|stack| - 1])
  }

  function ThreadWork(p: Program, th: Thread): nat
    requires Acyclic(p) && KnownThread(|p.calls|, th)
  {
    StackWork(p, th.stack) + Cost(p, th.todo)
  }

  function TotalWork(p: Program, threads: seq<Thread>): nat
    requires Acyclic(p) && forall t | 0 <= t < |threads| :: KnownThread(|p.calls|, threads[t])
  {
    if threads == [] then 0 else ThreadWork(p, threads[0]) + TotalWork(p, threads[1..])
  }

  function Work(p: Program, s: State): nat
    requires Acyclic(p) && Shaped(p, s)
  {
    TotalWork(p, s.threads)
  }

  /** The thread's next step is one of the waiting loop of lines 168-171. */
  predicate Spinning(s: State, t: Tid) {
    t < |s.threads| && InLoop(s.threads[t], Watched(s, s.threads[t]))
  }

  lemma StackWorkPush(p: Program, stack: seq<Frame>, f: Frame)
    requires Acyclic(p) && KnownFrame(|p.calls|, f) && forall k | 0 <= k < |stack| :: KnownFrame(|p.calls|, stack[k])
    ensures StackWork(p, stack + [f]) == StackWork(p, stack) + FrameWork(p, f)
  {
    assert (stack + [f])[..|stack|] == stack;
  }

  /** The thread, watching a word w, is in the waiting loop of lines 168-171. */
  predicate LoopPc(pc: Pc, w: int) {
    pc in {AtSpinUnlock, AtSleep, AtSpinLock} || (pc == AtTest && w == 1)
  }

  predicate InLoop(th: Thread, w: int) {
    th.stack != [] && Top(th).OnceFrame? && LoopPc(Top(th).pc, w)
  }

  lemma CallWork(p: Program, th: Thread, w: int)
    requires Acyclic(p) && KnownThread(|p.calls|, th) && th.stack != [] && Calls(Top(th))
    requires KnownThread(|p.calls|, Move(p, th, w))
    ensures ThreadWork(p, Move(p, th, w)) == ThreadWork(p, th) - 1
  {
    var below := th.stack[..|th.stack| - 1];
    var top := Top(th);
    var rest := OnceFrame(top.ctl, InInit, top.todo[1..]);
    var m := Move(p, th, w);
    assert m.stack == below + [rest] + [FrameFor(top.todo[0])];
    assert KnownFrame(|p.calls|, m.stack[|below|]) && KnownFrame(|p.calls|, m.stack[|below| + 1]);
    StackWorkPush(p, below + [rest], FrameFor(top.todo[0]));
    StackWorkPush(p, below, rest);
    assert FrameWork(p, top) == 4 + Cost(p, top.todo);
    if top.todo[0].Once? {
      assert Cost(p, top.todo) == 10 + Cost(p, p.calls[top.todo[0].ctl]) + Cost(p, top.todo[1..]);
    }
  }

  lemma TurnWork(p: Program, f: Frame, w: int)
    requires Acyclic(p) && KnownFrame(|p.calls|, f) && !Returns(f) && !Calls(f)
    ensures KnownFrame(|p.calls|, Turn(p, f, w))
    ensures FrameWork(p, Turn(p, f, w)) <= FrameWork(p, f) - (if f.OnceFrame? && LoopPc(f.pc, w) then 0 else 1)
  {
  }

  lemma TopWork(p: Program, th: Thread, w: int)
    requires Acyclic(p) && KnownThread(|p.calls|, th) && th.stack != [] && !Calls(Top(th))
    requires KnownThread(|p.calls|, Move(p, th, w))
    ensures ThreadWork(p, Move(p, th, w)) <= ThreadWork(p, th) - (if InLoop(th, w) then 0 else 1)
  {
    var below := th.stack[..|th.stack| - 1];
    if !Returns(Top(th)) {
      TurnWork(p, Top(th), w);
      StackWorkPush(p, below, Turn(p, Top(th), w));
    }
  }

  lemma MoveWork(p: Program, th: Thread, w: int)
    requires Acyclic(p) && Busy(th) && KnownThread(|p.calls|, th)
    requires KnownThread(|p.calls|, Move(p, th, w))
    ensures ThreadWork(p, Move(p, th, w)) <= ThreadWork(p, th) - (if InLoop(th, w) then 0 else 1)
  {
    if th.stack == [] {
      assert KnownFrame(|p.calls|, Move(p, th, w).stack[0]);
      StackWorkPush(p, [], FrameFor(th.todo[0]));
      assert [] + [FrameFor(th.todo[0])] == Move(p, th, w).stack;
    } else if Calls(Top(th)) {
      CallWork(p, th, w);
    } else {
      TopWork(p, th, w);
    }
  }

  lemma {:induction false} TotalWorkUpdate(p: Program, threads: seq<Thread>, t: Tid, th: Thread)
    requires Acyclic(p) && t < |threads| && KnownThread(|p.calls|, th)
    requires forall u | 0 <= u < |threads| :: KnownThread(|p.calls|, threads[u])
    ensures TotalWork(p, threads[t := th]) == TotalWork(p, threads) - ThreadWork(p, threads[t]) + ThreadWork(p, th)
  {
    if t == 0 {
      assert threads[0 := th][1..] == threads[1..];
    } else {
      assert threads[t := th][1..] == threads[1..][t - 1 := th];
      TotalWorkUpdate(p, threads[1..], t - 1, th);
    }
  }

  /** No step adds work, and only the steps of the waiting loop fail to use some up. */
  lemma NextWork(p: Program, s: State, t: Tid)
    requires Acyclic(p) && Shaped(p, s) && Enabled(s, t)
    ensures Shaped(p, Next(p, s, t))
    ensures Work(p, Next(p, s, t)) <= Work(p, s) - (if Spinning(s, t) then 0 else 1)
  {
    NextShaped(p, s, t);
    var th := s.threads[t];
    var m := Move(p, th, Watched(s, th));
    assert Next(p, s, t).threads[t] == m;
    MoveWork(p, th, Watched(s, th));
    TotalWorkUpdate(p, s.threads, t, m);
  }

  /** How many steps of the schedule are not steps of the waiting loop. */
  function Effort(p: Program, s: State, sched: seq<Tid>): nat
    requires CanRun(p, s, sched)
    decreases |sched|
  {
    if sched == [] then 0
    else (if Spinning(s, sched[0]) then 0 else 1) + Effort(p, Next(p, s, sched[0]), sched[1..])
  }

  /** Whatever the schedule, the steps outside the waiting loop are bounded in advance. */
  lemma {:induction false} EffortIsBounded(p: Program, s: State, sched: seq<Tid>)
    requires Acyclic(p) && CanRun(p, s, sched)
    ensures Shaped(p, Exec(p, s, sched))
    ensures Effort(p, s, sched) + Work(p, Exec(p, s, sched)) <= Work(p, s)
    decreases |sched|
  {
    if sched == [] {
    } else {
      NextWork(p, s, sched[0]);
      EffortIsBounded(p, Next(p, s, sched[0]), sched[1..]);
    }
  }

  // ----- some thread can always do more than spin -----

  predicate LowerCalls(p: Program, calls: seq<Call>, r: nat)
    requires |p.rank| == |p.calls| && KnownCalls(|p.calls|, calls)
  {
    forall i | 0 <= i < |calls| && calls[i].Once? :: p.rank[calls[i].ctl] < r
  }

  /** Down the stack of a thread, from an init routine to what it called, ranks fall. */
  predicate Descending(p: Program, th: Thread)
    requires |p.rank| == |p.calls| && KnownThread(|p.calls|, th)
  {
    && (forall k | 0 <= k < |th.stack| :: th.stack[k].OnceFrame? && th.stack[k].pc == InInit ==>
          LowerCalls(p, th.stack[k].todo, p.rank[th.stack[k].ctl]))
    && (forall j, k | 0 <= j < k < |th.stack| :: th.stack[j].OnceFrame? && th.stack[k].OnceFrame? ==>
          p.rank[th.stack[k].ctl] < p.rank[th.stack[j].ctl])
  }

  predicate RankInv(p: Program, s: State)
    requires Shaped(p, s)
  {
    forall t | 0 <= t < |s.threads| :: Descending(p, s.threads[t])
  }

  lemma MoveDescending(p: Program, th: Thread, w: int)
    requires Acyclic(p) && Busy(th) && KnownThread(|p.calls|, th) && Nested(th) && Descending(p, th)
    requires KnownThread(|p.calls|, Move(p, th, w))
    ensures Descending(p, Move(p, th, w))
  {
  }

  lemma NextRank(p: Program, s: State, t: Tid)
    requires Acyclic(p) && Inv(p, s) && RankInv(p, s) && Enabled(s, t)
    ensures Shaped(p, Next(p, s, t)) && RankInv(p, Next(p, s, t))
  {
    NextShaped(p, s, t);
    MoveKnown(p, s.threads[t], Watched(s, s.threads[t]));
    MoveDescending(p, s.threads[t], Watched(s, s.threads[t]));
  }

  lemma {:induction false} ExecRank(p: Program, s: State, sched: seq<Tid>)
    requires Acyclic(p) && CanRun(p, s, sched) && Inv(p, s) && RankInv(p, s)
    ensures Shaped(p, Exec(p, s, sched)) && RankInv(p, Exec(p, s, sched))
    decreases |sched|
  {
    if sched == [] {
    } else {
      NextInv(p, s, sched[0]);
      NextRank(p, s, sched[0]);
      ExecRank(p, Next(p, s, sched[0]), sched[1..]);
    }
  }

  lemma {:induction false} BusyHasWork(p: Program, threads: seq<Thread>, t: Tid)
    requires Acyclic(p) && t < |threads| && Busy(threads[t])
    requires forall u | 0 <= u < |threads| :: KnownThread(|p.calls|, threads[u])
    ensures TotalWork(p, threads) > 0
  {
    if t == 0 {
    } else {
      BusyHasWork(p, threads[1..], t - 1);
    }
  }

  lemma {:induction false} FinishedHasNoWork(p: Program, threads: seq<Thread>)
    requires Acyclic(p) && forall u | 0 <= u < |threads| :: KnownThread(|p.calls|, threads[u]) && !Busy(threads[u])
    ensures TotalWork(p, threads) == 0
  {
    if threads == [] {
    } else {
      FinishedHasNoWork(p, threads[1..]);
    }
  }

  /** Parked in the waiting loop on a control that is still being initialised. */
  predicate Waiting(s: State, t: Tid) {
    Spinning(s, t) && Watched(s, s.threads[t]) == 1
  }

  lemma {:induction false} WakefulFor(p: Program, s: State, c: Ctl) returns (t: Tid)
    requires Acyclic(p) && Inv(p, s) && RankInv(p, s) && c < |s.words| && s.words[c] == 1
    ensures t < |s.threads| && Busy(s.threads[t]) && !Waiting(s, t)
    decreases p.rank[c]
  {
    var k: nat;
    t, k :| At(s, c, t, k);
    if !Waiting(s, t) {
    } else {
      var th := s.threads[t];
      assert k < |th.stack| - 1;
      t := WakefulFor(p, s, Top(th).ctl);
    }
  }

  predicate Finished(s: State) { forall t | 0 <= t < |s.threads| :: !Busy(s.threads[t]) }

  lemma Wakeful(p: Program, s: State) returns (t: Tid)
    requires Acyclic(p) && Inv(p, s) && RankInv(p, s) && !Finished(s)
    ensures t < |s.threads| && Busy(s.threads[t]) && !Waiting(s, t)
  {
    t :| t < |s.threads| && Busy(s.threads[t]);
    if Waiting(s, t) {
      t := WakefulFor(p, s, Top(s.threads[t]).ctl);
    }
  }

  lemma OneStep(p: Program, s: State, t: Tid)
    requires Acyclic(p) && Inv(p, s) && Enabled(s, t)
    ensures Inv(p, Next(p, s, t)) && CanRun(p, s, [t]) && Exec(p, s, [t]) == Next(p, s, t)
    ensures Work(p, Next(p, s, t)) <= Work(p, s) - (if Spinning(s, t) then 0 else 1)
  {
    NextInv(p, s, t);
    NextWork(p, s, t);
  }

  /** A step of the waiting loop moves nothing but the thread's own pc and g_lock. */
  lemma LoopStep(p: Program, s: State, t: Tid)
    requires Shaped(p, s) && Enabled(s, t) && Spinning(s, t)
    ensures var th, n := s.threads[t], Next(p, s, t);
            && |n.threads| == |s.threads| && n.words == s.words
            && TopAt(n.threads[t], NextPc(Top(th).pc, Watched(s, th)))
            && Watched(n, n.threads[t]) == Watched(s, th)
            && n.lock == if Acquires(th) then s.lock.Acquire(t) else if Releases(th) then s.lock.Release() else s.lock
  {
  }

  /** With g_lock free, a wakeful thread uses up work within three steps of its own. */
  lemma WakefulRuns(p: Program, s: State, t: Tid) returns (sched: seq<Tid>)
    requires Acyclic(p) && Inv(p, s) && t < |s.threads| && Busy(s.threads[t]) && !Waiting(s, t)
    requires s.lock.FreeFor(t)
    ensures |sched| <= 3 && CanRun(p, s, sched) && Shaped(p, Exec(p, s, sched))
    ensures Work(p, Exec(p, s, sched)) < Work(p, s)
    ensures TopAt(s.threads[t], AtTest) ==> |sched| == 1
    ensures TopAt(s.threads[t], AtSpinLock) ==> |sched| == 2
    decreases if TopAt(s.threads[t], AtSleep) then 2 else if TopAt(s.threads[t], AtSpinLock) then 1 else 0
  {
    OneStep(p, s, t);
    sched := [t];
    if !Spinning(s, t) {
    } else {
      LoopStep(p, s, t);
      assert !TopAt(s.threads[t], AtSpinUnlock);
      var rest := WakefulRuns(p, Next(p, s, t), t);
      ExecAppend(p, s, [t], rest);
      sched := [t] + rest;
    }
  }

  /** A thread that holds g_lock is never blocked, and lets go of it after at most two steps, or
      uses up work at once. */
  lemma HolderRuns(p: Program, s: State, t: Tid) returns (sched: seq<Tid>)
    requires Acyclic(p) && Inv(p, s) && s.lock.owner == Some(t)
    ensures Enabled(s, t)
    ensures |sched| <= 2 && CanRun(p, s, sched) && Shaped(p, Exec(p, s, sched))
    ensures Work(p, Exec(p, s, sched)) < Work(p, s)
        || (Work(p, Exec(p, s, sched)) <= Work(p, s) && Exec(p, s, sched).lock.owner == None)
    decreases if TopAt(s.threads[t], AtTest) then 1 else 0
  {
    assert TopHolds(s.threads[t]);
    OneStep(p, s, t);
    sched := [t];
    if Spinning(s, t) {
      LoopStep(p, s, t);
      if TopAt(s.threads[t], AtTest) {
        OneStep(p, Next(p, s, t), t);
        LoopStep(p, Next(p, s, t), t);
        ExecAppend(p, s, [t], [t]);
        sched := [t] + [t];
      }
    }
  }

  lemma NoWorkFinished(p: Program, s: State)
    requires Acyclic(p) && Shaped(p, s)
    ensures Work(p, s) == 0 <==> Finished(s)
  {
    if Finished(s) {
      FinishedHasNoWork(p, s.threads);
    } else {
      var t: Tid :| t < |s.threads| && Busy(s.threads[t]);
      BusyHasWork(p, s.threads, t);
    }
  }

  lemma FreeProgress(p: Program, s: State) returns (sched: seq<Tid>)
    requires Acyclic(p) && Inv(p, s) && RankInv(p, s) && !Finished(s) && s.lock.owner == None
    ensures |sched| <= 3 && CanRun(p, s, sched) && Shaped(p, Exec(p, s, sched))
    ensures Work(p, Exec(p, s, sched)) < Work(p, s)
  {
    var t := Wakeful(p, s);
    sched := WakefulRuns(p, s, t);
  }

  /** In every reachable unfinished state some schedule of at most five steps uses up work: first
      the holder of g_lock leaves, then a thread that is not waiting moves. */
  lemma Progress(p: Program, s: State) returns (sched: seq<Tid>)
    requires Acyclic(p) && Inv(p, s) && RankInv(p, s) && !Finished(s)
    ensures |sched| <= 5 && CanRun(p, s, sched) && Shaped(p, Exec(p, s, sched))
    ensures Work(p, Exec(p, s, sched)) < Work(p, s)
  {
    if s.lock.owner == None {
      sched := FreeProgress(p, s);
    } else {
      sched := HolderRuns(p, s, s.lock.owner.value);
      var m := Exec(p, s, sched);
      if Work(p, m) == Work(p, s) {
        ExecInv(p, s, sched);
        ExecRank(p, s, sched);
        NoWorkFinished(p, s);
        NoWorkFinished(p, m);
        var b := FreeProgress(p, m);
        ExecAppend(p, s, sched, b);
        sched := sched + b;
      }
    }
  }

  /** From every reachable state some schedule lets every thread return from all its calls. */
  lemma {:induction false} CanComplete(p: Program, s: State) returns (sched: seq<Tid>)
    requires Acyclic(p) && Inv(p, s) && RankInv(p, s)
    ensures CanRun(p, s, sched) && Finished(Exec(p, s, sched))
    decreases Work(p, s)
  {
    sched := [];
    if Finished(s) {
    } else {
      sched := Progress(p, s);
      ExecInv(p, s, sched);
      ExecRank(p, s, sched);
      var rest := CanComplete(p, Exec(p, s, sched));
      ExecAppend(p, s, sched, rest);
      sched := sched + rest;
    }
  }

  predicate Asks(f: Frame, c: Ctl) {
    f.OnceFrame? && (f.ctl == c || (f.pc == InInit && Once(c) in f.todo))
  }

  /** The control has been asked for: it is still to be called, or a call on it is under way. */
  predicate Requested(th: Thread, c: Ctl) {
    Once(c) in th.todo || exists k :: 0 <= k < |th.stack| && Asks(th.stack[k], c)
  }

  lemma MoveRequested(p: Program, th: Thread, w: int, c: Ctl)
    requires Busy(th) && KnownThread(|p.calls|, th) && Requested(th, c)
    ensures Requested(Move(p, th, w), c) || (TopAt(th, AtUnlock) && Top(th).ctl == c)
  {
    var m := Move(p, th, w);
    if Once(c) !in th.todo {
      var k :| 0 <= k < |th.stack| && Asks(th.stack[k], c);
      if k < |th.stack| - 1 {
        assert Asks(m.stack[k], c);
      } else if Calls(Top(th)) {
        assert Top(th).todo == [Top(th).todo[0]] + Top(th).todo[1..];
        assert Asks(m.stack[k], c) || Asks(m.stack[k + 1], c);
      } else if !Returns(Top(th)) {
        assert Asks(m.stack[k], c);
      }
    } else if th.stack == [] && Once(c) !in th.todo[1..] {
      assert Asks(m.stack[0], c);
    }
  }

  lemma {:induction false} ExecRequested(p: Program, s: State, sched: seq<Tid>, t: Tid, c: Ctl)
    requires CanRun(p, s, sched) && Inv(p, s) && t < |s.threads| && c < |s.words|
    requires Requested(s.threads[t], c) || HasEnded(s.log, c)
    ensures var e := Exec(p, s, sched); |e.threads| == |s.threads| && (Requested(e.threads[t], c) || HasEnded(e.log, c))
    decreases |sched|
  {
    if sched == [] {
    } else {
      var u := sched[0];
      var n := Next(p, s, u);
      NextInv(p, s, u);
      SeenAfter(s.log, EventOf(s.threads[u], u), c);
      if Requested(s.threads[t], c) && u == t {
        MoveRequested(p, s.threads[t], Watched(s, s.threads[t]), c);
      }
      ExecRequested(p, n, sched[1..], t, c);
    }
  }

  /** When every thread has returned, each control any of them was to call has been initialised,
      and by OnceLog exactly once. */
  lemma FinishedMeansInitialised(p: Program, s: State, sched: seq<Tid>, t: Tid, c: Ctl)
    requires Initial(p, s) && CanRun(p, s, sched) && Finished(Exec(p, s, sched))
    requires t < |s.threads| && Once(c) in s.threads[t].todo
    ensures HasEnded(Exec(p, s, sched).log, c) && OnceLog(Exec(p, s, sched).log)
  {
    InitialInv(p, s);
    assert c < |s.words| by {
      var i :| 0 <= i < |s.threads[t].todo| && s.threads[t].todo[i] == Once(c);
    }
    ExecRequested(p, s, sched, t, c);
    ExecInv(p, s, sched);
  }

  /** Initial states descend trivially, so the progress results hold from them. */
  lemma InitialRank(p: Program, s: State)
    requires Acyclic(p) && Initial(p, s)
    ensures RankInv(p, s)
  {
  }

  /** However a run from controls at 0 has gone so far, it can still be finished: every thread
      returns, and nothing is left that waits. */
  lemma RunsCanFinish(p: Program, s: State, sched: seq<Tid>) returns (rest: seq<Tid>)
    requires Acyclic(p) && Initial(p, s) && CanRun(p, s, sched)
    ensures CanRun(p, s, sched + rest) && Finished(Exec(p, s, sched + rest))
  {
    hide Acyclic, Inv, RankInv, Enabled, Next, Shaped, Finished;
    InitialInv(p, s);
    InitialRank(p, s);
    ExecInv(p, s, sched);
    ExecRank(p, s, sched);
    rest := CanComplete(p, Exec(p, s, sched));
    ExecAppend(p, s, sched, rest);
  }

  // ----- finishing needs an acyclic order -----

  /** Of the calls the init routine of an activation makes, this one is still to come, is under way,
      or has had its effect. */
  ghost predicate Accounted(th: Thread, k: nat, c: Ctl, log: seq<Event>)
    requires k < |th.stack| && th.stack[k].OnceFrame?
  {
    || Once(c) in th.stack[k].todo
    || (k + 1 < |th.stack| && th.stack[k + 1].OnceFrame? && th.stack[k + 1].ctl == c)
    || HasEnded(log, c)
  }

  ghost predicate FrameCalls(p: Program, th: Thread, k: nat, log: seq<Event>)
    requires k < |th.stack| && KnownFrame(|p.calls|, th.stack[k])
  {
    th.stack[k].OnceFrame? && th.stack[k].pc == InInit ==>
      forall c: Ctl | Once(c) in p.calls[th.stack[k].ctl] :: Accounted(th, k, c, log)
  }

  ghost predicate ThreadCalls(p: Program, th: Thread, log: seq<Event>)
    requires KnownThread(|p.calls|, th)
  {
    forall k: nat | k < |th.stack| :: FrameCalls(p, th, k, log)
  }

  /** When an init routine ends, so has that of every control it calls. */
  ghost predicate LogCalls(p: Program, log: seq<Event>) {
    forall i | 0 <= i < |log| && log[i].Ended? && log[i].ctl < |p.calls| :: EndedAfterCalls(p, log, i)
  }

  ghost predicate EndedAfterCalls(p: Program, log: seq<Event>, i: nat)
    requires i < |log| && log[i].ctl < |p.calls|
  {
    forall c: Ctl | Once(c) in p.calls[log[i].ctl] :: HasEnded(log[..i], c)
  }

  ghost predicate CallsInv(p: Program, s: State)
    requires Shaped(p, s)
  {
    LogCalls(p, s.log) && forall t | 0 <= t < |s.threads| :: ThreadCalls(p, s.threads[t], s.log)
  }

  /** What has ended stays so. */
  lemma AccountedLater(th: Thread, k: nat, c: Ctl, log: seq<Event>, es: seq<Event>)
    requires k < |th.stack| && th.stack[k].OnceFrame? && Accounted(th, k, c, log) && |es| <= 1
    ensures Accounted(th, k, c, log + es)
  {
    SeenAfter(log, es, c);
  }

  /** A step of the thread itself: a call that returns has had its effect. */
  lemma MoveCalls(p: Program, th: Thread, w: int, log: seq<Event>, k: nat)
    requires Busy(th) && KnownThread(|p.calls|, th) && Nested(th) && ThreadCalls(p, th, log)
    requires forall c | 0 <= c < |p.calls| :: KnownCalls(|p.calls|, p.calls[c])
    requires TopAt(th, AtUnlock) ==> HasEnded(log, Top(th).ctl)
    requires KnownThread(|p.calls|, Move(p, th, w)) && k < |Move(p, th, w).stack|
    ensures FrameCalls(p, Move(p, th, w), k, log)
  {
    var m := Move(p, th, w);
    if k < |th.stack| && th.stack[k].OnceFrame? && m.stack[k].OnceFrame? && m.stack[k].pc == InInit {
      assert FrameCalls(p, th, k, log);
      forall c: Ctl | Once(c) in p.calls[m.stack[k].ctl]
        ensures Accounted(m, k, c, log)
      {
        if th.stack[k].pc == InInit {
          assert Accounted(th, k, c, log);
          if k == |th.stack| - 1 && Calls(Top(th)) {
            assert Top(th).todo == [Top(th).todo[0]] + Top(th).todo[1..];
          }
        }
      }
    }
  }

  lemma LogCallsAppend(p: Program, log: seq<Event>, e: Event)
    requires LogCalls(p, log)
    requires e.Ended? && e.ctl < |p.calls| ==> forall c: Ctl | Once(c) in p.calls[e.ctl] :: HasEnded(log, c)
    ensures LogCalls(p, log + [e])
  {
    var n := log + [e];
    assert n[..|log|] == log;
    forall i | 0 <= i < |n| && n[i].Ended? && n[i].ctl < |p.calls|
      ensures EndedAfterCalls(p, n, i)
    {
      if i < |log| {
        assert n[..i] == log[..i] && EndedAfterCalls(p, log, i);
      }
    }
  }

  lemma NextLogCalls(p: Program, s: State, t: Tid)
    requires Inv(p, s) && CallsInv(p, s) && Enabled(s, t)
    ensures LogCalls(p, Next(p, s, t).log)
  {
    var th := s.threads[t];
    var es := EventOf(th, t);
    if es == [] {
      assert s.log + [] == s.log;
    } else {
      if es[0].Ended? {
        assert FrameCalls(p, th, |th.stack| - 1, s.log);
      }
      hide LogCalls;
      LogCallsAppend(p, s.log, es[0]);
    }
  }

  lemma NextCalls(p: Program, s: State, t: Tid)
    requires Inv(p, s) && CallsInv(p, s) && Enabled(s, t)
    ensures Shaped(p, Next(p, s, t)) && CallsInv(p, Next(p, s, t))
  {
    NextShaped(p, s, t);
    NextLogCalls(p, s, t);
    var n, th := Next(p, s, t), s.threads[t];
    forall u | 0 <= u < |n.threads|
      ensures ThreadCalls(p, n.threads[u], n.log)
    {
      forall k: nat | k < |n.threads[u].stack|
        ensures FrameCalls(p, n.threads[u], k, n.log)
      {
        NextFrameCalls(p, s, t, u, k);
      }
    }
    hide Next, LogCalls, ThreadCalls, Inv;
  }

  lemma NextFrameCalls(p: Program, s: State, t: Tid, u: Tid, k: nat)
    requires Inv(p, s) && CallsInv(p, s) && Enabled(s, t) && Shaped(p, Next(p, s, t))
    requires u < |s.threads| && k < |Next(p, s, t).threads[u].stack|
    ensures FrameCalls(p, Next(p, s, t).threads[u], k, Next(p, s, t).log)
  {
    var n, th := Next(p, s, t), s.threads[t];
    var q := n.threads[u];
    assert ThreadCalls(p, s.threads[u], s.log);
    if u == t {
      MoveCalls(p, th, Watched(s, th), s.log, k);
    }
    assert FrameCalls(p, q, k, s.log);
    hide Inv, Next, CallsInv, ThreadCalls;
    if q.stack[k].OnceFrame? && q.stack[k].pc == InInit {
      forall c: Ctl | Once(c) in p.calls[q.stack[k].ctl]
        ensures Accounted(q, k, c, n.log)
      {
        AccountedLater(q, k, c, s.log, EventOf(th, t));
      }
    }
  }

  lemma {:induction false} ExecCalls(p: Program, s: State, sched: seq<Tid>)
    requires CanRun(p, s, sched) && Inv(p, s) && CallsInv(p, s)
    ensures Shaped(p, Exec(p, s, sched)) && CallsInv(p, Exec(p, s, sched))
    decreases |sched|
  {
    hide Inv, CallsInv, Next, Enabled;
    if sched == [] {
    } else {
      NextInv(p, s, sched[0]);
      NextCalls(p, s, sched[0]);
      ExecCalls(p, Next(p, s, sched[0]), sched[1..]);
    }
  }

  // ----- exactly when every run can finish -----

  /** The init routines call controls that exist. */
  predicate WellFormed(p: Program) {
    |p.rank| == |p.calls| && forall c | 0 <= c < |p.calls| :: KnownCalls(|p.calls|, p.calls[c])
  }

  function Reranked(p: Program, rank: seq<nat>): Program { p.(rank := rank) }

  lemma {:induction false} RerankedRuns(p: Program, rank: seq<nat>, s: State, sched: seq<Tid>)
    requires |rank| == |p.rank|
    ensures CanRun(Reranked(p, rank), s, sched) <==> CanRun(p, s, sched)
    ensures CanRun(p, s, sched) ==> Exec(Reranked(p, rank), s, sched) == Exec(p, s, sched)
    decreases |sched|
  {
    var q := Reranked(p, rank);
    assert Shaped(q, s) <==> Shaped(p, s);
    if sched == [] {
    } else if Shaped(p, s) && Enabled(s, sched[0]) {
      RerankedNext(p, rank, s, sched[0]);
      hide Shaped, Enabled, Next;
      RerankedRuns(p, rank, Next(p, s, sched[0]), sched[1..]);
    }
  }

  lemma RerankedNext(p: Program, rank: seq<nat>, s: State, t: Tid)
    requires |rank| == |p.rank| && Shaped(p, s) && Enabled(s, t)
    ensures Shaped(Reranked(p, rank), s) && Next(Reranked(p, rank), s, t) == Next(p, s, t)
  {
  }

  /** A control whose init routine has ended has an order among those that have: where its end stands
      in the log. */
  ghost function EndOf(log: seq<Event>, c: Ctl): (i: nat)
    requires HasEnded(log, c)
    ensures i < |log| && log[i].Ended? && log[i].ctl == c
  {
    var t :| Ended(t, c) in log;
    var i :| 0 <= i < |log| && log[i] == Ended(t, c);
    i
  }

  /** One thread that asks for every control. */
  function AskForAll(p: Program): State {
    State(seq(|p.calls|, _ => 0), Lock(None, 0), [Thread([], seq(|p.calls|, c requires 0 <= c => Once(c)))], [])
  }

  lemma AskForAllInitial(p: Program)
    requires WellFormed(p)
    ensures Initial(p, AskForAll(p)) && CallsInv(p, AskForAll(p)) && |AskForAll(p).threads| == 1
    ensures forall c: Ctl | c < |p.calls| :: Once(c) in AskForAll(p).threads[0].todo
  {
    forall c: Ctl | c < |p.calls|
      ensures Once(c) in AskForAll(p).threads[0].todo
    {
      assert AskForAll(p).threads[0].todo[c] == Once(c);
    }
  }

  ghost predicate AllEnded(p: Program, log: seq<Event>) {
    LogCalls(p, log) && OnceLog(log) && forall c: Ctl | c < |p.calls| :: HasEnded(log, c)
  }

  lemma FinishedAllEnded(p: Program, sched: seq<Tid>)
    requires WellFormed(p) && CanRun(p, AskForAll(p), sched) && Finished(Exec(p, AskForAll(p), sched))
    ensures AllEnded(p, Exec(p, AskForAll(p), sched).log)
  {
    var s := AskForAll(p);
    AskForAllInitial(p);
    InitialInv(p, s);
    ExecInv(p, s, sched);
    ExecCalls(p, s, sched);
    hide CanRun, Initial, AskForAll, Exec, Finished, LogCalls, OnceLog, WellFormed;
    forall c: Ctl | c < |p.calls|
      ensures HasEnded(Exec(p, s, sched).log, c)
    {
      FinishedMeansInitialised(p, s, sched, 0, c);
    }
  }

  /** The order in which the init routines ended is one in which none calls up. */
  lemma EndsRank(p: Program, log: seq<Event>) returns (rank: seq<nat>)
    requires WellFormed(p) && AllEnded(p, log)
    ensures Acyclic(Reranked(p, rank))
  {
    hide LogCalls, OnceLog, HasEnded, EndOf;
    rank := seq(|p.calls|, c requires 0 <= c < |p.calls| => EndOf(log, c));
    forall c, i | 0 <= c < |p.calls| && 0 <= i < |p.calls[c]| && p.calls[c][i].Once?
      ensures rank[p.calls[c][i].ctl] < rank[c]
    {
      assert p.calls[c][i] == Once(p.calls[c][i].ctl) && p.calls[c][i] in p.calls[c];
      CalleeEndsFirst(p, log, c, p.calls[c][i].ctl);
    }
  }

  lemma CalleeEndsFirst(p: Program, log: seq<Event>, c: Ctl, d: Ctl)
    requires LogCalls(p, log) && OnceLog(log) && c < |p.calls| && Once(d) in p.calls[c]
    requires HasEnded(log, c) && HasEnded(log, d)
    ensures EndOf(log, d) < EndOf(log, c)
  {
    var i := EndOf(log, c);
    assert EndedAfterCalls(p, log, i);
    var t :| Ended(t, d) in log[..i];
    var j :| 0 <= j < i && log[..i][j] == Ended(t, d);
    assert log[j] == Ended(t, d);
    hide LogCalls, EndedAfterCalls;
  }

  /** Whatever has happened since the controls were at 0, all threads can still return. */
  ghost predicate AlwaysFinishes(p: Program) {
    forall s, sched | Initial(p, s) && CanRun(p, s, sched) :: CanFinish(p, s, sched)
  }

  ghost predicate CanFinish(p: Program, s: State, sched: seq<Tid>) {
    exists rest: seq<Tid> :: CanRun(p, s, sched + rest) && Finished(Exec(p, s, sched + rest))
  }

  /** Every run of b_once calls can be finished if and only if the init routines call each other along
      an acyclic order. */
  lemma FinishesIffAcyclic(p: Program)
    requires WellFormed(p)
    ensures AlwaysFinishes(p) <==> exists rank: seq<nat> :: Acyclic(Reranked(p, rank))
  {
    if AlwaysFinishes(p) {
      var s := AskForAll(p);
      AskForAllInitial(p);
      assert CanRun(p, s, []);
      assert CanFinish(p, s, []);
      var rest: seq<Tid> :| CanRun(p, s, [] + rest) && Finished(Exec(p, s, [] + rest));
      FinishedAllEnded(p, [] + rest);
      var rank := EndsRank(p, Exec(p, s, [] + rest).log);
    }
    if rank: seq<nat> :| Acyclic(Reranked(p, rank)) {
      forall s, sched | Initial(p, s) && CanRun(p, s, sched)
        ensures CanFinish(p, s, sched)
      {
        AcyclicFinishes(p, rank, s, sched);
      }
    }
    hide AskForAll, Acyclic, CanRun, Initial, CanFinish;
  }

  lemma AcyclicFinishes(p: Program, rank: seq<nat>, s: State, sched: seq<Tid>)
    requires WellFormed(p) && Acyclic(Reranked(p, rank)) && Initial(p, s) && CanRun(p, s, sched)
    ensures CanFinish(p, s, sched)
  {
    var q := Reranked(p, rank);
    assert Initial(q, s);
    assert |rank| == |p.rank|;
    hide Initial, Acyclic, CanRun, Exec, Finished;
    RerankedRuns(p, rank, s, sched);
    var rest := RunsCanFinish(q, s, sched);
    RerankedRuns(p, rank, s, sched + rest);
  }

  /** So an init routine that calls b_once on its own control hangs some run for good. */
  lemma SelfCallHangs(p: Program, c: Ctl)
    requires WellFormed(p) && c < |p.calls| && Once(c) in p.calls[c]
    ensures exists s, sched :: Initial(p, s) && CanRun(p, s, sched) && !CanFinish(p, s, sched)
  {
    FinishesIffAcyclic(p);
    forall rank: seq<nat>
      ensures !Acyclic(Reranked(p, rank))
    {
      SelfCallHasNoRank(p, rank, c);
    }
    hide Acyclic, Initial, CanRun, CanFinish;
  }

  lemma SelfCallHasNoRank(p: Program, rank: seq<nat>, c: Ctl)
    requires c < |p.calls| && Once(c) in p.calls[c]
    ensures !Acyclic(Reranked(p, rank))
  {
    var i :| 0 <= i < |p.calls[c]| && p.calls[c][i] == Once(c);
    assert p.calls[c][i].ctl == c;
  }
}
