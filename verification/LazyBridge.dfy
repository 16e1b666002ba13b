/** The lazy Bionic-to-glibc bridge for mutexes, condition variables and rwlocks
    (src/pthread_bridge.c) as a transition system: any number of threads and slots, one step per
    memory access or glibc call, sequentially consistent memory. A slot is a Bionic word that is
    replaced, on first use, by the address of a real glibc object. */
module LazyBridge {
  import opened Prelude

  type Tid = nat
  type Slot = nat
  type Addr = nat

  const HEAP_FLOOR: nat := 0x10000
  const EPERM: int := 1
  const EBUSY: int := 16
  const EDEADLK: int := 35
  const ETIMEDOUT: int := 110

  /** IS_HEAP_PTR, line 51. */
  predicate IsHeap(w: Addr) { w > HEAP_FLOOR }

  // ----- the real objects -----

  datatype Kind = MutexKind | CondKind | RwKind

  datatype Obj =
    | Mutex(owner: Option<Tid>, depth: nat)
    | Cond(waiters: set<Tid>)
    | Rw(writer: Option<Tid>, readers: multiset<Tid>)

  function KindOf(o: Obj): Kind {
    match o case Mutex(_, _) => MutexKind case Cond(_) => CondKind case Rw(_, _) => RwKind
  }

  /** A newly initialised object; mutexes are recursive. */
  function NewObj(k: Kind): Obj {
    match k case MutexKind => Mutex(None, 0) case CondKind => Cond({}) case RwKind => Rw(None, multiset{})
  }

  /** The glibc calls. A wait is two of them: Sleep releases the mutex and joins the waiters, Wake
      leaves and takes the mutex again; early means without a signal (spurious or timed out). */
  datatype Verb =
    | Lock | Unlock | TryLock | Sleep | Wake(early: bool) | Signal | Broadcast
    | RdLock | WrLock | RwUnlock

  function Params(v: Verb): seq<Kind> {
    match v
    case Lock | Unlock | TryLock => [MutexKind]
    case Sleep | Wake(_) => [CondKind, MutexKind]
    case Signal | Broadcast => [CondKind]
    case RdLock | WrLock | RwUnlock => [RwKind]
  }

  predicate Locked(m: Obj, t: Tid, m': Obj) {
    m.Mutex? && (m.owner == None || m.owner == Some(t)) && m' == Mutex(Some(t), m.depth + 1)
  }

  predicate Unlocked(m: Obj, t: Tid, m': Obj) {
    && m.Mutex? && m.owner == Some(t) && m.depth > 0
    && m' == if m.depth == 1 then Mutex(None, 0) else Mutex(Some(t), m.depth - 1)
  }

  /** A call takes one object, or a condition variable and a mutex. */
  predicate Fits(v: Verb, objs: seq<Obj>) {
    && |objs| == |Params(v)| && KindOf(objs[0]) == Params(v)[0]
    && (|objs| == 2 ==> KindOf(objs[1]) == Params(v)[1])
  }

  /** What a glibc call does to the objects it is given; a call that blocks has no outcome yet. */
  predicate Act(v: Verb, t: Tid, a: seq<Obj>, b: seq<Obj>, ret: int)
    requires Fits(v, a) && |b| == |a|
  {
    match v
    case Lock => Locked(a[0], t, b[0]) && ret == 0
    case Unlock => if a[0].owner == Some(t) then Unlocked(a[0], t, b[0]) && ret == 0 else b == a && ret == EPERM
    case TryLock =>
      if a[0].owner == None || a[0].owner == Some(t) then Locked(a[0], t, b[0]) && ret == 0 else b == a && ret == EBUSY
    case Sleep =>
      if a[1].owner == Some(t) then b[0] == Cond(a[0].waiters + {t}) && Unlocked(a[1], t, b[1]) && ret == 0
      else b == a && ret == EPERM
    case Wake(early) =>
      && (t in a[0].waiters <==> early) && b[0] == Cond(a[0].waiters - {t}) && Locked(a[1], t, b[1])
      && (ret == 0 || (early && ret == ETIMEDOUT))
    case Signal =>
      && ret == 0
      && (if a[0].waiters == {} then b == a else exists u | u in a[0].waiters :: b[0] == Cond(a[0].waiters - {u}))
    case Broadcast => b[0] == Cond({}) && ret == 0
    case RdLock =>
      if a[0].writer == Some(t) then b == a && ret == EDEADLK
      else a[0].writer == None && b[0] == Rw(None, a[0].readers + multiset{t}) && ret == 0
    case WrLock =>
      if a[0].writer == Some(t) then b == a && ret == EDEADLK
      else a[0].writer == None && a[0].readers == multiset{} && b[0] == Rw(Some(t), multiset{}) && ret == 0
    case RwUnlock =>
      && ret == 0
      && (if a[0].writer == Some(t) then b[0] == Rw(None, a[0].readers)
          else t in a[0].readers && b[0] == Rw(a[0].writer, a[0].readers - multiset{t}))
  }

  function Lookup<K>(h: map<K, Obj>, args: seq<K>): (objs: seq<Obj>)
    requires forall i | 0 <= i < |args| :: args[i] in h
  {
    seq(|args|, i requires 0 <= i < |args| => h[args[i]])
  }

  /** The call v on the objects named args, in a store that names objects by K: addresses in the
      process, slots in the abstract machine. */
  predicate Effect<K>(h: map<K, Obj>, t: Tid, v: Verb, args: seq<K>, h': map<K, Obj>, ret: int) {
    && (forall i | 0 <= i < |args| :: args[i] in h)
    && Fits(v, Lookup(h, args))
    && h'.Keys == h.Keys
    && (forall k | k in h && k !in args :: h'[k] == h[k])
    && Act(v, t, Lookup(h, args), Lookup(h', args), ret)
  }

  // ----- the bridge -----

  datatype Line =
    | L66            // test the word without g_lock
    | L67            // read it again and return it
    | L68            // take g_lock
    | L69            // test again under g_lock
    | L70            // create the real object
    | L70Store(r: Addr)
    | L71            // release g_lock
    | L72            // read the word and return it

  datatype Pc =
    | Idle
    // xxx_real on todo[0]; the call to make once every argument is resolved, none for line 122
    | Resolve(verb: Option<Verb>, args: seq<Slot>, todo: seq<Slot>, got: map<Slot, Addr>, line: Line)
    | Invoke(call: Verb, args: seq<Slot>, got: map<Slot, Addr>)
    // b_mutex_init, lines 77-80
    | InitNew(slot: Slot)
    | InitLock(slot: Slot, r: Addr)
    | InitStore(slot: Slot, r: Addr)
    | InitUnlock(slot: Slot)
    // b_cond_init, lines 119-121; line 122 is Resolve without a call
    | CondLock(slot: Slot)
    | CondStore(slot: Slot)
    | CondUnlock(slot: Slot)
    // b_mutex_destroy and b_cond_destroy, lines 88-94 and 135-141
    | DestroyLock(slot: Slot)
    | DestroyTest(slot: Slot)
    | DestroyFree(slot: Slot)
    | DestroyClear(slot: Slot)
    | DestroyUnlock(slot: Slot)

  /** Shared memory: the Bionic words and the live glibc objects. made counts, per slot, the objects
      its lazy path has created since the last init or destroy; raw are the slots whose memory nobody
      has initialised; fault says that destroy has handed free() a word that is not an object. */
  datatype Mem = Mem(words: seq<Addr>, heap: map<Addr, Obj>, made: seq<nat>, raw: set<Slot>, fault: bool) {
    function Word(i: Slot): Addr { if i < |words| then words[i] else 0 }
  }

  /** owner and depth are those of g_lock. */
  datatype State = State(kinds: seq<Kind>, mem: Mem, owner: Option<Tid>, depth: nat, threads: seq<Pc>)

  /** What the caller of the bridge sees. */
  datatype Event =
    | Silent
    | Did(verb: Verb, args: seq<Slot>, ret: int)
    | DidInit(slot: Slot)
    | DidDestroy(slot: Slot)

  predicate Names(kinds: seq<Kind>, v: Verb, args: seq<Slot>) {
    && |args| == |Params(v)|
    && (forall i | 0 <= i < |args| :: args[i] < |kinds|)
    && kinds[args[0]] == Params(v)[0]
    && (|args| == 2 ==> kinds[args[1]] == Params(v)[1])
  }

  function SlotsOf(pc: Pc): set<Slot> {
    match pc
    case Idle => {}
    case Resolve(_, args, _, _, _) => set a | a in args
    case Invoke(_, args, _) => set a | a in args
    case _ => {pc.slot}
  }

  /** The slot an init or destroy in progress must have to itself. */
  function Exclusive(pc: Pc): Option<Slot> {
    match pc
    case Idle => None
    case Resolve(v, args, _, _, _) => if v == None && args != [] then Some(args[0]) else None
    case Invoke(_, _, _) => None
    case _ => Some(pc.slot)
  }

  /** From the start of b_mutex_init or b_cond_init until it has set the word. */
  predicate Initialises(pc: Pc) { pc.InitNew? || pc.InitLock? || pc.InitStore? || pc.CondLock? || pc.CondStore? }

  /** Callers do not initialise or destroy an object that another thread is using, and do not use raw
      memory but to initialise it. */
  predicate MayBegin(s: State, t: Tid, pc: Pc) {
    && (Initialises(pc) || SlotsOf(pc) !! s.mem.raw)
    && forall u | 0 <= u < |s.threads| && u != t ::
      && (Exclusive(pc).Some? ==> Exclusive(pc).value !in SlotsOf(s.threads[u]))
      && (Exclusive(s.threads[u]).Some? ==> Exclusive(s.threads[u]).value !in SlotsOf(pc))
  }

  predicate IsStart(kinds: seq<Kind>, pc: Pc) {
    match pc
    case Resolve(Some(v), args, todo, got, line) =>
      && Names(kinds, v, args) && !v.Wake? && got == map[] && line == L66
      && (todo == args || (|args| == 2 && todo == [args[1], args[0]]))
    case InitNew(i) => i < |kinds| && kinds[i] == MutexKind
    case CondLock(i) => i < |kinds| && kinds[i] == CondKind
    case DestroyLock(i) => i < |kinds| && kinds[i] != RwKind
    case _ => false
  }

  predicate ShapedPc(kinds: seq<Kind>, pc: Pc) {
    match pc
    case Idle => true
    case Resolve(v, args, todo, _, _) =>
      && todo != [] && (forall i | 0 <= i < |todo| :: todo[i] in args)
          && (forall i | 0 <= i < |args| :: args[i] < |kinds|)
      && (forall i, j | 0 <= i < j < |todo| :: todo[i] != todo[j])
      && (v.Some? ==> Names(kinds, v.value, args)) && (v == None ==> |args| == 1)
    case Invoke(v, args, _) => Names(kinds, v, args)
    case InitNew(i) => i < |kinds| && kinds[i] == MutexKind
    case InitLock(i, _) => i < |kinds| && kinds[i] == MutexKind
    case InitStore(i, _) => i < |kinds| && kinds[i] == MutexKind
    case InitUnlock(i) => i < |kinds|
    case CondLock(i) => i < |kinds|
    case CondStore(i) => i < |kinds|
    case CondUnlock(i) => i < |kinds|
    case _ => pc.slot < |kinds| && kinds[pc.slot] != RwKind
  }

  predicate ShapedMem(kinds: seq<Kind>, m: Mem) { |m.words| == |kinds| == |m.made| }

  /** malloc returns an address above the first 64 KiB. */
  predicate Allocates(m: Mem, r: Addr) { r > 0x10000 && r !in m.heap }

  /** xxx_real has returned address a for todo[0]. */
  function Resolved(pc: Pc, a: Addr): Pc
    requires pc.Resolve? && pc.todo != []
  {
    var got := pc.got[pc.todo[0] := a];
    if |pc.todo| > 1 then Resolve(pc.verb, pc.args, pc.todo[1..], got, L66)
    else match pc.verb case None => Idle case Some(v) => Invoke(v, pc.args, got)
  }

  function Addrs(args: seq<Slot>, got: map<Slot, Addr>): seq<Addr>
    requires forall i | 0 <= i < |args| :: args[i] in got
  {
    seq(|args|, i requires 0 <= i < |args| => got[args[i]])
  }

  /** Memory step inside mtx_real, cnd_real and rw_real. */
  predicate ResolveStep(kinds: seq<Kind>, m: Mem, pc: Pc, m': Mem, pc': Pc)
    requires pc.Resolve? && ShapedPc(kinds, pc) && ShapedMem(kinds, m)
  {
    var i := pc.todo[0];
    match pc.line
    case L66 => m' == m && pc' == pc.(line := if IsHeap(m.words[i]) then L67 else L68)
    case L67 => m' == m && pc' == Resolved(pc, m.words[i])
    case L68 => m' == m && pc' == pc.(line := L69)
    case L69 => m' == m && pc' == pc.(line := if IsHeap(m.words[i]) then L71 else L70)
    case L70 =>
      && pc'.Resolve? && pc'.line.L70Store? && Allocates(m, pc'.line.r) && pc' == pc.(line := pc'.line)
      && m' == m.(heap := m.heap[pc'.line.r := NewObj(kinds[i])], made := m.made[i := m.made[i] + 1])
    case L70Store(r) => m' == m.(words := m.words[i := r]) && pc' == pc.(line := L71)
    case L71 => m' == m && pc' == pc.(line := L72)
    case L72 => m' == m && pc' == Resolved(pc, m.words[i])
  }

  /** The real call; a successful Sleep leaves the thread inside pthread_cond_wait. */
  predicate InvokeStep(t: Tid, m: Mem, pc: Pc, m': Mem, pc': Pc, ev: Event)
    requires pc.Invoke?
  {
    && ev.Did? && ev.args == pc.args && (ev.verb == pc.call || (pc.call.Wake? && ev.verb.Wake?))
    && (forall i | 0 <= i < |pc.args| :: pc.args[i] in pc.got)
    && Effect(m.heap, t, ev.verb, Addrs(pc.args, pc.got), m'.heap, ev.ret)
    && m' == m.(heap := m'.heap)
    && pc' == if pc.call == Sleep && ev.ret == 0 then pc.(call := Wake(false)) else Idle
  }

  /** Steps of init and destroy. */
  predicate LifeStep(kinds: seq<Kind>, m: Mem, pc: Pc, m': Mem, pc': Pc, ev: Event)
    requires !pc.Resolve? && !pc.Invoke? && !pc.Idle?
    requires ShapedPc(kinds, pc) && ShapedMem(kinds, m)
  {
    var i := pc.slot;
    match pc
    case InitNew(_) =>
      && pc'.InitLock? && pc'.slot == i && Allocates(m, pc'.r)
      && m' == m.(heap := m.heap[pc'.r := NewObj(MutexKind)]) && ev == Silent
    case InitLock(_, r) => pc' == InitStore(i, r) && m' == m && ev == Silent
    case InitStore(_, r) =>
      && pc' == InitUnlock(i) && ev == DidInit(i)
      && m' == m.(words := m.words[i := r], made := m.made[i := 0], raw := m.raw - {i})
    case InitUnlock(_) => pc' == Idle && m' == m && ev == Silent
    case CondLock(_) => pc' == CondStore(i) && m' == m && ev == Silent
    case CondStore(_) =>
      && pc' == CondUnlock(i) && ev == DidInit(i)
      && m' == m.(words := m.words[i := 0], made := m.made[i := 0], raw := m.raw - {i})
    case CondUnlock(_) => pc' == Resolve(None, [i], [i], map[], L66) && m' == m && ev == Silent
    case DestroyLock(_) => pc' == DestroyTest(i) && m' == m && ev == Silent
    case DestroyTest(_) =>
      if m.words[i] in m.heap then pc' == DestroyFree(i) && m' == m && ev == Silent
      else pc' == DestroyUnlock(i) && m' == m.(fault := m.words[i] != 0) && ev == DidDestroy(i)
    case DestroyFree(_) => pc' == DestroyClear(i) && m' == m.(heap := m.heap - {m.words[i]}) && ev == DidDestroy(i)
    case DestroyClear(_) =>
      pc' == DestroyUnlock(i) && ev == Silent && m' == m.(words := m.words[i := 0], made := m.made[i := 0])
    case DestroyUnlock(_) => pc' == Idle && m' == m && ev == Silent
  }

  /** What a step of a thread standing at pc does to shared memory and to its own pc. */
  predicate Local(kinds: seq<Kind>, t: Tid, m: Mem, pc: Pc, m': Mem, pc': Pc, ev: Event)
    requires ShapedPc(kinds, pc) && ShapedMem(kinds, m)
  {
    match pc
    case Idle => IsStart(kinds, pc') && m' == m && ev == Silent
    case Resolve(_, _, _, _, _) => ResolveStep(kinds, m, pc, m', pc') && ev == Silent
    case Invoke(_, _, _) => InvokeStep(t, m, pc, m', pc', ev)
    case _ => LifeStep(kinds, m, pc, m', pc', ev)
  }

  predicate TakesLock(pc: Pc) {
    (pc.Resolve? && pc.line == L68) || pc.InitLock? || pc.CondLock? || pc.DestroyLock?
  }

  predicate GivesLock(pc: Pc) {
    (pc.Resolve? && pc.line == L71) || pc.InitUnlock? || pc.CondUnlock? || pc.DestroyUnlock?
  }

  predicate Shaped(s: State) {
    ShapedMem(s.kinds, s.mem) && forall t | 0 <= t < |s.threads| :: ShapedPc(s.kinds, s.threads[t])
  }

  /** One step of thread t, from s to n. After a fault nothing is defined. */
  predicate Step(s: State, t: Tid, n: State, ev: Event) {
    && Shaped(s) && !s.mem.fault
    && t < |s.threads| == |n.threads|
    && n.kinds == s.kinds && n.threads == s.threads[t := n.threads[t]]
    && Local(s.kinds, t, s.mem, s.threads[t], n.mem, n.threads[t], ev)
    && (s.threads[t].Idle? ==> MayBegin(s, t, n.threads[t]))
    && (if TakesLock(s.threads[t]) then (s.owner == None || s.owner == Some(t)) && n.owner == Some(t)
        && n.depth == s.depth + 1
        else if GivesLock(s.threads[t]) then
          (if s.depth <= 1 then n.owner == None && n.depth == 0 else n.owner == s.owner && n.depth == s.depth - 1)
        else n.owner == s.owner && n.depth == s.depth)
  }

  /** Bionic words start as small static initialisers, but for raw memory, which may hold anything, and
      no thread is in the bridge. */
  predicate Initial(s: State) {
    && Shaped(s)
    && (forall i | 0 <= i < |s.mem.words| :: (i !in s.mem.raw ==> s.mem.words[i] <= 0x10000) && s.mem.made[i] == 0)
    && s.mem.heap == map[] && !s.mem.fault && s.owner == None && s.depth == 0
    && (forall t | 0 <= t < |s.threads| :: s.threads[t] == Idle)
  }

  // ----- the invariant -----

  predicate InSection(pc: Pc) {
    match pc
    case Resolve(_, _, _, _, line) => line == L69 || line == L70 || line.L70Store? || line == L71
    case InitStore(_, _) | InitUnlock(_) | CondStore(_) | CondUnlock(_) => true
    case DestroyTest(_) | DestroyFree(_) | DestroyClear(_) | DestroyUnlock(_) => true
    case _ => false
  }

  ghost predicate LockInv(s: State) {
    && (s.owner == None ==> s.depth == 0)
    && (s.owner.Some? ==> s.depth == 1 && s.owner.value < |s.threads|)
    && (forall t | 0 <= t < |s.threads| :: InSection(s.threads[t]) <==> s.owner == Some(t))
  }

  ghost predicate ExclusiveInv(s: State) {
    forall t, u | 0 <= t < |s.threads| && 0 <= u < |s.threads| && t != u && Exclusive(s.threads[t]).Some? ::
      Exclusive(s.threads[t]).value !in SlotsOf(s.threads[u])
  }

  lemma ResolvedPc(kinds: seq<Kind>, pc: Pc, a: Addr)
    requires pc.Resolve? && ShapedPc(kinds, pc)
    ensures ShapedPc(kinds, Resolved(pc, a))
    ensures SlotsOf(Resolved(pc, a)) <= SlotsOf(pc)
    ensures Exclusive(Resolved(pc, a)).Some? ==> Exclusive(Resolved(pc, a)) == Exclusive(pc)
  {
  }

  lemma StartShaped(kinds: seq<Kind>, pc: Pc)
    requires IsStart(kinds, pc)
    ensures ShapedPc(kinds, pc)
  {
  }

  lemma ResolveShaped(kinds: seq<Kind>, m: Mem, pc: Pc, m': Mem, pc': Pc)
    requires pc.Resolve? && ShapedPc(kinds, pc) && ShapedMem(kinds, m) && ResolveStep(kinds, m, pc, m', pc')
    ensures ShapedPc(kinds, pc') && ShapedMem(kinds, m')
  {
    ResolvedPc(kinds, pc, m.words[pc.todo[0]]);
  }

  lemma InvokeShaped(kinds: seq<Kind>, t: Tid, m: Mem, pc: Pc, m': Mem, pc': Pc, ev: Event)
    requires pc.Invoke? && ShapedPc(kinds, pc) && ShapedMem(kinds, m) && InvokeStep(t, m, pc, m', pc', ev)
    ensures ShapedPc(kinds, pc') && ShapedMem(kinds, m')
  {
  }

  lemma LifeShaped(kinds: seq<Kind>, m: Mem, pc: Pc, m': Mem, pc': Pc, ev: Event)
    requires !pc.Resolve? && !pc.Invoke? && !pc.Idle?
    requires ShapedPc(kinds, pc) && ShapedMem(kinds, m) && LifeStep(kinds, m, pc, m', pc', ev)
    ensures ShapedPc(kinds, pc') && ShapedMem(kinds, m')
  {
  }

  lemma LocalShaped(kinds: seq<Kind>, t: Tid, m: Mem, pc: Pc, m': Mem, pc': Pc, ev: Event)
    requires ShapedPc(kinds, pc) && ShapedMem(kinds, m) && Local(kinds, t, m, pc, m', pc', ev)
    ensures ShapedPc(kinds, pc') && ShapedMem(kinds, m')
  {
    match pc
    case Idle => StartShaped(kinds, pc');
    case Resolve(_, _, _, _, _) => ResolveShaped(kinds, m, pc, m', pc');
    case Invoke(_, _, _) => InvokeShaped(kinds, t, m, pc, m', pc', ev);
    case _ => LifeShaped(kinds, m, pc, m', pc', ev);
  }

  /** A step enters the critical section by taking g_lock and leaves it by giving g_lock back. */
  predicate SectionMove(pc: Pc, pc': Pc) {
    && (TakesLock(pc) ==> !InSection(pc) && InSection(pc'))
    && (GivesLock(pc) ==> InSection(pc) && !InSection(pc'))
    && (!TakesLock(pc) && !GivesLock(pc) ==> (InSection(pc) <==> InSection(pc')))
  }

  /** A step may give up slots but acquires none. */
  predicate SlotsShrink(pc: Pc, pc': Pc) {
    SlotsOf(pc') <= SlotsOf(pc) && (Exclusive(pc').Some? ==> Exclusive(pc) == Exclusive(pc'))
  }

  lemma SameCall(pc: Pc, pc': Pc)
    requires pc.Resolve? && pc'.Resolve? && pc'.args == pc.args && pc'.verb == pc.verb
    ensures SlotsShrink(pc, pc')
  {
  }

  lemma ResolveMoves(kinds: seq<Kind>, m: Mem, pc: Pc, m': Mem, pc': Pc)
    requires pc.Resolve? && ShapedPc(kinds, pc) && ShapedMem(kinds, m) && ResolveStep(kinds, m, pc, m', pc')
    ensures SectionMove(pc, pc') && SlotsShrink(pc, pc')
  {
    hide SlotsOf, Exclusive;
    if pc.line == L67 || pc.line == L72 {
      hide Allocates;
      ResolvedPc(kinds, pc, m.words[pc.todo[0]]);
    } else {
      hide ShapedPc, Resolved, SlotsShrink;
      SameCall(pc, pc');
    }
  }

  lemma InvokeMoves(t: Tid, m: Mem, pc: Pc, m': Mem, pc': Pc, ev: Event)
    requires pc.Invoke? && InvokeStep(t, m, pc, m', pc', ev)
    ensures SectionMove(pc, pc') && SlotsShrink(pc, pc')
  {
    hide Effect;
  }

  lemma LifeMoves(kinds: seq<Kind>, m: Mem, pc: Pc, m': Mem, pc': Pc, ev: Event)
    requires !pc.Resolve? && !pc.Invoke? && !pc.Idle?
    requires ShapedPc(kinds, pc) && ShapedMem(kinds, m) && LifeStep(kinds, m, pc, m', pc', ev)
    ensures SectionMove(pc, pc') && SlotsShrink(pc, pc')
  {
    hide ShapedPc;
    assert SlotsOf(pc') <= {pc.slot};
  }

  lemma LocalSection(kinds: seq<Kind>, t: Tid, m: Mem, pc: Pc, m': Mem, pc': Pc, ev: Event)
    requires ShapedPc(kinds, pc) && ShapedMem(kinds, m) && Local(kinds, t, m, pc, m', pc', ev)
    ensures SectionMove(pc, pc')
    ensures pc != Idle ==> SlotsShrink(pc, pc')
  {
    hide InvokeStep, ResolveStep, LifeStep, ShapedPc, ShapedMem, SlotsShrink;
    match pc
    case Idle =>
    case Resolve(_, _, _, _, _) => hide SectionMove; ResolveMoves(kinds, m, pc, m', pc');
    case Invoke(_, _, _) => hide SectionMove; InvokeMoves(t, m, pc, m', pc', ev);
    case _ => hide SectionMove; LifeMoves(kinds, m, pc, m', pc', ev);
  }

  lemma StepShaped(s: State, t: Tid, n: State, ev: Event)
    requires Shaped(s) && Step(s, t, n, ev)
    ensures Shaped(n)
    ensures forall u | 0 <= u < |s.threads| && u != t :: n.threads[u] == s.threads[u]
  {
    hide Local, MayBegin, ShapedPc, ShapedMem;
    LocalShaped(s.kinds, t, s.mem, s.threads[t], n.mem, n.threads[t], ev);
  }

  lemma StepLock(s: State, t: Tid, n: State, ev: Event)
    requires Shaped(s) && LockInv(s) && Step(s, t, n, ev)
    ensures LockInv(n)
  {
    hide Local, MayBegin, ShapedPc, ShapedMem;
    LocalSection(s.kinds, t, s.mem, s.threads[t], n.mem, n.threads[t], ev);
    StepShaped(s, t, n, ev);
  }

  lemma StepExclusive(s: State, t: Tid, n: State, ev: Event)
    requires Shaped(s) && ExclusiveInv(s) && Step(s, t, n, ev)
    ensures ExclusiveInv(n)
  {
    hide Local, ShapedPc, ShapedMem;
    StepShaped(s, t, n, ev);
    if s.threads[t] != Idle {
      LocalSection(s.kinds, t, s.mem, s.threads[t], n.mem, n.threads[t], ev);
    }
  }

  lemma LocalRaw(kinds: seq<Kind>, t: Tid, m: Mem, pc: Pc, m': Mem, pc': Pc, ev: Event)
    requires ShapedPc(kinds, pc) && ShapedMem(kinds, m) && Local(kinds, t, m, pc, m', pc', ev)
    ensures m'.raw <= m.raw
    ensures pc != Idle && IsRawOk(m.raw, pc) ==> IsRawOk(m'.raw, pc')
  {
    LocalSection(kinds, t, m, pc, m', pc', ev);
    hide Effect, Act, ShapedPc, Resolved, SectionMove;
    if pc != Idle && SlotsOf(pc) !! m.raw {
      assert SlotsOf(pc') !! m'.raw;
    }
  }

  lemma StepRaw(s: State, t: Tid, n: State, ev: Event)
    requires Shaped(s) && RawInv(s) && Step(s, t, n, ev)
    ensures RawInv(n)
  {
    StepShaped(s, t, n, ev);
    LocalRaw(s.kinds, t, s.mem, s.threads[t], n.mem, n.threads[t], ev);
    hide ShapedPc, ShapedMem, Initialises, SlotsOf, Local;
  }

  // ----- slots and objects -----

  /** The g_lock holder is between freeing the object of slot i and clearing the word. */
  predicate Clearing(s: State, i: Slot) {
    s.owner.Some? && s.owner.value < |s.threads| && s.threads[s.owner.value] == DestroyClear(i)
  }

  /** The word is the address of a live object. */
  predicate Attached(s: State, i: Slot) {
    IsHeap(s.mem.Word(i)) && !Clearing(s, i) && i !in s.mem.raw
  }

  ghost predicate SlotInv(s: State) {
    && (forall a | a in s.mem.heap :: IsHeap(a))
    && (forall i: Slot | i < |s.kinds| && Attached(s, i) ::
          s.mem.Word(i) in s.mem.heap && KindOf(s.mem.heap[s.mem.Word(i)]) == s.kinds[i])
    && (forall i: Slot, j: Slot | Attached(s, i) && Attached(s, j) && i != j :: s.mem.Word(i) != s.mem.Word(j))
  }

  /** A real object that only this thread knows yet, and the slot it is made for. */
  function Private(pc: Pc): Option<(Slot, Addr)> {
    match pc
    case Resolve(_, _, todo, _, L70Store(r)) => if todo == [] then None else Some((todo[0], r))
    case InitLock(i, r) => Some((i, r))
    case InitStore(i, r) => Some((i, r))
    case _ => None
  }

  ghost predicate PrivateOk(s: State, i: Slot, r: Addr) {
    && i < |s.kinds| && IsHeap(r) && r in s.mem.heap && s.mem.heap[r] == NewObj(s.kinds[i])
    && (forall j: Slot | Attached(s, j) :: s.mem.Word(j) != r)
  }

  ghost predicate PrivateInv(s: State) {
    && (forall t | 0 <= t < |s.threads| && Private(s.threads[t]).Some? ::
          PrivateOk(s, Private(s.threads[t]).value.0, Private(s.threads[t]).value.1))
    && (forall t, u | 0 <= t < |s.threads| && 0 <= u < |s.threads| && t != u && Private(s.threads[t]).Some?
        && Private(s.threads[u]).Some? ::
          Private(s.threads[t]).value.1 != Private(s.threads[u]).value.1)
  }

  predicate GotOk(s: State, k: Slot, a: Addr) { Attached(s, k) && s.mem.Word(k) == a }

  /** What a thread standing at pc has learnt about memory, and can rely on. */
  ghost predicate PcOk(s: State, pc: Pc) {
    match pc
    case Resolve(_, args, todo, got, line) =>
      && todo != []
      && (forall k | k in got :: k in args && GotOk(s, k, got[k]))
      && (forall a | a in args :: a in got || a in todo)
      && (line == L67 || line == L71 || line == L72 ==> Attached(s, todo[0]))
      && (line == L70 || line.L70Store? ==> !IsHeap(s.mem.Word(todo[0])))
    case Invoke(_, args, got) => forall a | a in args :: a in got && GotOk(s, a, got[a])
    case DestroyFree(i) => s.mem.Word(i) in s.mem.heap
    case _ => true
  }

  ghost predicate PcsInv(s: State) {
    forall t | 0 <= t < |s.threads| :: PcOk(s, s.threads[t])
  }

  /** Raw memory is in use only by its initialisation. */
  predicate IsRawOk(raw: set<Slot>, pc: Pc) { Initialises(pc) || SlotsOf(pc) !! raw }

  ghost predicate RawInv(s: State) {
    forall t | 0 <= t < |s.threads| :: IsRawOk(s.mem.raw, s.threads[t])
  }

  ghost predicate Inv(s: State) {
    Shaped(s) && LockInv(s) && ExclusiveInv(s) && RawInv(s) && SlotInv(s) && PrivateInv(s) && PcsInv(s)
  }

  lemma InitialInv(s: State)
    requires Initial(s)
    ensures Inv(s)
  {
  }

  lemma EffectKinds<K>(h: map<K, Obj>, t: Tid, v: Verb, args: seq<K>, h': map<K, Obj>, ret: int)
    requires Effect(h, t, v, args, h', ret)
    ensures h'.Keys == h.Keys
    ensures forall k | k in h :: KindOf(h'[k]) == KindOf(h[k])
    ensures forall k | k in h && k !in args :: h'[k] == h[k]
  {
    var a, b := Lookup(h, args), Lookup(h', args);
    assert KindOf(a[0]) == KindOf(b[0]);
    assert |args| == 2 ==> KindOf(a[1]) == KindOf(b[1]);
    forall k | k in h && k in args
      ensures KindOf(h'[k]) == KindOf(h[k])
    {
      var i :| 0 <= i < |args| && args[i] == k;
      assert a[i] == h[k] && b[i] == h'[k];
    }
  }

  /** The steps that change which words are attached. */
  predicate Moves(pc: Pc) {
    (pc.Resolve? && pc.line.L70Store?) || pc.InitStore? || pc.CondStore? || pc.DestroyFree? || pc.DestroyClear?
  }

  lemma LocalQuiet(kinds: seq<Kind>, t: Tid, m: Mem, pc: Pc, m': Mem, pc': Pc, ev: Event)
    requires ShapedPc(kinds, pc) && ShapedMem(kinds, m) && Local(kinds, t, m, pc, m', pc', ev)
    requires !Moves(pc)
    ensures m'.words == m.words && m'.raw == m.raw && !pc'.DestroyClear?
  {
    hide Effect, Act;
  }

  lemma QuietAttached(s: State, t: Tid, n: State, ev: Event, i: Slot)
    requires Shaped(s) && LockInv(s) && Step(s, t, n, ev) && !Moves(s.threads[t])
    ensures n.mem.words == s.mem.words && n.mem.raw == s.mem.raw
    ensures Attached(n, i) <==> Attached(s, i)
  {
    hide Local, MayBegin, ShapedPc, ShapedMem;
    StepShaped(s, t, n, ev);
    StepLock(s, t, n, ev);
    LocalQuiet(s.kinds, t, s.mem, s.threads[t], n.mem, n.threads[t], ev);
    assert Clearing(n, i) <==> Clearing(s, i);
  }

  /** A word is attached, changed or detached only by the thread that works on its slot. */
  lemma MovesAttached(s: State, t: Tid, n: State, ev: Event, i: Slot)
    requires Shaped(s) && LockInv(s) && RawInv(s) && Step(s, t, n, ev) && Moves(s.threads[t])
    ensures var pc := s.threads[t];
            var k := if pc.Resolve? then pc.todo[0] else pc.slot;
            if i == k then
              if pc.Resolve? then Attached(n, i) == IsHeap(pc.line.r) && n.mem.Word(i) == pc.line.r
              else if pc.InitStore? then Attached(n, i) == IsHeap(pc.r) && n.mem.Word(i) == pc.r
              else !Attached(n, i)
            else (Attached(n, i) <==> Attached(s, i)) && n.mem.Word(i) == s.mem.Word(i)
  {
    hide InvokeStep, MayBegin, Resolved;
    StepShaped(s, t, n, ev);
    StepLock(s, t, n, ev);
    assert s.owner == Some(t) && n.owner == Some(t);
  }

  lemma QuietHeap(s: State, t: Tid, n: State, ev: Event)
    requires Shaped(s) && Step(s, t, n, ev) && !Moves(s.threads[t])
    requires forall a | a in s.mem.heap :: IsHeap(a)
    ensures forall a | a in n.mem.heap :: IsHeap(a)
    ensures forall a | a in s.mem.heap :: a in n.mem.heap && KindOf(n.mem.heap[a]) == KindOf(s.mem.heap[a])
  {
    var pc := s.threads[t];
    if pc.Invoke? {
      EffectKinds(s.mem.heap, t, ev.verb, Addrs(pc.args, pc.got), n.mem.heap, ev.ret);
    }
  }

  lemma StepSlots(s: State, t: Tid, n: State, ev: Event)
    requires Inv(s) && Step(s, t, n, ev) && Shaped(n)
    ensures SlotInv(n)
  {
    hide Local, MayBegin, LockInv, ExclusiveInv, PrivateInv, PcOk, ShapedPc, ShapedMem;
    if !Moves(s.threads[t]) {
      QuietHeap(s, t, n, ev);
      forall i: Slot
        ensures n.mem.words == s.mem.words && (Attached(n, i) <==> Attached(s, i))
      {
        QuietAttached(s, t, n, ev, i);
      }
    } else {
      MovesSlots(s, t, n, ev);
    }
  }

  lemma MovesSlots(s: State, t: Tid, n: State, ev: Event)
    requires Inv(s) && Step(s, t, n, ev) && Shaped(n) && Moves(s.threads[t])
    ensures SlotInv(n)
  {
    hide InvokeStep, MayBegin, Resolved, ExclusiveInv;
    var pc := s.threads[t];
    var k := if pc.Resolve? then pc.todo[0] else pc.slot;
    assert pc.Resolve? || pc.InitStore? ==> PrivateOk(s, Private(pc).value.0, Private(pc).value.1);
    assert pc.DestroyFree? ==> Attached(s, k) by {
      if pc.DestroyFree? {
        assert s.owner == Some(t);
        assert PcOk(s, pc);
      }
    }
    forall i: Slot | i < |s.kinds|
      ensures Attached(n, i) ==> n.mem.Word(i) in n.mem.heap && KindOf(n.mem.heap[n.mem.Word(i)]) == s.kinds[i]
      ensures Attached(n, i) && i != k ==> Attached(s, i) && n.mem.Word(i) == s.mem.Word(i)
    {
      MovesAttached(s, t, n, ev, i);
    }
    MovesAttached(s, t, n, ev, k);
  }

  lemma OthersPrivateMoves(s: State, t: Tid, n: State, ev: Event, i: Slot, r: Addr)
    requires Inv(s) && Step(s, t, n, ev) && Moves(s.threads[t]) && PrivateOk(s, i, r)
    requires Private(s.threads[t]).Some? ==> Private(s.threads[t]).value.1 != r
    ensures PrivateOk(n, i, r)
  {
    hide InvokeStep, MayBegin, Resolved, ExclusiveInv;
    var pc := s.threads[t];
    var k := if pc.Resolve? then pc.todo[0] else pc.slot;
    assert pc.DestroyFree? ==> s.owner == Some(t) && PcOk(s, pc) && Attached(s, k);
    assert r in n.mem.heap && n.mem.heap[r] == s.mem.heap[r];
    forall j: Slot | j < |s.kinds| && Attached(n, j)
      ensures n.mem.Word(j) != r
    {
      MovesAttached(s, t, n, ev, j);
    }
  }

  lemma OthersPrivateQuiet(s: State, t: Tid, n: State, ev: Event, i: Slot, r: Addr)
    requires Inv(s) && Step(s, t, n, ev) && !Moves(s.threads[t]) && PrivateOk(s, i, r)
    ensures PrivateOk(n, i, r)
  {
    hide Effect, Act, MayBegin, Resolved, ExclusiveInv, ShapedPc;
    var pc := s.threads[t];
    assert n.mem.heap[r] == s.mem.heap[r] by {
      if pc.Invoke? {
        var addrs := Addrs(pc.args, pc.got);
        EffectKinds(s.mem.heap, t, ev.verb, addrs, n.mem.heap, ev.ret);
        assert PcOk(s, pc);
        forall i | 0 <= i < |addrs| ensures addrs[i] != r { assert GotOk(s, pc.args[i], addrs[i]); }
      }
    }
    forall j: Slot | j < |s.kinds| && Attached(n, j)
      ensures n.mem.Word(j) != r
    {
      QuietAttached(s, t, n, ev, j);
    }
  }

  /** No step touches an object that another thread still keeps to itself. */
  lemma OthersPrivate(s: State, t: Tid, n: State, ev: Event, u: Tid)
    requires Inv(s) && Step(s, t, n, ev) && u < |s.threads| && u != t && Private(s.threads[u]).Some?
    ensures PrivateOk(n, Private(s.threads[u]).value.0, Private(s.threads[u]).value.1)
  {
    hide Local, MayBegin, PrivateOk, ShapedPc, ShapedMem, LockInv, ExclusiveInv, SlotInv, PcOk;
    var (i, r) := Private(s.threads[u]).value;
    assert PrivateOk(s, i, r);
    if Moves(s.threads[t]) {
      OthersPrivateMoves(s, t, n, ev, i, r);
    } else {
      OthersPrivateQuiet(s, t, n, ev, i, r);
    }
  }

  /** A thread comes by an object of its own only by creating it. */
  lemma LocalPrivate(kinds: seq<Kind>, t: Tid, m: Mem, pc: Pc, m': Mem, pc': Pc, ev: Event)
    requires ShapedPc(kinds, pc) && ShapedMem(kinds, m) && Local(kinds, t, m, pc, m', pc', ev)
    requires Private(pc').Some?
    ensures !Moves(pc) && m'.words == m.words
    ensures Private(pc) == Private(pc') || Private(pc).None?
    ensures Private(pc).None? ==>
              var (i, r) := Private(pc').value;
              i < |kinds| && IsHeap(r) && r !in m.heap && r in m'.heap && m'.heap[r] == NewObj(kinds[i])
    ensures Private(pc).Some? ==> m' == m
  {
    hide Effect, Act;
  }

  lemma OwnPrivate(s: State, t: Tid, n: State, ev: Event)
    requires Inv(s) && Step(s, t, n, ev) && Shaped(n) && Private(n.threads[t]).Some?
    ensures PrivateOk(n, Private(n.threads[t]).value.0, Private(n.threads[t]).value.1)
    ensures Private(n.threads[t]) == Private(s.threads[t]) || Private(n.threads[t]).value.1 !in s.mem.heap
  {
    hide Local, MayBegin, ShapedPc, ExclusiveInv;
    LocalPrivate(s.kinds, t, s.mem, s.threads[t], n.mem, n.threads[t], ev);
    forall j: Slot | j < |s.kinds| && Attached(n, j)
      ensures Attached(s, j)
    {
      QuietAttached(s, t, n, ev, j);
    }
  }

  lemma StepPrivate(s: State, t: Tid, n: State, ev: Event)
    requires Inv(s) && Step(s, t, n, ev) && Shaped(n)
    ensures PrivateInv(n)
  {
    hide Local, MayBegin, ShapedPc, ShapedMem, LockInv, ExclusiveInv, SlotInv, PcOk;
    StepShaped(s, t, n, ev);
    if Private(n.threads[t]).Some? {
      OwnPrivate(s, t, n, ev);
    }
    forall u | 0 <= u < |s.threads| && u != t && Private(s.threads[u]).Some?
      ensures PrivateOk(n, Private(s.threads[u]).value.0, Private(s.threads[u]).value.1)
      ensures Private(n.threads[t]).Some? ==> Private(n.threads[t]).value.1 != Private(s.threads[u]).value.1
    {
      OthersPrivate(s, t, n, ev, u);
      assert PrivateOk(s, Private(s.threads[u]).value.0, Private(s.threads[u]).value.1);
    }
  }

  /** A slot that another thread uses keeps its live object. */
  lemma OthersAttached(s: State, t: Tid, n: State, ev: Event, u: Tid, i: Slot)
    requires Inv(s) && Step(s, t, n, ev) && u < |s.threads| && u != t
    requires i in SlotsOf(s.threads[u]) && Attached(s, i)
    ensures Attached(n, i) && n.mem.Word(i) == s.mem.Word(i)
  {
    hide Local, MayBegin, ShapedMem, SlotInv, PrivateInv;
    var pc := s.threads[t];
    if Moves(pc) {
      assert pc.Resolve? ==> PcOk(s, pc);
      MovesAttached(s, t, n, ev, i);
    } else {
      QuietAttached(s, t, n, ev, i);
    }
  }

  lemma TodoInSlots(kinds: seq<Kind>, pc: Pc)
    requires pc.Resolve? && ShapedPc(kinds, pc)
    ensures pc.todo != [] && pc.todo[0] in SlotsOf(pc)
  {
  }

  /** What another thread relies on is not disturbed. */
  lemma OthersPc(s: State, t: Tid, n: State, ev: Event, u: Tid)
    requires Inv(s) && Step(s, t, n, ev) && Shaped(n) && u < |s.threads| && u != t
    ensures n.threads[u] == s.threads[u] && PcOk(n, n.threads[u])
  {
    hide Local, MayBegin, ShapedPc, ShapedMem, PrivateInv, ExclusiveInv, Attached;
    var q := s.threads[u];
    assert PcOk(s, q);
    forall i: Slot | i in SlotsOf(q) && Attached(s, i)
      ensures Attached(n, i) && n.mem.Word(i) == s.mem.Word(i)
    {
      OthersAttached(s, t, n, ev, u, i);
    }
    if q.Resolve? {
      TodoInSlots(s.kinds, q);
    }
    if InSection(q) {
      assert s.owner == Some(u) && !InSection(s.threads[t]) && !Moves(s.threads[t]);
      QuietHeap(s, t, n, ev);
      QuietAttached(s, t, n, ev, 0);
    }
  }

  /** A finished lookup hands over the live object of its slot. */
  lemma ResolvedOk(s: State, pc: Pc)
    requires pc.Resolve? && ShapedPc(s.kinds, pc) && ShapedMem(s.kinds, s.mem) && PcOk(s, pc) && Attached(s, pc.todo[0])
    ensures ShapedPc(s.kinds, Resolved(pc, s.mem.Word(pc.todo[0])))
    ensures PcOk(s, Resolved(pc, s.mem.Word(pc.todo[0])))
  {
    ResolvedPc(s.kinds, pc, s.mem.Word(pc.todo[0]));
  }

  lemma OwnPcResolve(s: State, t: Tid, n: State, ev: Event)
    requires Inv(s) && Step(s, t, n, ev) && Shaped(n) && s.threads[t].Resolve?
    ensures PcOk(n, n.threads[t])
  {
    hide InvokeStep, LifeStep, MayBegin, SlotInv, ExclusiveInv, Resolved;
    var pc := s.threads[t];
    assert PcOk(s, pc);
    forall i: Slot | i in SlotsOf(pc)
      ensures Attached(s, i) ==> Attached(n, i) && n.mem.Word(i) == s.mem.Word(i)
      ensures pc.line.L70Store? && i == pc.todo[0] ==> Attached(n, i)
    {
      if Moves(pc) {
        assert PrivateOk(s, pc.todo[0], pc.line.r);
        MovesAttached(s, t, n, ev, i);
      } else {
        QuietAttached(s, t, n, ev, i);
      }
    }
    if pc.line == L67 || pc.line == L72 {
      ResolvedPc(s.kinds, pc, s.mem.Word(pc.todo[0]));
      ResolvedOk(n, pc);
    } else if pc.line == L66 || pc.line == L69 {
      HeapWordAttached(s, t, pc.todo[0]);
    }
  }

  /** A thread that uses a slot never sees the word of a freed object in it. */
  lemma HeapWordAttached(s: State, t: Tid, i: Slot)
    requires Inv(s) && t < |s.threads| && i in SlotsOf(s.threads[t]) && i < |s.kinds|
    requires !s.threads[t].DestroyClear? && !Initialises(s.threads[t])
    ensures Attached(s, i) <==> IsHeap(s.mem.Word(i))
  {
  }

  lemma OwnPcInvoke(s: State, t: Tid, n: State, ev: Event)
    requires Inv(s) && Step(s, t, n, ev) && Shaped(n) && s.threads[t].Invoke?
    ensures PcOk(n, n.threads[t])
  {
    hide Effect, Act, MayBegin, LockInv, SlotInv, PrivateInv, ExclusiveInv, Attached;
    var pc := s.threads[t];
    assert PcOk(s, pc);
    forall i: Slot | Attached(s, i)
      ensures Attached(n, i) && n.mem.words == s.mem.words
    {
      QuietAttached(s, t, n, ev, i);
    }
  }

  lemma OwnPcLife(s: State, t: Tid, n: State, ev: Event)
    requires Inv(s) && Step(s, t, n, ev) && Shaped(n) && !s.threads[t].Resolve? && !s.threads[t].Invoke?
    ensures PcOk(n, n.threads[t])
  {
    hide InvokeStep, ResolveStep, SlotInv, ExclusiveInv, PrivateInv;
    assert n.threads[t].Resolve? ==> n.threads[t].got == map[] && n.threads[t].line == L66;
    assert n.threads[t].DestroyFree? ==> n.mem == s.mem;
  }

  lemma OwnPc(s: State, t: Tid, n: State, ev: Event)
    requires Inv(s) && Step(s, t, n, ev) && Shaped(n)
    ensures PcOk(n, n.threads[t])
  {
    hide Local, MayBegin, ShapedPc, ShapedMem, LockInv, SlotInv, ExclusiveInv, PrivateInv, PcOk;
    match s.threads[t]
    case Resolve(_, _, _, _, _) => OwnPcResolve(s, t, n, ev);
    case Invoke(_, _, _) => OwnPcInvoke(s, t, n, ev);
    case _ => OwnPcLife(s, t, n, ev);
  }

  /** One step of any thread keeps the invariant. */
  lemma StepInv(s: State, t: Tid, n: State, ev: Event)
    requires Inv(s) && Step(s, t, n, ev)
    ensures Inv(n)
  {
    hide Local, MayBegin, ShapedPc, ShapedMem, LockInv, SlotInv, ExclusiveInv, PrivateInv, PcOk;
    StepShaped(s, t, n, ev);
    StepLock(s, t, n, ev);
    StepExclusive(s, t, n, ev);
    StepRaw(s, t, n, ev);
    StepSlots(s, t, n, ev);
    StepPrivate(s, t, n, ev);
    OwnPc(s, t, n, ev);
    forall u | 0 <= u < |s.threads| && u != t
      ensures PcOk(n, n.threads[u])
    {
      OthersPc(s, t, n, ev, u);
    }
  }

  // ----- refinement: a store of objects named by slot -----

  /** The object a slot stands for: a new one until the lazy path has created it. */
  function Alpha(s: State): map<Slot, Obj> {
    map i: Slot | i < |s.kinds| :: if Attached(s, i) && s.mem.Word(i) in s.mem.heap then s.mem.heap[s.mem.Word(i)]
        else NewObj(s.kinds[i])
  }

  /** The abstract machine knows neither words, addresses, g_lock nor lazy creation. */
  predicate AbsStep(kinds: seq<Kind>, a: map<Slot, Obj>, t: Tid, ev: Event, a': map<Slot, Obj>) {
    match ev
    case Silent => a' == a
    case Did(verb, args, ret) => Effect(a, t, verb, args, a', ret)
    case DidInit(i) => i < |kinds| && a' == a[i := NewObj(kinds[i])]
    case DidDestroy(i) => i < |kinds| && a' == a[i := NewObj(kinds[i])]
  }

  /** A call does the same to the same objects under other names. */
  lemma EffectRename<K, L>(h: map<K, Obj>, ks: seq<K>, h': map<K, Obj>, a: map<L, Obj>, ls: seq<L>, a': map<L, Obj>,
                           t: Tid, v: Verb, ret: int)
    requires Effect(h, t, v, ks, h', ret) && |ls| == |ks| && a'.Keys == a.Keys
    requires forall k | 0 <= k < |ks| :: ls[k] in a && a[ls[k]] == h[ks[k]] && a'[ls[k]] == h'[ks[k]]
    requires forall l | l in a && l !in ls :: a'[l] == a[l]
    ensures Effect(a, t, v, ls, a', ret)
  {
    assert Lookup(a, ls) == Lookup(h, ks);
    assert Lookup(a', ls) == Lookup(h', ks);
  }

  /** A call reaches the objects of its own slots and of no others. */
  lemma InvokeSlot(s: State, t: Tid, n: State, ev: Event, i: Slot)
    requires Inv(s) && Step(s, t, n, ev) && s.threads[t].Invoke? && i < |s.kinds|
    ensures i in s.threads[t].args ==>
              i in s.threads[t].got && s.threads[t].got[i] in s.mem.heap
                  && Alpha(s)[i] == s.mem.heap[s.threads[t].got[i]]
              && s.threads[t].got[i] in n.mem.heap && Alpha(n)[i] == n.mem.heap[s.threads[t].got[i]]
    ensures i !in s.threads[t].args ==> Alpha(n)[i] == Alpha(s)[i]
  {
    hide MayBegin, LockInv, ExclusiveInv, PrivateInv;
    var pc := s.threads[t];
    var addrs := Addrs(pc.args, pc.got);
    assert PcOk(s, pc);
    EffectKinds(s.mem.heap, t, ev.verb, addrs, n.mem.heap, ev.ret);
    QuietAttached(s, t, n, ev, i);
    if i in pc.args {
      assert GotOk(s, i, pc.got[i]);
    } else if Attached(s, i) {
      forall k | 0 <= k < |addrs| ensures addrs[k] != s.mem.Word(i) { assert GotOk(s, pc.args[k], addrs[k]); }
    }
  }

  lemma InvokeRefines(s: State, t: Tid, n: State, ev: Event)
    requires Inv(s) && Step(s, t, n, ev) && s.threads[t].Invoke?
    ensures AbsStep(s.kinds, Alpha(s), t, ev, Alpha(n))
  {
    hide MayBegin, LockInv, ExclusiveInv, PrivateInv, SlotInv, Attached, Effect, PcOk;
    var pc := s.threads[t];
    forall i: Slot | i < |s.kinds|
      ensures i in pc.args ==> i in pc.got && pc.got[i] in s.mem.heap && Alpha(s)[i] == s.mem.heap[pc.got[i]]
      ensures i in pc.args ==> pc.got[i] in n.mem.heap && Alpha(n)[i] == n.mem.heap[pc.got[i]]
      ensures i !in pc.args ==> Alpha(n)[i] == Alpha(s)[i]
    {
      InvokeSlot(s, t, n, ev, i);
    }
    assert Names(s.kinds, pc.call, pc.args);
    EffectRename(s.mem.heap, Addrs(pc.args, pc.got), n.mem.heap, Alpha(s), pc.args, Alpha(n), t, ev.verb, ev.ret);
  }

  /** No step but the call itself, init and destroy is visible in the abstract store. */
  lemma OtherRefines(s: State, t: Tid, n: State, ev: Event, i: Slot)
    requires Inv(s) && Step(s, t, n, ev) && !s.threads[t].Invoke? && i < |s.kinds|
    ensures ev == Silent || ((ev.DidInit? || ev.DidDestroy?) && ev.slot == s.threads[t].slot < |s.kinds|)
    ensures Alpha(n)[i] == if ev != Silent && i == ev.slot then NewObj(s.kinds[i]) else Alpha(s)[i]
  {
    hide InvokeStep, MayBegin, ExclusiveInv, Resolved;
    var pc := s.threads[t];
    StepInv(s, t, n, ev);
    if Moves(pc) {
      MovesAttached(s, t, n, ev, i);
      if pc.Resolve? || pc.InitStore? {
        assert PrivateOk(s, Private(pc).value.0, Private(pc).value.1);
        assert pc.Resolve? ==> PcOk(s, pc);
      } else if pc.DestroyFree? {
        assert PcOk(s, pc) && s.owner == Some(t) && Attached(s, pc.slot);
      }
    } else {
      QuietAttached(s, t, n, ev, i);
      if pc.DestroyTest? && i == pc.slot {
        assert s.owner == Some(t) && !Clearing(s, i);
      }
    }
  }

  lemma OtherEvent(s: State, t: Tid, n: State, ev: Event)
    requires Step(s, t, n, ev) && !s.threads[t].Invoke?
    ensures ev == Silent || ((ev.DidInit? || ev.DidDestroy?) && ev.slot < |s.kinds|)
  {
    hide MayBegin, InvokeStep, ResolveStep;
  }

  /** Every step of the bridge is a step of the abstract store, with the same caller, the same call
      and the same return value, or changes nothing there. */
  lemma StepRefines(s: State, t: Tid, n: State, ev: Event)
    requires Inv(s) && Step(s, t, n, ev)
    ensures Inv(n) && (!n.mem.fault ==> AbsStep(s.kinds, Alpha(s), t, ev, Alpha(n)))
  {
    hide Local, MayBegin, ShapedPc, ShapedMem, LockInv, SlotInv, ExclusiveInv, PrivateInv, PcOk;
    StepInv(s, t, n, ev);
    if s.threads[t].Invoke? {
      InvokeRefines(s, t, n, ev);
    } else {
      OtherEvent(s, t, n, ev);
      forall i: Slot | i < |s.kinds|
        ensures Alpha(n)[i] == if ev != Silent && i == ev.slot then NewObj(s.kinds[i]) else Alpha(s)[i]
      {
        OtherRefines(s, t, n, ev, i);
      }
      assert ev == Silent ==> Alpha(n) == Alpha(s);
      assert ev != Silent ==> ev.slot < |s.kinds| && Alpha(n) == Alpha(s)[ev.slot := NewObj(s.kinds[ev.slot])];
    }
  }

  // ----- whole runs -----

  /** What happened: who stepped, and what it showed. */
  datatype Entry = Entry(t: Tid, ev: Event)

  ghost predicate IsRun(states: seq<State>, trace: seq<Entry>) {
    && |states| == |trace| + 1
    && (forall i | 0 <= i < |trace| ::
          trace[i].t < |states[i].threads| && Step(states[i], trace[i].t, states[i + 1], trace[i].ev))
  }

  lemma {:induction false} RunInv(states: seq<State>, trace: seq<Entry>, i: nat)
    requires IsRun(states, trace) && Initial(states[0]) && i < |states|
    ensures Inv(states[i]) && states[i].kinds == states[0].kinds
  {
    hide Inv, Initial;
    if i == 0 {
      InitialInv(states[0]);
    } else {
      RunInv(states, trace, i - 1);
      StepInv(states[i - 1], trace[i - 1].t, states[i], trace[i - 1].ev);
    }
  }

  function AllNew(kinds: seq<Kind>): map<Slot, Obj> { map i: Slot | i < |kinds| :: NewObj(kinds[i]) }

  lemma InitialAlpha(s: State)
    requires Initial(s)
    ensures Alpha(s) == AllNew(s.kinds)
  {
  }

  /** Every interleaving of the bridge is a run of the abstract store from all-new objects, with the
      same trace, up to a fault if there is one. */
  lemma RunRefines(states: seq<State>, trace: seq<Entry>, i: nat)
    requires IsRun(states, trace) && Initial(states[0]) && i < |trace| && !states[i + 1].mem.fault
    ensures Alpha(states[0]) == AllNew(states[0].kinds)
    ensures AbsStep(states[0].kinds, Alpha(states[i]), trace[i].t, trace[i].ev, Alpha(states[i + 1]))
  {
    hide Inv, Initial, Alpha, AbsStep;
    InitialAlpha(states[0]);
    RunInv(states, trace, i);
    StepRefines(states[i], trace[i].t, states[i + 1], trace[i].ev);
  }

  // ----- mutual exclusion, from what callers see alone -----

  /** What an event adds to the number of times its thread holds mutex i. */
  function Gain(ev: Event, i: Slot): int {
    match ev
    case Did(Lock, args, 0) => if args != [] && args[0] == i then 1 else 0
    case Did(TryLock, args, 0) => if args != [] && args[0] == i then 1 else 0
    case Did(Unlock, args, 0) => if args != [] && args[0] == i then -1 else 0
    case Did(Sleep, args, 0) => if |args| == 2 && args[1] == i then -1 else 0
    case Did(Wake(_), args, _) => if |args| == 2 && args[1] == i then 1 else 0
    case _ => 0
  }

  /** How often thread t has taken mutex i without giving it back, counting successful calls since
      its last init or destroy. */
  function Holds(trace: seq<Entry>, t: Tid, i: Slot): int {
    if trace == [] then 0
    else
      var last := trace[|trace| - 1];
      if (last.ev.DidInit? || last.ev.DidDestroy?) && last.ev.slot == i then 0
      else Holds(trace[..|trace| - 1], t, i) + (if last.t == t then Gain(last.ev, i) else 0)
  }

  predicate Tally(o: Obj, trace: seq<Entry>, t: Tid, i: Slot) {
    o.Mutex? && (o.owner == None <==> o.depth == 0) && Holds(trace, t, i) == if o.owner == Some(t) then o.depth else 0
  }

  /** One abstract step changes a mutex exactly as the event says. */
  lemma MutexStep(a: map<Slot, Obj>, u: Tid, ev: Event, a': map<Slot, Obj>, i: Slot)
    requires ev.Did? && Effect(a, u, ev.verb, ev.args, a', ev.ret) && i in a && a[i].Mutex?
    ensures i in a' && a'[i].Mutex?
    ensures Gain(ev, i) == 0 ==> a'[i] == a[i]
    ensures Gain(ev, i) == 1 ==> Locked(a[i], u, a'[i])
    ensures Gain(ev, i) == -1 ==> Unlocked(a[i], u, a'[i])
  {
    var x, y := Lookup(a, ev.args), Lookup(a', ev.args);
    if i in ev.args {
      assert forall k | 0 <= k < |ev.args| :: x[k] == a[ev.args[k]] && y[k] == a'[ev.args[k]];
      assert ev.args[0] == i || (|ev.args| == 2 && ev.args[1] == i);
    }
  }

  lemma {:induction false} RunTallies(states: seq<State>, trace: seq<Entry>, k: nat, t: Tid, i: Slot)
    requires IsRun(states, trace) && Initial(states[0]) && k < |states| && !states[k].mem.fault
    requires i < |states[0].kinds| && states[0].kinds[i] == MutexKind
    ensures i in Alpha(states[k]) && Tally(Alpha(states[k])[i], trace[..k], t, i)
  {
    if k == 0 {
      RunInv(states, trace, 0);
      InitialAlpha(states[0]);
    } else {
      RunTallies(states, trace, k - 1, t, i);
      RunRefines(states, trace, k - 1);
      assert trace[..k][..k - 1] == trace[..k - 1];
      AbsTally(states[0].kinds, Alpha(states[k - 1]), trace[..k], Alpha(states[k]), t, i);
    }
  }

  lemma AbsTally(kinds: seq<Kind>, a: map<Slot, Obj>, trace: seq<Entry>, a': map<Slot, Obj>, t: Tid, i: Slot)
    requires trace != [] && i < |kinds| && kinds[i] == MutexKind && i in a
    requires Tally(a[i], trace[..|trace| - 1], t, i)
    requires AbsStep(kinds, a, trace[|trace| - 1].t, trace[|trace| - 1].ev, a')
    ensures i in a' && Tally(a'[i], trace, t, i)
  {
    var last := trace[|trace| - 1];
    if last.ev.Did? {
      MutexStep(a, last.t, last.ev, a', i);
    }
  }

  /** In every interleaving, at most one thread holds a bridged mutex, and none holds it a negative
      number of times. */
  lemma MutualExclusion(states: seq<State>, trace: seq<Entry>, k: nat, t: Tid, u: Tid, i: Slot)
    requires IsRun(states, trace) && Initial(states[0]) && k < |states| && !states[k].mem.fault
    requires i < |states[0].kinds| && states[0].kinds[i] == MutexKind
    ensures Holds(trace[..k], t, i) >= 0
    ensures Holds(trace[..k], t, i) > 0 && Holds(trace[..k], u, i) > 0 ==> t == u
  {
    RunTallies(states, trace, k, t, i);
    RunTallies(states, trace, k, u, i);
  }

  // ----- one real object per slot -----

  predicate Storing(s: State, i: Slot) {
    && s.owner.Some? && s.owner.value < |s.threads|
    && s.threads[s.owner.value].Resolve? && s.threads[s.owner.value].line.L70Store?
    && s.threads[s.owner.value].todo != [] && s.threads[s.owner.value].todo[0] == i
  }

  /** The lazy path of a slot has created at most one object since its last init or destroy. */
  ghost predicate MadeOnce(s: State) {
    forall i: Slot | i < |s.mem.made| ::
      s.mem.made[i] <= 1 && (s.mem.made[i] == 1 ==> IsHeap(s.mem.Word(i)) || Storing(s, i))
  }

  /** The counter of slot i goes up where its object is created and back to 0 where its word is reset. */
  lemma LocalMade(kinds: seq<Kind>, t: Tid, m: Mem, pc: Pc, m': Mem, pc': Pc, ev: Event, i: Slot)
    requires ShapedPc(kinds, pc) && ShapedMem(kinds, m) && Local(kinds, t, m, pc, m', pc', ev) && i < |kinds|
    ensures ShapedMem(kinds, m')
    ensures if pc.Resolve? && pc.line == L70 && pc.todo[0] == i then
              m'.made[i] == m.made[i] + 1 && pc'.Resolve? && pc'.line.L70Store? && pc'.todo == pc.todo
            else if (pc.InitStore? || pc.CondStore? || pc.DestroyClear?) && pc.slot == i then m'.made[i] == 0
            else
              && m'.made[i] == m.made[i]
              && m'.Word(i) == if pc.Resolve? && pc.line.L70Store? && pc.todo[0] == i then pc.line.r else m.Word(i)
  {
    LocalShaped(kinds, t, m, pc, m', pc', ev);
    hide Effect, Resolved;
  }

  lemma StepMadeOnce(s: State, t: Tid, n: State, ev: Event)
    requires Inv(s) && MadeOnce(s) && Step(s, t, n, ev)
    ensures MadeOnce(n)
  {
    hide Local, MayBegin, ExclusiveInv, SlotInv, ShapedPc;
    var pc := s.threads[t];
    assert PcOk(s, pc);
    assert pc.Resolve? && pc.line.L70Store? ==> PrivateOk(s, pc.todo[0], pc.line.r);
    hide PcOk, PrivateInv, PrivateOk;
    StepShaped(s, t, n, ev);
    LocalSection(s.kinds, t, s.mem, pc, n.mem, n.threads[t], ev);
    forall i: Slot | i < |n.mem.made|
      ensures n.mem.made[i] <= 1 && (n.mem.made[i] == 1 ==> IsHeap(n.mem.Word(i)) || Storing(n, i))
    {
      LocalMade(s.kinds, t, s.mem, pc, n.mem, n.threads[t], ev, i);
    }
  }

  lemma {:induction false} RunMadeOnce(states: seq<State>, trace: seq<Entry>, k: nat)
    requires IsRun(states, trace) && Initial(states[0]) && k < |states|
    ensures MadeOnce(states[k])
  {
    if k == 0 {
    } else {
      hide Step, Inv, Initial, MadeOnce;
      RunInv(states, trace, k - 1);
      RunMadeOnce(states, trace, k - 1);
      StepMadeOnce(states[k - 1], trace[k - 1].t, states[k], trace[k - 1].ev);
    }
  }

  /** Once created, the object of a slot stays until that slot is initialised or destroyed. */
  lemma StepSettles(s: State, t: Tid, n: State, ev: Event, i: Slot)
    requires Inv(s) && Step(s, t, n, ev) && Attached(s, i) && Exclusive(s.threads[t]) != Some(i)
    ensures Attached(n, i) && n.mem.Word(i) == s.mem.Word(i)
  {
    hide Local, MayBegin, ExclusiveInv, PrivateInv, SlotInv, ShapedPc, ShapedMem, LockInv;
    if Moves(s.threads[t]) {
      assert PcOk(s, s.threads[t]);
      MovesAttached(s, t, n, ev, i);
    } else {
      QuietAttached(s, t, n, ev, i);
    }
  }

  /** Without init or destroy of slot i between states j and k, all of them delegate to the same
      real object from the first state that has one, and the lazy path has made at most one. */
  lemma {:induction false} OneObjectPerSlot(states: seq<State>, trace: seq<Entry>, i: Slot, j: nat, k: nat)
    requires IsRun(states, trace) && Initial(states[0]) && j <= k < |states|
    requires Attached(states[j], i)
    requires forall m | j <= m < k :: Exclusive(states[m].threads[trace[m].t]) != Some(i)
    ensures Attached(states[k], i) && states[k].mem.Word(i) == states[j].mem.Word(i)
    ensures i < |states[k].mem.made| && states[k].mem.made[i] <= 1
    decreases k - j
  {
    RunMadeOnce(states, trace, k);
    RunInv(states, trace, k);
    if j == k {
    } else {
      RunInv(states, trace, j);
      StepSettles(states[j], trace[j].t, states[j + 1], trace[j].ev, i);
      OneObjectPerSlot(states, trace, i, j + 1, k);
    }
  }

  /** A real call is made on the live objects its slots stand for at that moment; different slots
      have different ones. So threads that name the same slot meet on the same object: a signal
      wakes a waiter of the same Bionic condition variable. */
  lemma CallsMeet(states: seq<State>, trace: seq<Entry>, k: nat, a: nat)
    requires IsRun(states, trace) && Initial(states[0]) && k < |trace|
    requires states[k].threads[trace[k].t].Invoke? && a < |states[k].threads[trace[k].t].args|
    ensures var s, pc := states[k], states[k].threads[trace[k].t];
            var i := pc.args[a];
            && Attached(s, i) && i in pc.got && pc.got[i] == s.mem.Word(i)
            && i < |s.kinds| && s.mem.Word(i) in s.mem.heap && KindOf(s.mem.heap[s.mem.Word(i)]) == s.kinds[i]
            && forall j: Slot | j != i && Attached(s, j) :: s.mem.Word(j) != pc.got[i]
  {
    var s, pc := states[k], states[k].threads[trace[k].t];
    RunInv(states, trace, k);
    assert PcOk(s, pc);
    assert GotOk(s, pc.args[a], pc.got[pc.args[a]]);
  }

  // ----- g_lock is never held for long -----

  lemma {:induction false} FreshAddress(used: set<Addr>) returns (r: Addr)
    ensures IsHeap(r) && r !in used && forall a | a in used :: a < r
    decreases |used|
  {
    if used == {} {
      r := HEAP_FLOOR + 1;
    } else {
      var a :| a in used;
      var q := FreshAddress(used - {a});
      r := if q > a then q else a + 1;
      assert used == (used - {a}) + {a};
    }
  }

  /** Steps left before the thread gives g_lock back. */
  function SectionLeft(pc: Pc): nat {
    match pc
    case Resolve(_, _, _, _, line) =>
      (match line case L69 => 4 case L70 => 3 case L70Store(_) => 2 case L71 => 1 case _ => 0)
    case InitStore(_, _) | CondStore(_) => 2
    case InitUnlock(_) | CondUnlock(_) | DestroyUnlock(_) => 1
    case DestroyTest(_) => 4
    case DestroyFree(_) => 3
    case DestroyClear(_) => 2
    case _ => 0
  }

  /** The next memory step of a thread in a critical section. */
  lemma SectionStep(kinds: seq<Kind>, t: Tid, m: Mem, pc: Pc) returns (m': Mem, pc': Pc, ev: Event)
    requires ShapedPc(kinds, pc) && ShapedMem(kinds, m) && InSection(pc)
    ensures Local(kinds, t, m, pc, m', pc', ev)
  {
    hide Effect, Act;
    m', pc', ev := m, pc, Silent;
    match pc {
      case Resolve(verb, args, todo, got, line) =>
        var i := todo[0];
        match line {
          case L69 => pc' := Resolve(verb, args, todo, got, if IsHeap(m.words[i]) then L71 else L70);
          case L70 =>
            var r := FreshAddress(m.heap.Keys);
            pc' := Resolve(verb, args, todo, got, L70Store(r));
            m' := m.(heap := m.heap[r := NewObj(kinds[i])], made := m.made[i := m.made[i] + 1]);
          case L70Store(r) => pc', m' := Resolve(verb, args, todo, got, L71), m.(words := m.words[i := r]);
          case _ => pc' := Resolve(verb, args, todo, got, L72);
        }
      case InitStore(i, r) =>
        pc', m', ev := InitUnlock(i), m.(words := m.words[i := r], made := m.made[i := 0], raw := m.raw - {i}),
            DidInit(i);
      case CondStore(i) =>
        pc', m', ev := CondUnlock(i), m.(words := m.words[i := 0], made := m.made[i := 0], raw := m.raw - {i}),
            DidInit(i);
      case CondUnlock(i) => pc' := Resolve(None, [i], [i], map[], L66);
      case DestroyTest(i) =>
        if m.words[i] in m.heap {
          pc' := DestroyFree(i);
        } else {
          pc', m', ev := DestroyUnlock(i), m.(fault := m.words[i] != 0), DidDestroy(i);
        }
      case DestroyFree(i) => pc', m', ev := DestroyClear(i), m.(heap := m.heap - {m.words[i]}), DidDestroy(i);
      case DestroyClear(i) => pc', m' := DestroyUnlock(i), m.(words := m.words[i := 0], made := m.made[i := 0]);
      case _ => pc' := Idle;
    }
  }

  /** Whatever the holder of g_lock does next, it is never blocked ... */
  lemma HolderNotBlocked(s: State, t: Tid) returns (n: State, ev: Event)
    requires Inv(s) && !s.mem.fault && s.owner == Some(t)
    ensures Step(s, t, n, ev)
  {
    var m, pc, e := SectionStep(s.kinds, t, s.mem, s.threads[t]);
    hide Local, SlotInv, ExclusiveInv, PrivateInv, PcOk, ShapedPc, ShapedMem;
    ev := e;
    var gives := GivesLock(s.threads[t]);
    n := State(s.kinds, m, if gives then None else s.owner, if gives then 0 else s.depth, s.threads[t := pc]);
  }

  /** ... and after at most four steps of its own g_lock is free. */
  lemma HolderLeaves(s: State, t: Tid, n: State, ev: Event)
    requires Inv(s) && Step(s, t, n, ev) && s.owner == Some(t)
    ensures 1 <= SectionLeft(s.threads[t]) <= 4
    ensures if SectionLeft(s.threads[t]) == 1 then n.owner == None
            else n.owner == Some(t) && SectionLeft(n.threads[t]) < SectionLeft(s.threads[t])
  {
  }

  // ----- destroy tests the word against 0, not IS_HEAP_PTR -----

  /** Destroy frees only what it should as long as no mutex or cond word, once it is not raw memory, is
      a small nonzero value. */
  ghost predicate NoStaticWords(s: State) {
    forall i: Slot | i < |s.kinds| && s.kinds[i] != RwKind && i !in s.mem.raw ::
      s.mem.Word(i) == 0 || IsHeap(s.mem.Word(i))
  }

  lemma StepNoStatic(s: State, t: Tid, n: State, ev: Event)
    requires Inv(s) && NoStaticWords(s) && !s.mem.fault && Step(s, t, n, ev)
    ensures Inv(n) && NoStaticWords(n) && !n.mem.fault
  {
    hide Effect, Act, MayBegin, ExclusiveInv;
    StepInv(s, t, n, ev);
    var pc := s.threads[t];
    if pc.DestroyTest? {
      assert s.owner == Some(t) && !Clearing(s, pc.slot);
    }
    if pc.Resolve? && pc.line.L70Store? {
      assert PrivateOk(s, pc.todo[0], pc.line.r);
    }
    if pc.InitStore? {
      assert PrivateOk(s, pc.slot, pc.r);
    }
  }

  lemma {:induction false} RunNoFault(states: seq<State>, trace: seq<Entry>, k: nat)
    requires IsRun(states, trace) && Initial(states[0]) && NoStaticWords(states[0]) && k < |states|
    ensures NoStaticWords(states[k]) && !states[k].mem.fault
  {
    if k == 0 {
    } else {
      hide Step, Inv, Initial, NoStaticWords;
      RunInv(states, trace, k - 1);
      RunNoFault(states, trace, k - 1);
      StepNoStatic(states[k - 1], trace[k - 1].t, states[k], trace[k - 1].ev);
    }
  }

  /** A mutex or condition variable statically initialised to a nonzero word and destroyed before
      its first use makes destroy free an address that is no object. */
  lemma StaticWordFaults(s: State, i: Slot) returns (states: seq<State>, trace: seq<Entry>)
    requires Initial(s) && |s.threads| > 0
    requires i < |s.kinds| && s.kinds[i] != RwKind && i !in s.mem.raw && s.mem.Word(i) != 0
    ensures IsRun(states, trace) && states[0] == s && states[|trace|].mem.fault
  {
    var s1 := s.(threads := s.threads[0 := DestroyLock(i)]);
    var s2 := s1.(threads := s1.threads[0 := DestroyTest(i)], owner := Some(0), depth := 1);
    var s3 := s2.(threads := s2.threads[0 := DestroyUnlock(i)], mem := s.mem.(fault := true));
    assert Step(s, 0, s1, Silent);
    assert Step(s1, 0, s2, Silent);
    assert Step(s2, 0, s3, DidDestroy(i));
    states, trace := [s, s1, s2, s3], [Entry(0, Silent), Entry(0, Silent), Entry(0, DidDestroy(i))];
  }

  ghost predicate NeverFaults(s: State) {
    forall states: seq<State>, trace: seq<Entry> | IsRun(states, trace) && states[0] == s :: !states[|trace|].mem.fault
  }

  /** So destroy is safe in every run if and only if every mutex and cond word that is not raw memory
      starts at 0. */
  lemma DestroySafeIff(s: State)
    requires Initial(s) && |s.threads| > 0
    ensures NeverFaults(s) <==> NoStaticWords(s)
  {
    if NoStaticWords(s) {
      forall states: seq<State>, trace: seq<Entry> | IsRun(states, trace) && states[0] == s
        ensures !states[|trace|].mem.fault
      {
        RunNoFault(states, trace, |trace|);
      }
    } else {
      var i: Slot :| i < |s.kinds| && s.kinds[i] != RwKind && i !in s.mem.raw
          && !(s.mem.Word(i) == 0 || IsHeap(s.mem.Word(i)));
      var states, trace := StaticWordFaults(s, i);
    }
  }
}
