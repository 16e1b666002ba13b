/** What callers of the bridge are told (src/pthread_bridge.c:83-85, 125-132, 160-162), judged by what
    they were told before: which calls return, with what, and which block. The statements speak of
    steps and of events only. */
module BridgeAnswers {
  import opened Prelude
  import opened LazyBridge

  // ----- tallies of events -----

  /** What a thread has of a reader-writer lock. */
  datatype Share = Share(writing: int, reading: int)

  function ShareAfter(before: Share, e: Entry, t: Tid, i: Slot): Share {
    match e.ev
    case DidInit(j) => if j == i then Share(0, 0) else before
    case DidDestroy(j) => if j == i then Share(0, 0) else before
    case Did(RdLock, args, 0) => if e.t == t && args == [i] then before.(reading := before.reading + 1) else before
    case Did(WrLock, args, 0) => if e.t == t && args == [i] then before.(writing := before.writing + 1) else before
    case Did(RwUnlock, args, 0) =>
      if e.t != t || args != [i] then before
      else if before.writing > 0 then before.(writing := before.writing - 1)
      else before.(reading := before.reading - 1)
    case _ => before
  }

  function Shares(trace: seq<Entry>, t: Tid, i: Slot): Share {
    if trace == [] then Share(0, 0)
    else ShareAfter(Shares(trace[..|trace| - 1], t, i), trace[|trace| - 1], t, i)
  }

  predicate At(args: seq<Slot>, c: Slot) { args != [] && args[0] == c }

  /** How many wait on c: each wait that begins adds one, each that ends early takes one away, a signal
      takes one away if there is one, and a broadcast all. */
  function SleepersAfter(before: int, ev: Event, c: Slot): int {
    match ev
    case DidInit(j) => if j == c then 0 else before
    case DidDestroy(j) => if j == c then 0 else before
    case Did(Sleep, args, 0) => if At(args, c) then before + 1 else before
    case Did(Wake(true), args, _) => if At(args, c) then before - 1 else before
    case Did(Signal, args, _) => if At(args, c) && before > 0 then before - 1 else before
    case Did(Broadcast, args, _) => if At(args, c) then 0 else before
    case _ => before
  }

  function Sleepers(trace: seq<Entry>, c: Slot): int {
    if trace == [] then 0 else SleepersAfter(Sleepers(trace[..|trace| - 1], c), trace[|trace| - 1].ev, c)
  }

  /** t went to sleep on c, and since then nobody has signalled it. */
  predicate UnsignalledAfter(before: bool, e: Entry, t: Tid, c: Slot) {
    match e.ev
    case DidInit(j) => j != c && before
    case DidDestroy(j) => j != c && before
    case Did(Sleep, args, 0) => (e.t == t && At(args, c)) || before
    case Did(Wake(_), args, _) => !(e.t == t && At(args, c)) && before
    case Did(Signal, args, _) => !At(args, c) && before
    case Did(Broadcast, args, _) => !At(args, c) && before
    case _ => before
  }

  predicate Unsignalled(trace: seq<Entry>, t: Tid, c: Slot) {
    trace != [] && UnsignalledAfter(Unsignalled(trace[..|trace| - 1], t, c), trace[|trace| - 1], t, c)
  }

  /** Since t last went to sleep on c, if it ever did, there has been a broadcast. */
  predicate SummonedAfter(before: bool, e: Entry, t: Tid, c: Slot) {
    match e.ev
    case Did(Sleep, args, 0) => !(e.t == t && At(args, c)) && before
    case Did(Broadcast, args, _) => At(args, c) || before
    case _ => before
  }

  predicate Summoned(trace: seq<Entry>, t: Tid, c: Slot) {
    trace == [] || SummonedAfter(Summoned(trace[..|trace| - 1], t, c), trace[|trace| - 1], t, c)
  }

  ghost predicate OthersLetGo(trace: seq<Entry>, t: Tid, i: Slot) { forall u: Tid | u != t :: Holds(trace, u, i) == 0 }

  ghost predicate NobodyWrites(trace: seq<Entry>, i: Slot) { forall u: Tid :: Shares(trace, u, i).writing == 0 }

  ghost predicate NobodyReads(trace: seq<Entry>, i: Slot) { forall u: Tid :: Shares(trace, u, i).reading == 0 }

  /** What a call on slot i returns, or None if it blocks. 0 is success, 1 is EPERM, 16 EBUSY and
      35 EDEADLK. Nothing is said of unlocking a reader-writer lock that one does not have. */
  ghost function Answer(call: Verb, trace: seq<Entry>, t: Tid, i: Slot): Option<int> {
    match call
    case Lock => if OthersLetGo(trace, t, i) then Some(0) else None
    case TryLock => Some(if OthersLetGo(trace, t, i) then 0 else 16)
    case Unlock => Some(if Holds(trace, t, i) > 0 then 0 else 1)
    case RdLock =>
      if Shares(trace, t, i).writing > 0 then Some(35) else if NobodyWrites(trace, i) then Some(0) else None
    case WrLock =>
      if Shares(trace, t, i).writing > 0 then Some(35)
      else if NobodyWrites(trace, i) && NobodyReads(trace, i) then Some(0) else None
    case RwUnlock => if Shares(trace, t, i) != Share(0, 0) then Some(0) else None
    case _ => Some(0)
  }

  // ----- the tallies are the abstract store -----

  function ShareOf(o: Obj, u: Tid): Share
    requires o.Rw?
  {
    Share(if o.writer == Some(u) then 1 else 0, o.readers[u])
  }

  predicate RwTally(o: Obj, share: Share, u: Tid) {
    o.Rw? && (o.writer.Some? ==> o.readers == multiset{}) && share == ShareOf(o, u)
  }

  /** One abstract step changes an object only if it names its slot. */
  lemma NamedChange(a: map<Slot, Obj>, u: Tid, ev: Event, a': map<Slot, Obj>, i: Slot)
    requires ev.Did? && Effect(a, u, ev.verb, ev.args, a', ev.ret) && i in a
    ensures i in a' && |ev.args| == |Params(ev.verb)|
    ensures i !in ev.args ==> a'[i] == a[i]
    ensures i in ev.args ==>
              KindOf(a[i]) == Params(ev.verb)[0] || (|ev.args| == 2 && KindOf(a[i]) == Params(ev.verb)[1])
    ensures ev.args == [i] ==> Fits(ev.verb, [a[i]]) && Act(ev.verb, u, [a[i]], [a'[i]], ev.ret)
  {
    hide Act;
    var x, y := Lookup(a, ev.args), Lookup(a', ev.args);
    if i in ev.args {
      assert ev.args[0] == i || (|ev.args| == 2 && ev.args[1] == i);
      if ev.args == [i] {
        assert x == [a[i]] && y == [a'[i]];
      }
    }
  }

  lemma RwAct(o: Obj, o': Obj, e: Entry, share: Share, u: Tid, i: Slot)
    requires e.ev.Did? && e.ev.args == [i] && Fits(e.ev.verb, [o]) && Act(e.ev.verb, e.t, [o], [o'], e.ev.ret)
    requires RwTally(o, share, u)
    ensures RwTally(o', ShareAfter(share, e, u, i), u)
  {
  }

  lemma RwStep(kinds: seq<Kind>, a: map<Slot, Obj>, e: Entry, a': map<Slot, Obj>, share: Share, u: Tid, i: Slot)
    requires i < |kinds| && kinds[i] == RwKind && i in a && RwTally(a[i], share, u)
    requires AbsStep(kinds, a, e.t, e.ev, a')
    ensures i in a' && RwTally(a'[i], ShareAfter(share, e, u, i), u)
  {
    if e.ev.Did? {
      NamedChange(a, e.t, e.ev, a', i);
      hide Effect, Act, Fits;
      assert i in e.ev.args ==> e.ev.args == [i];
      if i in e.ev.args {
        hide RwTally;
        RwAct(a[i], a'[i], e, share, u, i);
      }
    }
  }

  lemma {:induction false} RunShares(states: seq<State>, trace: seq<Entry>, k: nat, u: Tid, i: Slot)
    requires IsRun(states, trace) && Initial(states[0]) && k < |states| && !states[k].mem.fault
    requires i < |states[0].kinds| && states[0].kinds[i] == RwKind
    ensures i in Alpha(states[k]) && RwTally(Alpha(states[k])[i], Shares(trace[..k], u, i), u)
  {
    if k == 0 {
      InitialAlpha(states[0]);
    } else {
      hide *;
      RunBefore(states, trace, k);
      RunShares(states, trace, k - 1, u, i);
      SharesNext(trace, k, u, i);
      RwStep(states[0].kinds, Alpha(states[k - 1]), trace[k - 1], Alpha(states[k]), Shares(trace[..k - 1], u, i), u, i);
    }
  }

  lemma RunBefore(states: seq<State>, trace: seq<Entry>, k: nat)
    requires IsRun(states, trace) && Initial(states[0]) && 0 < k < |states| && !states[k].mem.fault
    ensures |states| == |trace| + 1 && !states[k - 1].mem.fault && states[k - 1].kinds == states[0].kinds
    ensures Step(states[k - 1], trace[k - 1].t, states[k], trace[k - 1].ev)
    ensures AbsStep(states[0].kinds, Alpha(states[k - 1]), trace[k - 1].t, trace[k - 1].ev, Alpha(states[k]))
  {
    hide Initial, Alpha, AbsStep, Inv;
    RunInv(states, trace, k - 1);
    RunRefines(states, trace, k - 1);
  }

  lemma SharesNext(trace: seq<Entry>, k: nat, u: Tid, i: Slot)
    requires 0 < k <= |trace|
    ensures Shares(trace[..k], u, i) == ShareAfter(Shares(trace[..k - 1], u, i), trace[k - 1], u, i)
  {
    assert trace[..k][..k - 1] == trace[..k - 1];
  }

  /** In every interleaving: one who writes is alone, and nobody holds a negative share. */
  lemma WriterAlone(states: seq<State>, trace: seq<Entry>, k: nat, t: Tid, u: Tid, i: Slot)
    requires IsRun(states, trace) && Initial(states[0]) && k < |states| && !states[k].mem.fault
    requires i < |states[0].kinds| && states[0].kinds[i] == RwKind
    ensures Shares(trace[..k], t, i).reading >= 0 && 0 <= Shares(trace[..k], t, i).writing <= 1
    ensures Shares(trace[..k], t, i).writing > 0 ==>
              Shares(trace[..k], u, i).reading == 0 && (u != t ==> Shares(trace[..k], u, i).writing == 0)
  {
    RunShares(states, trace, k, t, i);
    RunShares(states, trace, k, u, i);
    hide Alpha, IsRun, Initial, Shares;
  }

  // ----- which calls return -----

  /** The object a call in progress has been given for a slot is the one the store has for it. */
  lemma InvokeObject(s: State, t: Tid, i: Slot)
    requires Inv(s) && t < |s.threads| && s.threads[t].Invoke? && i in s.threads[t].args
    ensures i < |s.kinds| && i in Alpha(s) && KindOf(Alpha(s)[i]) == s.kinds[i]
    ensures i in s.threads[t].got
    ensures s.threads[t].got[i] in s.mem.heap && s.mem.heap[s.threads[t].got[i]] == Alpha(s)[i]
  {
    hide LockInv, ExclusiveInv, PrivateInv, RawInv;
    assert PcOk(s, s.threads[t]);
    assert GotOk(s, i, s.threads[t].got[i]);
  }

  predicate SameVerb(call: Verb, verb: Verb) { verb == call || (call.Wake? && verb.Wake?) }

  /** Where the thread is after the call. */
  function AfterCall(pc: Pc, ret: int): Pc
    requires pc.Invoke?
  {
    if pc.call == Sleep && ret == 0 then pc.(call := Wake(false)) else Idle
  }

  lemma HeapCallSteps(s: State, t: Tid, verb: Verb, heap: map<Addr, Obj>, ret: int) returns (n: State)
    requires Inv(s) && !s.mem.fault && t < |s.threads| && s.threads[t].Invoke? && SameVerb(s.threads[t].call, verb)
    requires forall i | 0 <= i < |s.threads[t].args| :: s.threads[t].args[i] in s.threads[t].got
    requires Effect(s.mem.heap, t, verb, Addrs(s.threads[t].args, s.threads[t].got), heap, ret)
    ensures Step(s, t, n, Did(verb, s.threads[t].args, ret))
  {
    hide Effect, LockInv, ExclusiveInv, PrivateInv, RawInv, SlotInv, PcsInv;
    n := s.(mem := s.mem.(heap := heap), threads := s.threads[t := AfterCall(s.threads[t], ret)]);
  }

  /** A call on one object that has an outcome can be made. */
  lemma CallSteps(s: State, t: Tid, i: Slot, b: Obj, ret: int) returns (n: State)
    requires Inv(s) && !s.mem.fault && t < |s.threads| && s.threads[t].Invoke? && s.threads[t].args == [i]
    requires i in Alpha(s) && Fits(s.threads[t].call, [Alpha(s)[i]])
    requires Act(s.threads[t].call, t, [Alpha(s)[i]], [b], ret)
    ensures Step(s, t, n, Did(s.threads[t].call, [i], ret))
  {
    hide Inv, Alpha, Act, Fits;
    var pc := s.threads[t];
    assert i in pc.args;
    InvokeObject(s, t, i);
    var a := pc.got[i];
    var heap := s.mem.heap[a := b];
    assert Addrs(pc.args, pc.got) == [a] && Lookup(s.mem.heap, [a]) == [Alpha(s)[i]] && Lookup(heap, [a]) == [b];
    n := HeapCallSteps(s, t, pc.call, heap, ret);
  }

  lemma CallMeans(s: State, t: Tid, n: State, ev: Event, i: Slot)
    requires Inv(s) && Step(s, t, n, ev) && s.threads[t].Invoke? && s.threads[t].args == [i]
    ensures ev.Did? && ev.verb == s.threads[t].call && ev.args == [i]
    ensures i in Alpha(s) && i in Alpha(n) && Fits(ev.verb, [Alpha(s)[i]])
    ensures Act(ev.verb, t, [Alpha(s)[i]], [Alpha(n)[i]], ev.ret)
  {
    hide Inv, Alpha, Act, MayBegin, Effect, Fits;
    InvokeObject(s, t, i) by { assert i in s.threads[t].args; }
    StepRefines(s, t, n, ev);
    assert |Params(s.threads[t].call)| == 1;
    NamedChange(Alpha(s), t, ev, Alpha(n), i);
  }

  /** The thread has a step in which its call shows as verb and returns ret. */
  ghost predicate Returns(s: State, t: Tid, verb: Verb, args: seq<Slot>, ret: int) {
    exists n :: Step(s, t, n, Did(verb, args, ret))
  }

  lemma MutexTallies(states: seq<State>, trace: seq<Entry>, k: nat, t: Tid, i: Slot)
    requires IsRun(states, trace) && Initial(states[0]) && k < |states| && !states[k].mem.fault
    requires i < |states[0].kinds| && states[0].kinds[i] == MutexKind
    ensures i in Alpha(states[k]) && Alpha(states[k])[i].Mutex?
    ensures var o := Alpha(states[k])[i].owner;
            && (o == None || o == Some(t) <==> OthersLetGo(trace[..k], t, i))
            && (o == Some(t) <==> Holds(trace[..k], t, i) > 0)
            && (o == Some(t) ==> Alpha(states[k])[i].depth > 0)
  {
    hide Step, Initial, Alpha, Holds;
    RunTallies(states, trace, k, t, i);
    var m := Alpha(states[k])[i];
    forall u: Tid
      ensures Holds(trace[..k], u, i) == if m.owner == Some(u) then m.depth else 0
    {
      RunTallies(states, trace, k, u, i);
    }
    assert m.owner.Some? ==> Holds(trace[..k], m.owner.value, i) > 0;
  }

  lemma MutexActs(o: Obj, call: Verb, t: Tid, ret: int)
    requires o.Mutex? && call in {Lock, TryLock, Unlock} && Fits(call, [o]) && (o.owner == Some(t) ==> o.depth > 0)
    ensures (exists b :: Act(call, t, [o], [b], ret)) <==>
            match call
            case Lock => (o.owner == None || o.owner == Some(t)) && ret == 0
            case TryLock => ret == if o.owner == None || o.owner == Some(t) then 0 else 16
            case _ => ret == if o.owner == Some(t) then 0 else 1
  {
    var taken := Mutex(Some(t), o.depth + 1);
    var given := if o.depth <= 1 then Mutex(None, 0) else Mutex(Some(t), o.depth - 1);
    assert Locked(o, t, taken) <==> o.owner == None || o.owner == Some(t);
    assert o.owner == Some(t) ==> Unlocked(o, t, given);
    assert Act(Lock, t, [o], [taken], 0) <==> o.owner == None || o.owner == Some(t);
    assert Act(TryLock, t, [o], [if o.owner == None || o.owner == Some(t) then taken else o],
        if o.owner == None || o.owner == Some(t) then 0 else 16);
    assert Act(Unlock, t, [o], [if o.owner == Some(t) then given else o], if o.owner == Some(t) then 0 else 1);
  }

  lemma RwActs(o: Obj, call: Verb, t: Tid, ret: int)
    requires o.Rw? && call in {RdLock, WrLock, RwUnlock} && Fits(call, [o])
    ensures (exists b :: Act(call, t, [o], [b], ret)) <==>
            match call
            case RdLock => if o.writer == Some(t) then ret == 35 else o.writer == None && ret == 0
            case WrLock =>
              if o.writer == Some(t) then ret == 35 else o.writer == None && o.readers == multiset{} && ret == 0
            case _ => (o.writer == Some(t) || o.readers[t] > 0) && ret == 0
  {
    var more, less := Rw(None, o.readers + multiset{t}), Rw(o.writer, o.readers - multiset{t});
    assert o.writer == None ==> Act(RdLock, t, [o], [more], 0);
    assert o.writer == None && o.readers == multiset{} ==> Act(WrLock, t, [o], [Rw(Some(t), multiset{})], 0);
    assert o.writer == Some(t) ==>
        Act(RdLock, t, [o], [o], 35) && Act(WrLock, t, [o], [o], 35) && Act(RwUnlock, t, [o], [Rw(None, o.readers)], 0);
    assert o.writer != Some(t) && o.readers[t] > 0 ==> Act(RwUnlock, t, [o], [less], 0);
  }

  lemma CondActs(o: Obj, call: Verb, t: Tid, ret: int)
    requires o.Cond? && call in {Signal, Broadcast} && Fits(call, [o])
    ensures (exists b :: Act(call, t, [o], [b], ret)) <==> ret == 0
  {
    assert Act(Broadcast, t, [o], [Cond({})], 0);
    if o.waiters == {} {
      assert Act(Signal, t, [o], [o], 0);
    } else {
      var u :| u in o.waiters;
      assert Act(Signal, t, [o], [Cond(o.waiters - {u})], 0);
    }
  }

  lemma ReturnsIff(s: State, t: Tid, i: Slot, ret: int)
    requires Inv(s) && !s.mem.fault && t < |s.threads| && s.threads[t].Invoke? && s.threads[t].args == [i]
    ensures i in Alpha(s) && i < |s.kinds| && KindOf(Alpha(s)[i]) == s.kinds[i]
    ensures Fits(s.threads[t].call, [Alpha(s)[i]])
    ensures Returns(s, t, s.threads[t].call, [i], ret) <==>
            exists b :: Act(s.threads[t].call, t, [Alpha(s)[i]], [b], ret)
  {
    var call := s.threads[t].call;
    assert ShapedPc(s.kinds, s.threads[t]);
    hide Inv, Alpha, Act, Step;
    assert i in s.threads[t].args;
    InvokeObject(s, t, i);
    if n :| Step(s, t, n, Did(call, [i], ret)) {
      CallMeans(s, t, n, Did(call, [i], ret), i);
    }
    if b :| Act(call, t, [Alpha(s)[i]], [b], ret) {
      var n := CallSteps(s, t, i, b, ret);
    }
  }

  lemma RwShares(states: seq<State>, trace: seq<Entry>, k: nat, t: Tid, i: Slot)
    requires IsRun(states, trace) && Initial(states[0]) && k < |states| && !states[k].mem.fault
    requires i < |states[0].kinds| && states[0].kinds[i] == RwKind
    ensures i in Alpha(states[k]) && Alpha(states[k])[i].Rw?
    ensures var o, share := Alpha(states[k])[i], Shares(trace[..k], t, i);
            && (o.writer == Some(t) <==> share.writing > 0) && share.reading == o.readers[t]
            && (o.writer == None <==> NobodyWrites(trace[..k], i))
            && (o.readers == multiset{} <==> NobodyReads(trace[..k], i))
            && (share == Share(0, 0) <==> o.writer != Some(t) && o.readers[t] == 0)
  {
    hide Step, Initial, Alpha, Shares;
    RunShares(states, trace, k, t, i);
    var o := Alpha(states[k])[i];
    forall u: Tid
      ensures Shares(trace[..k], u, i) == ShareOf(o, u)
    {
      RunShares(states, trace, k, u, i);
    }
    assert o.writer.Some? ==> Shares(trace[..k], o.writer.value, i).writing > 0;
    if NobodyReads(trace[..k], i) {
      assert forall u: Tid :: o.readers[u] == Shares(trace[..k], u, i).reading;
    }
  }

  lemma VerbsOf(call: Verb, o: Obj)
    requires Fits(call, [o])
    ensures o.Mutex? ==> call in {Lock, TryLock, Unlock}
    ensures o.Rw? ==> call in {RdLock, WrLock, RwUnlock}
    ensures o.Cond? ==> call in {Signal, Broadcast}
  {
  }

  lemma MutexAnswers(states: seq<State>, trace: seq<Entry>, k: nat, t: Tid, i: Slot, call: Verb, ret: int)
    requires IsRun(states, trace) && Initial(states[0]) && k < |states| && !states[k].mem.fault
    requires i < |states[0].kinds| && states[0].kinds[i] == MutexKind
    requires i in Alpha(states[k]) && Fits(call, [Alpha(states[k])[i]])
    ensures (exists b :: Act(call, t, [Alpha(states[k])[i]], [b], ret)) <==> Answer(call, trace[..k], t, i) == Some(ret)
  {
    hide Initial, Step, Alpha, Act, Fits, Holds, Shares, OthersLetGo;
    MutexTallies(states, trace, k, t, i);
    VerbsOf(call, Alpha(states[k])[i]);
    MutexActs(Alpha(states[k])[i], call, t, ret);
  }

  lemma RwAnswers(states: seq<State>, trace: seq<Entry>, k: nat, t: Tid, i: Slot, call: Verb, ret: int)
    requires IsRun(states, trace) && Initial(states[0]) && k < |states| && !states[k].mem.fault
    requires i < |states[0].kinds| && states[0].kinds[i] == RwKind
    requires i in Alpha(states[k]) && Fits(call, [Alpha(states[k])[i]])
    ensures (exists b :: Act(call, t, [Alpha(states[k])[i]], [b], ret)) <==> Answer(call, trace[..k], t, i) == Some(ret)
  {
    hide Initial, Step, Alpha, Act, Fits, Holds, Shares, NobodyWrites, NobodyReads;
    RwShares(states, trace, k, t, i);
    VerbsOf(call, Alpha(states[k])[i]);
    RwActs(Alpha(states[k])[i], call, t, ret);
  }

  /** In every interleaving without a fault, a thread about to call the real function of its slot is
      told exactly what the calls before it call for, whoever made them: a mutex is had again by its
      owner however often it has it, refused or waited for when another has it, and so on. */
  lemma CallAnswers(states: seq<State>, trace: seq<Entry>, k: nat, t: Tid, i: Slot, ret: int)
    requires IsRun(states, trace) && Initial(states[0]) && k < |states| && !states[k].mem.fault
    requires t < |states[k].threads| && states[k].threads[t].Invoke? && states[k].threads[t].args == [i]
    ensures Returns(states[k], t, states[k].threads[t].call, [i], ret) <==>
            Answer(states[k].threads[t].call, trace[..k], t, i) == Some(ret)
  {
    var s := states[k];
    RunInv(states, trace, k);
    hide Inv, Initial, Step, Alpha, Act, Fits, Returns, OthersLetGo, NobodyWrites, NobodyReads, Holds, Shares;
    ReturnsIff(s, t, i, ret);
    var call := s.threads[t].call;
    match s.kinds[i]
    case MutexKind => MutexAnswers(states, trace, k, t, i, call, ret);
    case RwKind => RwAnswers(states, trace, k, t, i, call, ret);
    case CondKind => VerbsOf(call, Alpha(s)[i]); CondActs(Alpha(s)[i], call, t, ret);
  }

  /** And nothing else happens to such a thread. */
  lemma OnlyCalls(s: State, t: Tid, n: State, ev: Event)
    requires Step(s, t, n, ev) && s.threads[t].Invoke?
    ensures ev.Did? && SameVerb(s.threads[t].call, ev.verb) && ev.args == s.threads[t].args
  {
    hide Effect, MayBegin;
  }

  // ----- condition variables -----

  /** How a step changes the waiters of condition variable c. */
  ghost predicate WaitersMove(w: set<Tid>, e: Entry, w': set<Tid>, c: Slot) {
    match e.ev
    case DidInit(j) => w' == if j == c then {} else w
    case DidDestroy(j) => w' == if j == c then {} else w
    case Did(verb, args, ret) =>
      if !At(args, c) then w' == w
      else
        (match verb
         case Sleep => w' == if ret == 0 then w + {e.t} else w
         case Wake(early) => (e.t in w <==> early) && w' == w - {e.t}
         case Signal => if w == {} then w' == w else exists u | u in w :: w' == w - {u}
         case Broadcast => w' == {}
         case _ => w' == w)
    case Silent => w' == w
  }

  lemma CondStep(kinds: seq<Kind>, a: map<Slot, Obj>, e: Entry, a': map<Slot, Obj>, c: Slot)
    requires c < |kinds| && kinds[c] == CondKind && c in a && a[c].Cond? && AbsStep(kinds, a, e.t, e.ev, a')
    ensures c in a' && a'[c].Cond? && WaitersMove(a[c].waiters, e, a'[c].waiters, c)
  {
    if e.ev.Did? {
      CondEffect(a, e, a', c);
      hide Effect;
    }
  }

  lemma CondEffect(a: map<Slot, Obj>, e: Entry, a': map<Slot, Obj>, c: Slot)
    requires e.ev.Did? && c in a && a[c].Cond? && Effect(a, e.t, e.ev.verb, e.ev.args, a', e.ev.ret)
    ensures c in a' && a'[c].Cond? && WaitersMove(a[c].waiters, e, a'[c].waiters, c)
  {
    NamedChange(a, e.t, e.ev, a', c);
    var args := e.ev.args;
    var x, y := Lookup(a, args), Lookup(a', args);
    assert c in args ==> At(args, c);
    assert At(args, c) ==> x[0] == a[c] && y[0] == a'[c];
    EffectKinds(a, e.t, e.ev.verb, args, a', e.ev.ret);
  }

  lemma CountMove(w: set<Tid>, e: Entry, w': set<Tid>, c: Slot)
    requires WaitersMove(w, e, w', c)
    requires e.ev.Did? && e.ev.verb == Sleep && At(e.ev.args, c) ==> e.t !in w
    ensures |w'| == SleepersAfter(|w|, e.ev, c)
  {
    if e.ev.Did? && e.ev.verb == Signal && At(e.ev.args, c) && w != {} {
      var u :| u in w && w' == w - {u};
      assert |w| > 0;
    }
  }

  lemma RestMove(w: set<Tid>, e: Entry, w': set<Tid>, t: Tid, c: Slot, unsignalled: bool, summoned: bool)
    requires WaitersMove(w, e, w', c) && (unsignalled ==> t in w) && (summoned ==> t !in w)
    ensures UnsignalledAfter(unsignalled, e, t, c) ==> t in w'
    ensures SummonedAfter(summoned, e, t, c) ==> t !in w'
  {
  }

  /** Who waits is inside its wait. */
  ghost predicate WaitersInside(s: State, c: Slot) {
    && c in Alpha(s) && Alpha(s)[c].Cond?
    && forall t: Tid | t in Alpha(s)[c].waiters ::
         t < |s.threads| && s.threads[t].Invoke? && s.threads[t].call.Wake? && At(s.threads[t].args, c)
  }

  lemma StepWaiters(s: State, t: Tid, n: State, ev: Event, c: Slot)
    requires Step(s, t, n, ev) && c < |s.kinds| && s.kinds[c] == CondKind && WaitersInside(s, c)
    requires AbsStep(s.kinds, Alpha(s), t, ev, Alpha(n))
    ensures WaitersInside(n, c) && WaitersMove(Alpha(s)[c].waiters, Entry(t, ev), Alpha(n)[c].waiters, c)
    ensures ev.Did? && ev.verb == Sleep && At(ev.args, c) ==> t !in Alpha(s)[c].waiters
  {
    hide Alpha, AbsStep, MayBegin, Effect, ResolveStep, LifeStep;
    CondStep(s.kinds, Alpha(s), Entry(t, ev), Alpha(n), c);
    StepEvent(s, t, n, ev);
    hide Step;
    assert t in Alpha(s)[c].waiters ==> ev.Did? && ev.verb.Wake? && ev.args == s.threads[t].args;
  }

  /** A call is shown by the thread that makes it, and a wait goes on behind it. */
  lemma StepEvent(s: State, t: Tid, n: State, ev: Event)
    requires Step(s, t, n, ev)
    ensures t < |s.threads| == |n.threads| && forall u | 0 <= u < |s.threads| && u != t :: n.threads[u] == s.threads[u]
    ensures s.threads[t].Invoke? ==>
              && ev.Did? && SameVerb(s.threads[t].call, ev.verb) && ev.args == s.threads[t].args
              && n.threads[t] == AfterCall(s.threads[t], ev.ret)
    ensures !s.threads[t].Invoke? ==> !ev.Did?
  {
    hide MayBegin, Effect;
    if !s.threads[t].Invoke? {
      OtherEvent(s, t, n, ev);
    }
  }

  /** The waiters of c are as many as the events say, and t is or is not among them as they say. */
  ghost predicate CondTally(s: State, trace: seq<Entry>, t: Tid, c: Slot) {
    && WaitersInside(s, c) && |Alpha(s)[c].waiters| == Sleepers(trace, c)
    && (Unsignalled(trace, t, c) ==> t in Alpha(s)[c].waiters)
    && (Summoned(trace, t, c) ==> t !in Alpha(s)[c].waiters)
  }

  lemma StepCondTally(s: State, n: State, trace: seq<Entry>, k: nat, t: Tid, c: Slot)
    requires k < |trace| && Step(s, trace[k].t, n, trace[k].ev) && c < |s.kinds| && s.kinds[c] == CondKind
    requires AbsStep(s.kinds, Alpha(s), trace[k].t, trace[k].ev, Alpha(n)) && CondTally(s, trace[..k], t, c)
    ensures CondTally(n, trace[..k + 1], t, c)
  {
    hide Alpha, AbsStep, Step;
    StepWaiters(s, trace[k].t, n, trace[k].ev, c);
    var w, w' := Alpha(s)[c].waiters, Alpha(n)[c].waiters;
    CountMove(w, trace[k], w', c);
    RestMove(w, trace[k], w', t, c, Unsignalled(trace[..k], t, c), Summoned(trace[..k], t, c));
    assert trace[..k + 1][..k] == trace[..k];
  }

  lemma InitialCondTally(s: State, t: Tid, c: Slot)
    requires Initial(s) && c < |s.kinds| && s.kinds[c] == CondKind
    ensures CondTally(s, [], t, c)
  {
    InitialAlpha(s);
    hide Initial, Alpha;
  }

  lemma {:induction false} RunCondTally(states: seq<State>, trace: seq<Entry>, k: nat, t: Tid, c: Slot)
    requires IsRun(states, trace) && Initial(states[0]) && k < |states| && !states[k].mem.fault
    requires c < |states[0].kinds| && states[0].kinds[c] == CondKind
    ensures CondTally(states[k], trace[..k], t, c)
  {
    hide *;
    if k == 0 {
      InitialCondTally(states[0], t, c);
      assert trace[..k] == [];
    } else {
      RunBefore(states, trace, k);
      RunCondTally(states, trace, k - 1, t, c);
      StepCondTally(states[k - 1], states[k], trace, k - 1, t, c);
    }
  }

  /** A call on two objects that has an outcome can be made. */
  lemma PairCallSteps(s: State, t: Tid, verb: Verb, c: Slot, m: Slot, x: Obj, y: Obj, ret: int)
    requires Inv(s) && !s.mem.fault && t < |s.threads| && s.threads[t].Invoke? && s.threads[t].args == [c, m]
    requires SameVerb(s.threads[t].call, verb) && c in Alpha(s) && m in Alpha(s)
    requires Alpha(s)[c].Cond? && Alpha(s)[m].Mutex? && Fits(verb, [Alpha(s)[c], Alpha(s)[m]])
    requires Act(verb, t, [Alpha(s)[c], Alpha(s)[m]], [x, y], ret)
    ensures Returns(s, t, verb, [c, m], ret)
  {
    hide Inv, Alpha, Act, Fits, Step;
    var pc := s.threads[t];
    assert c in pc.args && m in pc.args;
    InvokeObject(s, t, c);
    InvokeObject(s, t, m);
    var a, b := pc.got[c], pc.got[m];
    assert a != b;
    var heap := s.mem.heap[a := x][b := y];
    assert Addrs(pc.args, pc.got) == [a, b];
    assert Lookup(s.mem.heap, [a, b]) == [Alpha(s)[c], Alpha(s)[m]] && Lookup(heap, [a, b]) == [x, y];
    var n := HeapCallSteps(s, t, verb, heap, ret);
  }

  lemma PairCallMeans(s: State, t: Tid, n: State, verb: Verb, c: Slot, m: Slot, ret: int)
    requires Inv(s) && Step(s, t, n, Did(verb, [c, m], ret)) && s.threads[t].Invoke?
    ensures c in Alpha(s) && m in Alpha(s) && c in Alpha(n) && m in Alpha(n)
    ensures Fits(verb, [Alpha(s)[c], Alpha(s)[m]])
    ensures Act(verb, t, [Alpha(s)[c], Alpha(s)[m]], [Alpha(n)[c], Alpha(n)[m]], ret)
  {
    hide Inv, Alpha, Act, MayBegin, Fits;
    StepRefines(s, t, n, Did(verb, [c, m], ret));
    assert Effect(Alpha(s), t, verb, [c, m], Alpha(n), ret) by { hide Effect; }
    assert [c, m][0] == c && [c, m][1] == m;
    assert Lookup(Alpha(s), [c, m]) == [Alpha(s)[c], Alpha(s)[m]];
    assert Lookup(Alpha(n), [c, m]) == [Alpha(n)[c], Alpha(n)[m]];
  }

  /** A wait is refused exactly when its caller does not have the mutex. */
  lemma WaitAnswers(states: seq<State>, trace: seq<Entry>, k: nat, t: Tid, c: Slot, m: Slot, ret: int)
    requires IsRun(states, trace) && Initial(states[0]) && k < |states| && !states[k].mem.fault
    requires t < |states[k].threads| && states[k].threads[t].Invoke? && states[k].threads[t].call == Sleep
    requires states[k].threads[t].args == [c, m]
    ensures Returns(states[k], t, Sleep, [c, m], ret) <==> ret == if Holds(trace[..k], t, m) > 0 then 0 else 1
  {
    var s := states[k];
    var x, y := PairObjects(states, trace, k, t, c, m);
    MutexTallies(states, trace, k, t, m);
    hide Inv, Initial, Step, Alpha, Act, Holds;
    var given := if y.depth <= 1 then Mutex(None, 0) else Mutex(Some(t), y.depth - 1);
    SleepActs(x, y, t);
    if y.owner == Some(t) {
      PairCallSteps(s, t, Sleep, c, m, Cond(x.waiters + {t}), given, 0);
    } else {
      PairCallSteps(s, t, Sleep, c, m, x, y, 1);
    }
    if n :| Step(s, t, n, Did(Sleep, [c, m], ret)) {
      PairCallMeans(s, t, n, Sleep, c, m, ret);
      SleepMeans(x, y, Alpha(n)[c], Alpha(n)[m], t, ret);
    }
  }

  lemma PairObjects(states: seq<State>, trace: seq<Entry>, k: nat, t: Tid, c: Slot, m: Slot) returns (x: Obj, y: Obj)
    requires IsRun(states, trace) && Initial(states[0]) && k < |states| && !states[k].mem.fault
    requires t < |states[k].threads| && states[k].threads[t].Invoke? && states[k].threads[t].args == [c, m]
    ensures Inv(states[k]) && states[k].kinds == states[0].kinds
    ensures c < |states[0].kinds| && states[0].kinds[c] == CondKind
    ensures m < |states[0].kinds| && states[0].kinds[m] == MutexKind
    ensures c in Alpha(states[k]) && m in Alpha(states[k]) && Alpha(states[k])[c] == x && Alpha(states[k])[m] == y
    ensures x.Cond? && y.Mutex? && Fits(states[k].threads[t].call, [x, y])
  {
    var s := states[k];
    RunInv(states, trace, k);
    assert ShapedPc(s.kinds, s.threads[t]);
    hide Inv, Alpha, Step, Initial;
    assert c in s.threads[t].args && m in s.threads[t].args;
    assert [c, m][0] == c && [c, m][1] == m;
    InvokeObject(s, t, c);
    InvokeObject(s, t, m);
    x, y := Alpha(s)[c], Alpha(s)[m];
  }

  lemma SleepActs(x: Obj, y: Obj, t: Tid)
    requires x.Cond? && y.Mutex? && (y.owner == Some(t) ==> y.depth > 0)
    ensures Fits(Sleep, [x, y])
    ensures y.owner == Some(t) ==>
              Act(Sleep, t, [x, y],
                  [Cond(x.waiters + {t}), if y.depth <= 1 then Mutex(None, 0) else Mutex(Some(t), y.depth - 1)], 0)
    ensures y.owner != Some(t) ==> Act(Sleep, t, [x, y], [x, y], 1)
  {
  }

  lemma SleepMeans(x: Obj, y: Obj, x': Obj, y': Obj, t: Tid, ret: int)
    requires x.Cond? && y.Mutex? && Fits(Sleep, [x, y]) && Act(Sleep, t, [x, y], [x', y'], ret)
    ensures ret == if y.owner == Some(t) then 0 else 1
  {
  }

  lemma WakeActs(x: Obj, y: Obj, t: Tid)
    requires x.Cond? && y.Mutex? && (y.owner == None || y.owner == Some(t))
    ensures Fits(Wake(false), [x, y]) && Fits(Wake(true), [x, y])
    ensures t !in x.waiters ==>
              Act(Wake(false), t, [x, y], [Cond(x.waiters - {t}), Mutex(Some(t), y.depth + 1)], 0)
    ensures t in x.waiters ==>
              && Act(Wake(true), t, [x, y], [Cond(x.waiters - {t}), Mutex(Some(t), y.depth + 1)], 0)
              && Act(Wake(true), t, [x, y], [Cond(x.waiters - {t}), Mutex(Some(t), y.depth + 1)], 110)
  {
  }

  lemma WakeMeans(x: Obj, y: Obj, x': Obj, y': Obj, t: Tid, early: bool, ret: int)
    requires x.Cond? && y.Mutex? && Fits(Wake(early), [x, y]) && Act(Wake(early), t, [x, y], [x', y'], ret)
    ensures (t in x.waiters <==> early) && (y.owner == None || y.owner == Some(t))
  {
  }

  /** A wait ends only when nobody else has the mutex. Then it can end because of a signal if there was a
      broadcast or enough signals for all, and only early, for no reason or timed out (110), if there
      was no signal at all. */
  lemma WakeAnswers(states: seq<State>, trace: seq<Entry>, k: nat, t: Tid, c: Slot, m: Slot)
    requires IsRun(states, trace) && Initial(states[0]) && k < |states| && !states[k].mem.fault
    requires t < |states[k].threads| && states[k].threads[t].Invoke? && states[k].threads[t].call.Wake?
    requires states[k].threads[t].args == [c, m]
    ensures forall early, ret | Returns(states[k], t, Wake(early), [c, m], ret) ::
              OthersLetGo(trace[..k], t, m) && (Unsignalled(trace[..k], t, c) ==> early)
    ensures OthersLetGo(trace[..k], t, m) && (Summoned(trace[..k], t, c) || Sleepers(trace[..k], c) == 0) ==>
              Returns(states[k], t, Wake(false), [c, m], 0)
    ensures OthersLetGo(trace[..k], t, m) && Unsignalled(trace[..k], t, c) ==>
              Returns(states[k], t, Wake(true), [c, m], 0) && Returns(states[k], t, Wake(true), [c, m], 110)
  {
    var s := states[k];
    var x, y := PairObjects(states, trace, k, t, c, m);
    MutexTallies(states, trace, k, t, m);
    RunCondTally(states, trace, k, t, c);
    hide Inv, Initial, Step, Alpha, Act, Holds, OthersLetGo, Unsignalled, Summoned, Sleepers, Returns;
    if y.owner == None || y.owner == Some(t) {
      WakeActs(x, y, t);
      var taken := Mutex(Some(t), y.depth + 1);
      if t in x.waiters {
        PairCallSteps(s, t, Wake(true), c, m, Cond(x.waiters - {t}), taken, 0);
        PairCallSteps(s, t, Wake(true), c, m, Cond(x.waiters - {t}), taken, 110);
      } else {
        PairCallSteps(s, t, Wake(false), c, m, Cond(x.waiters - {t}), taken, 0);
      }
    }
    forall early, ret | Returns(s, t, Wake(early), [c, m], ret)
      ensures (t in x.waiters <==> early) && (y.owner == None || y.owner == Some(t))
    {
      var n := ReturnsStep(s, t, Wake(early), [c, m], ret);
      PairCallMeans(s, t, n, Wake(early), c, m, ret);
      WakeMeans(x, y, Alpha(n)[c], Alpha(n)[m], t, early, ret);
    }
  }

  lemma ReturnsStep(s: State, t: Tid, verb: Verb, args: seq<Slot>, ret: int) returns (n: State)
    requires Returns(s, t, verb, args, ret)
    ensures Step(s, t, n, Did(verb, args, ret))
  {
    hide Step;
    n :| Step(s, t, n, Did(verb, args, ret));
  }

  // ----- getting to the real call -----

  /** How many steps of its own a thread has before it, until it makes its call or is done. */
  function StepsLeft(pc: Pc): nat {
    match pc
    case Idle | Invoke(_, _, _) => 0
    case Resolve(_, _, todo, _, line) =>
      7 * (if todo == [] then 0 else |todo| - 1)
      + (match line
         case L66 => 7
         case L68 => 6
         case L69 => 5
         case L70 => 4
         case L70Store(_) => 3
         case L71 => 2
         case L67 | L72 => 1)
    case InitNew(_) => 4
    case InitLock(_, _) => 3
    case InitStore(_, _) => 2
    case InitUnlock(_) => 1
    case CondLock(_) => 10
    case CondStore(_) => 9
    case CondUnlock(_) => 8
    case DestroyLock(_) => 5
    case DestroyTest(_) => 4
    case DestroyFree(_) => 3
    case DestroyClear(_) => 2
    case DestroyUnlock(_) => 1
  }

  /** The next memory step of a thread that is neither in a critical section nor at a call. */
  lemma OutsideStep(kinds: seq<Kind>, t: Tid, m: Mem, pc: Pc) returns (m': Mem, pc': Pc, ev: Event)
    requires ShapedPc(kinds, pc) && ShapedMem(kinds, m) && !InSection(pc) && !pc.Idle? && !pc.Invoke?
    ensures Local(kinds, t, m, pc, m', pc', ev)
  {
    hide Effect, Act, Resolved;
    m', pc', ev := m, pc, Silent;
    match pc {
      case Resolve(verb, args, todo, got, line) =>
        if line == L66 {
          pc' := pc.(line := if IsHeap(m.words[todo[0]]) then L67 else L68);
        } else if line == L68 {
          pc' := pc.(line := L69);
        } else {
          pc' := Resolved(pc, m.words[todo[0]]);
        }
      case InitNew(i) =>
        var r := FreshAddress(m.heap.Keys);
        pc', m' := InitLock(i, r), m.(heap := m.heap[r := NewObj(MutexKind)]);
      case InitLock(i, r) => pc' := InitStore(i, r);
      case CondLock(i) => pc' := CondStore(i);
      case DestroyLock(i) => pc' := DestroyTest(i);
      case _ =>
    }
  }

  /** A thread in the bridge has a step, unless it waits for g_lock while another holds it. */
  lemma NotBlocked(s: State, t: Tid) returns (n: State, ev: Event)
    requires Inv(s) && !s.mem.fault && t < |s.threads| && !s.threads[t].Idle? && !s.threads[t].Invoke?
    requires TakesLock(s.threads[t]) ==> s.owner == None
    ensures Step(s, t, n, ev)
  {
    if InSection(s.threads[t]) {
      n, ev := HolderNotBlocked(s, t);
    } else {
      var m, pc, e := OutsideStep(s.kinds, t, s.mem, s.threads[t]);
      hide Local, SlotInv, ExclusiveInv, PrivateInv, PcsInv, RawInv, ShapedPc, ShapedMem;
      ev := e;
      var takes := TakesLock(s.threads[t]);
      n := State(s.kinds, m, if takes then Some(t) else s.owner, if takes then 1 else s.depth, s.threads[t := pc]);
    }
  }

  /** Every step takes it nearer: from the start of a call the real one is at most 14 steps away. */
  lemma StepsCount(s: State, t: Tid, n: State, ev: Event)
    requires Step(s, t, n, ev) && !s.threads[t].Idle? && !s.threads[t].Invoke?
    ensures StepsLeft(n.threads[t]) < StepsLeft(s.threads[t]) <= 14
  {
    hide Effect, Act, MayBegin;
    var pc := s.threads[t];
    if pc.Resolve? {
      TodoShort(s.kinds, pc);
      hide ShapedPc;
    }
  }

  lemma TodoShort(kinds: seq<Kind>, pc: Pc)
    requires pc.Resolve? && ShapedPc(kinds, pc)
    ensures 1 <= |pc.todo| <= 2
  {
    var a, b := pc.args[0], pc.args[|pc.args| - 1];
    forall i | 0 <= i < |pc.todo|
      ensures pc.todo[i] == a || pc.todo[i] == b
    {
      assert pc.todo[i] in pc.args;
    }
    var x, y, z := pc.todo[0], pc.todo[Min(1, |pc.todo| - 1)], pc.todo[Min(2, |pc.todo| - 1)];
  }

  /** A thread outside the bridge can begin any call on slots that nobody is initialising or
      destroying. */
  lemma BeginsCall(s: State, t: Tid, v: Verb, args: seq<Slot>) returns (n: State)
    requires Inv(s) && !s.mem.fault && t < |s.threads| && s.threads[t] == Idle
    requires Names(s.kinds, v, args) && !v.Wake?
    requires forall a | a in args ::
               a !in s.mem.raw && forall u | 0 <= u < |s.threads| :: Exclusive(s.threads[u]) != Some(a)
    ensures Step(s, t, n, Silent) && n.threads[t] == Resolve(Some(v), args, args, map[], L66)
  {
    n := s.(threads := s.threads[t := Resolve(Some(v), args, args, map[], L66)]);
    hide LockInv, SlotInv, ExclusiveInv, PrivateInv, PcsInv, RawInv, ShapedPc, ShapedMem;
  }
}
