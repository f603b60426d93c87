/**
 A reference count that saturates, shared by any number of threads: a loop around a weak
 compare-and-exchange, which may fail for no reason, or plain accesses under a lock. Either way it
 behaves as one atomic counter.
 */
module RefCount {
  import opened Wrappers
  import opened Bytes

  const MAX: u32 := 0xffff_ffff

  // ---------------------------------------------------------------------------------------
  // The atomic counter.

  datatype Op = Inc | Dec

  function After(count: u32, op: Op): u32
  {
    if count == MAX then MAX else if op == Inc then count + 1 else if count == 0 then 0 else count - 1
  }

  /** A decrement that leaves nothing. */
  predicate LeavesZero(count: u32, op: Op)
  {
    op == Dec && count == 1
  }

  /** An operation as it took effect: whose it was, and the count it found. */
  datatype Entry = Entry(thread: nat, op: Op, before: u32)

  function CountAfter(initial: u32, log: seq<Entry>): u32
  {
    if log == [] then initial else After(CountAfter(initial, log[..|log| - 1]), log[|log| - 1].op)
  }

  /** One operation took effect after the other, each on the count that the one before left. */
  predicate Atomic(initial: u32, log: seq<Entry>)
  {
    log == [] ||
    (Atomic(initial, log[..|log| - 1]) && log[|log| - 1].before == CountAfter(initial, log[..|log| - 1]))
  }

  lemma AtomicNext(initial: u32, log: seq<Entry>, e: Entry)
    requires Atomic(initial, log) && e.before == CountAfter(initial, log)
    ensures Atomic(initial, log + [e]) && CountAfter(initial, log + [e]) == After(e.before, e.op)
  {
    assert (log + [e])[..|log|] == log;
  }

  function EntriesOf(log: seq<Entry>, t: nat): nat
  {
    if log == [] then 0 else EntriesOf(log[..|log| - 1], t) + if log[|log| - 1].thread == t then 1 else 0
  }

  function LatestOf(log: seq<Entry>, t: nat): Option<Entry>
  {
    if log == [] then None
    else if log[|log| - 1].thread == t then Some(log[|log| - 1]) else LatestOf(log[..|log| - 1], t)
  }

  lemma EntryAdded(log: seq<Entry>, e: Entry, t: nat)
    ensures EntriesOf(log + [e], t) == EntriesOf(log, t) + if e.thread == t then 1 else 0
    ensures LatestOf(log + [e], t) == if e.thread == t then Some(e) else LatestOf(log, t)
  {
    assert (log + [e])[..|log|] == log;
  }

  // ---------------------------------------------------------------------------------------
  // Compare and exchange.

  datatype Thread = Idle | Start(op: Op) | Have(op: Op, expected: u32) | Finished(op: Op, zero: bool) | Aborted

  /** `calls` counts each thread's calls; `log` is the order in which operations take effect. */
  datatype State = State(count: u32, threads: seq<Thread>, calls: seq<nat>, log: seq<Entry>)

  datatype Action = Call(op: Op) | Load | Branch | Exchange(spurious: bool) | Return

  /** Values on which the loop ends without an exchange. */
  predicate Ends(op: Op, expected: u32)
  {
    expected == MAX || (op == Dec && expected == 0)
  }

  /** Thread `t` sees the count. If that ends its loop, the operation takes effect here, on the count as it is. */
  function Sees(s: State, t: nat, op: Op): State
    requires t < |s.threads|
  {
    s.(threads := s.threads[t := Have(op, s.count)],
       log := if Ends(op, s.count) then s.log + [Entry(t, op, s.count)] else s.log)
  }

  function Step(s: State, t: nat, a: Action): State
    requires t < |s.threads| == |s.calls|
  {
    match (s.threads[t], a)
    case (Idle, Call(op)) => s.(threads := s.threads[t := Start(op)], calls := s.calls[t := s.calls[t] + 1])
    case (Start(op), Load) => Sees(s, t, op)
    case (Have(op, e), Branch) =>
      if !Ends(op, e) then s
      else if e == MAX then s.(threads := s.threads[t := Finished(op, false)])
      else s.(threads := s.threads[t := Aborted])
    case (Have(op, e), Exchange(spurious)) =>
      if Ends(op, e) then s
      else if s.count == e && !spurious then
        var newValue := if op == Inc then e + 1 else e - 1;
        s.(count := newValue, threads := s.threads[t := Finished(op, op == Dec && newValue == 0)],
           log := s.log + [Entry(t, op, e)])
      else Sees(s, t, op)
    case (Finished(_, _), Return) => s.(threads := s.threads[t := Idle])
    case _ => s
  }

  /** Each call takes effect exactly once before it returns, and returns what the atomic operation would. */
  ghost predicate Linked(thread: Thread, calls: nat, entries: nat, latest: Option<Entry>)
  {
    match thread
    case Idle => entries == calls
    case Start(op) => entries + 1 == calls
    case Have(op, e) =>
      if Ends(op, e) then entries == calls && latest.Some? && latest.value.op == op && latest.value.before == e
      else entries + 1 == calls
    case Finished(op, zero) =>
      entries == calls && latest.Some? && latest.value.op == op && zero == LeavesZero(latest.value.before, op)
    case Aborted => entries == calls && latest.Some? && latest.value.op == Dec && latest.value.before == 0
  }

  ghost predicate Refines(initial: u32, s: State)
  {
    && |s.threads| == |s.calls| && Atomic(initial, s.log) && s.count == CountAfter(initial, s.log)
    && forall t: nat :: t < |s.threads| ==> Linked(s.threads[t], s.calls[t], EntriesOf(s.log, t), LatestOf(s.log, t))
  }

  /** The operation a thread is at, if it is at one. */
  function OpIn(thread: Thread): Op
  {
    if thread.Idle? then Inc else if thread.Aborted? then Dec else thread.op
  }

  /** A step takes effect or it does not; if it does, on the count as it is. */
  lemma StepShape(s: State, t: nat, a: Action)
    requires |s.threads| == |s.calls| && t < |s.threads|
    ensures var s', e := Step(s, t, a), Entry(t, OpIn(s.threads[t]), s.count);
      || (s'.log == s.log && s'.count == s.count)
      || (s'.log == s.log + [e] && s'.count == After(s.count, e.op))
  {
  }

  /** A step of thread `t` adds at most one entry, of its own and on the count as it is. */
  lemma StepAdds(initial: u32, s: State, t: nat, a: Action)
    requires |s.threads| == |s.calls| && t < |s.threads| && Atomic(initial, s.log)
      && s.count == CountAfter(initial, s.log)
    ensures var s' := Step(s, t, a);
      && Atomic(initial, s'.log) && s'.count == CountAfter(initial, s'.log)
  {
    StepShape(s, t, a);
    AtomicNext(initial, s.log, Entry(t, OpIn(s.threads[t]), s.count));
  }

  /** The thread's own calls and entries, `n` before the step and `m` after it, stay linked. */
  lemma LinkKept(s: State, t: nat, a: Action, n: nat, was: Option<Entry>, m: nat, now: Option<Entry>)
    requires |s.threads| == |s.calls| && t < |s.threads| && Linked(s.threads[t], s.calls[t], n, was)
    requires if Step(s, t, a).log == s.log then m == n && now == was
             else m == n + 1 && now == Some(Entry(t, OpIn(s.threads[t]), s.count))
    ensures var s' := Step(s, t, a); Linked(s'.threads[t], s'.calls[t], m, now)
  {
  }

  lemma StepLinks(s: State, t: nat, a: Action)
    requires |s.threads| == |s.calls| && t < |s.threads|
    requires Linked(s.threads[t], s.calls[t], EntriesOf(s.log, t), LatestOf(s.log, t))
    ensures var s' := Step(s, t, a);
      Linked(s'.threads[t], s'.calls[t], EntriesOf(s'.log, t), LatestOf(s'.log, t))
  {
    var log := Step(s, t, a).log;
    StepShape(s, t, a);
    EntryAdded(s.log, Entry(t, OpIn(s.threads[t]), s.count), t);
    LinkKept(s, t, a, EntriesOf(s.log, t), LatestOf(s.log, t), EntriesOf(log, t), LatestOf(log, t));
  }

  lemma StepSpares(s: State, t: nat, a: Action, u: nat)
    requires |s.threads| == |s.calls| && t < |s.threads| && u < |s.threads| && u != t
    ensures var s' := Step(s, t, a);
      && |s'.threads| == |s'.calls| == |s.threads| && s'.threads[u] == s.threads[u] && s'.calls[u] == s.calls[u]
  {
  }

  /** The others stay linked too. */
  lemma OtherLinks(s: State, t: nat, a: Action, u: nat)
    requires |s.threads| == |s.calls| && t < |s.threads| && u < |s.threads| && u != t
    requires Linked(s.threads[u], s.calls[u], EntriesOf(s.log, u), LatestOf(s.log, u))
    ensures var s' := Step(s, t, a);
      && |s'.threads| == |s'.calls| == |s.threads|
      && Linked(s'.threads[u], s'.calls[u], EntriesOf(s'.log, u), LatestOf(s'.log, u))
  {
    StepSpares(s, t, a, u);
    StepShape(s, t, a);
    EntryAdded(s.log, Entry(t, OpIn(s.threads[t]), s.count), u);
  }

  lemma StepRefines(initial: u32, s: State, t: nat, a: Action)
    requires Refines(initial, s) && t < |s.threads|
    ensures Refines(initial, Step(s, t, a))
  {
    var s' := Step(s, t, a);
    StepAdds(initial, s, t, a);
    forall u: nat | u < |s'.threads|
      ensures Linked(s'.threads[u], s'.calls[u], EntriesOf(s'.log, u), LatestOf(s'.log, u))
    {
      if u == t { StepLinks(s, t, a); } else { OtherLinks(s, t, a, u); }
    }
  }

  function Run(s: State, acts: seq<(nat, Action)>): State
    requires |s.threads| == |s.calls| && forall x :: x in acts ==> x.0 < |s.threads|
    ensures |Run(s, acts).threads| == |s.threads| == |Run(s, acts).calls|
  {
    if acts == [] then s else
    var front := acts[..|acts| - 1];
    Step(Run(s, front), acts[|acts| - 1].0, acts[|acts| - 1].1)
  }

  function Fresh(initial: u32, n: nat): State
  {
    State(initial, seq(n, i => Idle), seq(n, i => 0), [])
  }

  /** Whatever the interleaving, and whichever exchanges fail, it is one atomic counter. */
  lemma {:induction false} CasRefinesAtomic(initial: u32, n: nat, acts: seq<(nat, Action)>)
    requires forall x :: x in acts ==> x.0 < n
    ensures Refines(initial, Run(Fresh(initial, n), acts))
  {
    if acts != [] {
      CasRefinesAtomic(initial, n, acts[..|acts| - 1]);
      StepRefines(initial, Run(Fresh(initial, n), acts[..|acts| - 1]), acts[|acts| - 1].0, acts[|acts| - 1].1);
    }
  }

  /** A call that nobody disturbs takes effect: on the second look at the count it is through. */
  lemma UndisturbedFinishes(s: State, t: nat, op: Op)
    requires t < |s.threads| == |s.calls| && s.threads[t] == Start(op)
    ensures var after := Step(Step(Step(s, t, Load), t, Branch), t, Exchange(false));
      && after.log == s.log + [Entry(t, op, s.count)]
      && after.count == (if s.count == 0xffff_ffff || (s.count == 0 && op == Dec) then s.count
                         else if op == Inc then s.count + 1 else s.count - 1)
      && after.threads[t] == if op == Dec && s.count == 0 then Aborted else Finished(op, op == Dec && s.count == 1)
  {
    var s1 := Step(s, t, Load);
    var s2 := Step(s1, t, Branch);
    assert s1.threads[t] == Have(op, s.count);
    if !Ends(op, s.count) {
      assert s2 == s1;
    }
  }

  /** An exchange that does not fail for no reason fails only because the count has changed since it was seen. */
  lemma FailsOnlyIfChanged(s: State, t: nat, op: Op, expected: u32)
    requires t < |s.threads| == |s.calls| && s.threads[t] == Have(op, expected) && !Ends(op, expected)
    ensures Step(s, t, Exchange(false)).threads[t].Have? <==> s.count != expected
  {
  }

  // ---------------------------------------------------------------------------------------
  // Under a lock.

  datatype LThread = LIdle | LStart(op: Op) | Locked(op: Op) | Checked(op: Op) | Updated(op: Op)
                   | Tested(op: Op, zero: bool) | LFinished(op: Op, zero: bool) | LAborted

  datatype LState = LState(count: u32, holder: Option<nat>, threads: seq<LThread>, calls: seq<nat>, log: seq<Entry>)

  datatype LAction = LCall(op: Op) | Acquire | Check | Update | Test | Release | LReturn

  function LStep(s: LState, t: nat, a: LAction): LState
    requires t < |s.threads| == |s.calls|
  {
    match (s.threads[t], a)
    case (LIdle, LCall(op)) => s.(threads := s.threads[t := LStart(op)], calls := s.calls[t := s.calls[t] + 1])
    case (LStart(op), Acquire) =>
      if s.holder.Some? then s else s.(holder := Some(t), threads := s.threads[t := Locked(op)])
    case (Locked(op), Check) =>
      if op == Dec && s.count == 0 then s.(threads := s.threads[t := LAborted], log := s.log + [Entry(t, op, 0)])
      else s.(threads := s.threads[t := Checked(op)])
    case (Checked(op), Update) =>
      s.(count := if s.count < MAX then (if op == Inc then s.count + 1 else Below(s.count)) else s.count,
         threads := s.threads[t := Updated(op)], log := s.log + [Entry(t, op, s.count)])
    case (Updated(op), Test) => s.(threads := s.threads[t := Tested(op, op == Dec && s.count == 0)])
    case (Tested(op, zero), Release) => s.(holder := None, threads := s.threads[t := LFinished(op, zero)])
    case (LFinished(_, _), LReturn) => s.(threads := s.threads[t := LIdle])
    case _ => s
  }

  /** One less, in 32 bits. */
  function Below(count: u32): u32
  {
    if count == 0 then MAX else count - 1
  }

  /** Under the lock, too, a call that gets it takes effect. */
  lemma HolderFinishes(s: LState, t: nat, op: Op)
    requires t < |s.threads| == |s.calls| && s.threads[t] == LStart(op) && s.holder.None?
    ensures var checked := LStep(LStep(s, t, Acquire), t, Check);
      if op == Dec && s.count == 0 then checked.threads[t].LAborted?
      else
        var after := LStep(LStep(LStep(checked, t, Update), t, Test), t, Release);
        && after.holder.None? && after.threads[t] == LFinished(op, op == Dec && s.count == 1)
        && after.log == s.log + [Entry(t, op, s.count)]
        && after.count == if s.count == 0xffff_ffff then s.count else if op == Inc then s.count + 1 else s.count - 1
  {
  }

  predicate Inside(thread: LThread)
  {
    thread.Locked? || thread.Checked? || thread.Updated? || thread.Tested? || thread.LAborted?
  }

  ghost predicate LLinked(thread: LThread, count: u32, calls: nat, entries: nat, latest: Option<Entry>)
  {
    match thread
    case LIdle => entries == calls
    case LStart(op) => entries + 1 == calls
    case Locked(op) => entries + 1 == calls
    case Checked(op) => entries + 1 == calls && (op == Dec ==> count > 0)
    case Updated(op) =>
      entries == calls && latest.Some? && latest.value.op == op && count == After(latest.value.before, op)
      && (op == Dec ==> latest.value.before > 0)
    case Tested(op, zero) =>
      entries == calls && latest.Some? && latest.value.op == op && zero == LeavesZero(latest.value.before, op)
    case LFinished(op, zero) =>
      entries == calls && latest.Some? && latest.value.op == op && zero == LeavesZero(latest.value.before, op)
    case LAborted => entries == calls && latest.Some? && latest.value.op == Dec && latest.value.before == 0
  }

  ghost predicate LRefines(initial: u32, s: LState)
  {
    && |s.threads| == |s.calls| && Atomic(initial, s.log) && s.count == CountAfter(initial, s.log)
    && (forall t: nat :: t < |s.threads| ==> (Inside(s.threads[t]) <==> s.holder == Some(t)))
    && (forall t: nat :: t < |s.threads| ==>
          LLinked(s.threads[t], s.count, s.calls[t], EntriesOf(s.log, t), LatestOf(s.log, t)))
  }

  /** The operation a thread is at, if it is at one. */
  function LOpIn(thread: LThread): Op
  {
    if thread.LIdle? then Inc else if thread.LAborted? then Dec else thread.op
  }

  /** A step takes effect or it does not; if it does, on the count as it is. */
  lemma LStepShape(s: LState, t: nat, a: LAction)
    requires |s.threads| == |s.calls| && t < |s.threads|
    requires s.threads[t].Checked? && s.threads[t].op == Dec ==> s.count > 0
    ensures var s', e := LStep(s, t, a), Entry(t, LOpIn(s.threads[t]), s.count);
      || (s'.log == s.log && s'.count == s.count)
      || (s'.log == s.log + [e] && s'.count == After(s.count, e.op))
  {
  }

  lemma LStepAdds(initial: u32, s: LState, t: nat, a: LAction)
    requires |s.threads| == |s.calls| && t < |s.threads| && Atomic(initial, s.log)
      && s.count == CountAfter(initial, s.log)
    requires s.threads[t].Checked? && s.threads[t].op == Dec ==> s.count > 0
    ensures var s' := LStep(s, t, a);
      && Atomic(initial, s'.log) && s'.count == CountAfter(initial, s'.log)
  {
    LStepShape(s, t, a);
    AtomicNext(initial, s.log, Entry(t, LOpIn(s.threads[t]), s.count));
  }

  lemma LLinkKept(s: LState, t: nat, a: LAction, n: nat, was: Option<Entry>, m: nat, now: Option<Entry>)
    requires |s.threads| == |s.calls| && t < |s.threads| && LLinked(s.threads[t], s.count, s.calls[t], n, was)
    requires if LStep(s, t, a).log == s.log then m == n && now == was
             else m == n + 1 && now == Some(Entry(t, LOpIn(s.threads[t]), s.count))
    ensures var s' := LStep(s, t, a); LLinked(s'.threads[t], s'.count, s'.calls[t], m, now)
  {
  }

  lemma LStepLinks(s: LState, t: nat, a: LAction)
    requires |s.threads| == |s.calls| && t < |s.threads|
    requires LLinked(s.threads[t], s.count, s.calls[t], EntriesOf(s.log, t), LatestOf(s.log, t))
    ensures var s' := LStep(s, t, a);
      LLinked(s'.threads[t], s'.count, s'.calls[t], EntriesOf(s'.log, t), LatestOf(s'.log, t))
  {
    var log := LStep(s, t, a).log;
    LStepShape(s, t, a);
    EntryAdded(s.log, Entry(t, LOpIn(s.threads[t]), s.count), t);
    LLinkKept(s, t, a, EntriesOf(s.log, t), LatestOf(s.log, t), EntriesOf(log, t), LatestOf(log, t));
  }

  lemma LStepHolds(s: LState, t: nat, a: LAction)
    requires |s.threads| == |s.calls| && t < |s.threads| && (Inside(s.threads[t]) <==> s.holder == Some(t))
    ensures var s' := LStep(s, t, a); Inside(s'.threads[t]) <==> s'.holder == Some(t)
  {
  }

  /** The lock keeps the others as they are. */
  lemma LOthersKept(s: LState, t: nat, a: LAction, u: nat)
    requires |s.threads| == |s.calls| && t < |s.threads| && u < |s.threads| && u != t
    requires (Inside(s.threads[t]) <==> s.holder == Some(t)) && (Inside(s.threads[u]) <==> s.holder == Some(u))
    ensures var s' := LStep(s, t, a);
      && |s'.threads| == |s'.calls| == |s.threads| && s'.threads[u] == s.threads[u] && s'.calls[u] == s.calls[u]
      && (Inside(s'.threads[u]) <==> s'.holder == Some(u))
      && (Inside(s.threads[u]) ==> s'.count == s.count)
  {
  }

  lemma LOtherLinks(s: LState, t: nat, a: LAction, u: nat)
    requires |s.threads| == |s.calls| && t < |s.threads| && u < |s.threads| && u != t
    requires (Inside(s.threads[t]) <==> s.holder == Some(t)) && (Inside(s.threads[u]) <==> s.holder == Some(u))
    requires s.threads[t].Checked? && s.threads[t].op == Dec ==> s.count > 0
    requires LLinked(s.threads[u], s.count, s.calls[u], EntriesOf(s.log, u), LatestOf(s.log, u))
    ensures var s' := LStep(s, t, a);
      && |s'.threads| == |s'.calls| == |s.threads| && (Inside(s'.threads[u]) <==> s'.holder == Some(u))
      && LLinked(s'.threads[u], s'.count, s'.calls[u], EntriesOf(s'.log, u), LatestOf(s'.log, u))
  {
    LOthersKept(s, t, a, u);
    LStepShape(s, t, a);
    EntryAdded(s.log, Entry(t, LOpIn(s.threads[t]), s.count), u);
  }

  lemma LStepRefines(initial: u32, s: LState, t: nat, a: LAction)
    requires LRefines(initial, s) && t < |s.threads|
    ensures LRefines(initial, LStep(s, t, a))
  {
    var s' := LStep(s, t, a);
    assert LLinked(s.threads[t], s.count, s.calls[t], EntriesOf(s.log, t), LatestOf(s.log, t));
    LStepAdds(initial, s, t, a);
    forall u: nat | u < |s'.threads|
      ensures Inside(s'.threads[u]) <==> s'.holder == Some(u)
      ensures LLinked(s'.threads[u], s'.count, s'.calls[u], EntriesOf(s'.log, u), LatestOf(s'.log, u))
    {
      if u == t {
        LStepLinks(s, t, a);
        LStepHolds(s, t, a);
      } else {
        LOtherLinks(s, t, a, u);
      }
    }
  }

  function LRun(s: LState, acts: seq<(nat, LAction)>): LState
    requires |s.threads| == |s.calls| && forall x :: x in acts ==> x.0 < |s.threads|
    ensures |LRun(s, acts).threads| == |s.threads| == |LRun(s, acts).calls|
  {
    if acts == [] then s else
    var front := acts[..|acts| - 1];
    LStep(LRun(s, front), acts[|acts| - 1].0, acts[|acts| - 1].1)
  }

  function LFresh(initial: u32, n: nat): LState
  {
    LState(initial, None, seq(n, i => LIdle), seq(n, i => 0), [])
  }

  /** The locked version is the same atomic counter. */
  lemma {:induction false} LockRefinesAtomic(initial: u32, n: nat, acts: seq<(nat, LAction)>)
    requires forall x :: x in acts ==> x.0 < n
    ensures LRefines(initial, LRun(LFresh(initial, n), acts))
  {
    if acts != [] {
      LockRefinesAtomic(initial, n, acts[..|acts| - 1]);
      LStepRefines(initial, LRun(LFresh(initial, n), acts[..|acts| - 1]), acts[|acts| - 1].0, acts[|acts| - 1].1);
    }
  }

  // ---------------------------------------------------------------------------------------
  // What callers may rely on.

  /** References held, by the callers' own reckoning. */
  function References(initial: u32, log: seq<Entry>): int
  {
    if log == [] then initial
    else References(initial, log[..|log| - 1]) + if log[|log| - 1].op == Inc then 1 else -1
  }

  /** Only who holds a reference makes another or gives it up. */
  predicate Balanced(initial: u32, log: seq<Entry>)
  {
    log == [] || (Balanced(initial, log[..|log| - 1]) && References(initial, log[..|log| - 1]) > 0)
  }

  /** Once the count is saturated it never changes again. */
  lemma {:induction false} SaturationIsForever(initial: u32, log: seq<Entry>, i: nat)
    requires i <= |log| && CountAfter(initial, log[..i]) == MAX
    ensures CountAfter(initial, log) == MAX
  {
    if i < |log| {
      assert log[..|log| - 1][..i] == log[..i];
      SaturationIsForever(initial, log[..|log| - 1], i);
    } else {
      assert log[..i] == log;
    }
  }

  /** Until it is saturated, the count is the number of references. */
  lemma {:induction false} CountIsReferences(initial: u32, log: seq<Entry>)
    requires Balanced(initial, log) && CountAfter(initial, log) != MAX
    ensures CountAfter(initial, log) == References(initial, log)
  {
    if log != [] {
      CountIsReferences(initial, log[..|log| - 1]);
    }
  }

  /** Nobody who holds a reference ever finds the count at zero, so that nothing aborts. */
  lemma {:induction false} NeverFoundZero(initial: u32, log: seq<Entry>, i: nat)
    requires Atomic(initial, log) && Balanced(initial, log) && i < |log|
    ensures log[i].before > 0
  {
    var front := log[..|log| - 1];
    if i < |log| - 1 {
      NeverFoundZero(initial, front, i);
    } else if CountAfter(initial, front) != MAX {
      CountIsReferences(initial, front);
    }
  }

  /** A decrement returns one exactly if it gave up the last reference of a count that never saturated. */
  lemma ZeroIsLastReference(initial: u32, log: seq<Entry>, e: Entry)
    requires Atomic(initial, log + [e]) && Balanced(initial, log + [e])
    ensures LeavesZero(e.before, e.op) <==>
            References(initial, log + [e]) == 0 && CountAfter(initial, log) != MAX
  {
    assert (log + [e])[..|log|] == log;
    if CountAfter(initial, log) != MAX {
      CountIsReferences(initial, log);
    }
  }

  /** So at most one decrement ever does, and nothing comes after it. */
  lemma {:induction false} ZeroAtMostOnce(initial: u32, log: seq<Entry>, i: nat)
    requires Atomic(initial, log) && Balanced(initial, log) && i < |log| && LeavesZero(log[i].before, log[i].op)
    ensures i == |log| - 1 && References(initial, log) == 0
  {
    var front, last := log[..|log| - 1], log[|log| - 1];
    assert log == front + [last];
    if i < |log| - 1 {
      ZeroAtMostOnce(initial, front, i);
    } else {
      ZeroIsLastReference(initial, front, last);
    }
  }

  // ---------------------------------------------------------------------------------------
  // What the calls of a run return.

  lemma {:induction false} LatestIsEntry(log: seq<Entry>, t: nat) returns (i: nat)
    requires LatestOf(log, t).Some?
    ensures i < |log| && log[i] == LatestOf(log, t).value && log[i].thread == t
  {
    if log[|log| - 1].thread == t {
      i := |log| - 1;
    } else {
      i := LatestIsEntry(log[..|log| - 1], t);
    }
  }

  /** If a thread's latest operation left zero, it was the last of all, now and at any later time. */
  lemma ZeroEndsLog(initial: u32, early: seq<Entry>, log: seq<Entry>, t: nat)
    requires Atomic(initial, log) && Balanced(initial, log) && early <= log
    requires LatestOf(early, t).Some? && LeavesZero(LatestOf(early, t).value.before, LatestOf(early, t).value.op)
    ensures early == log && log != [] && log[|log| - 1].thread == t && References(initial, log) == 0
  {
    var i := LatestIsEntry(early, t);
    assert log[i] == early[i];
    ZeroAtMostOnce(initial, log, i);
  }

  /** Action `p` of the run is the return of a decrement that says one. */
  predicate CasReturnsOne(s: State, acts: seq<(nat, Action)>, p: nat)
    requires |s.threads| == |s.calls| && forall x :: x in acts ==> x.0 < |s.threads|
  {
    p < |acts| && acts[p].1 == Return && acts[p] in acts &&
    var thread := Run(s, acts[..p]).threads[acts[p].0];
    thread.Finished? && thread.zero
  }

  lemma {:induction false} CasLogGrows(s: State, acts: seq<(nat, Action)>, p: nat)
    requires |s.threads| == |s.calls| && (forall x :: x in acts ==> x.0 < |s.threads|) && p <= |acts|
    ensures Run(s, acts[..p]).log <= Run(s, acts).log
    decreases |acts|
  {
    if p < |acts| {
      var front := acts[..|acts| - 1];
      CasLogGrows(s, front, p);
      assert front[..p] == acts[..p];
    } else {
      assert acts[..p] == acts;
    }
  }

  /** A thread that is idle does nothing but make another call. */
  lemma {:induction false} CasIdleOrCalls(s: State, acts: seq<(nat, Action)>, p: nat, t: nat)
    requires |s.threads| == |s.calls| && (forall x :: x in acts ==> x.0 < |s.threads|)
    requires p <= |acts| && t < |s.threads| && Run(s, acts[..p]).threads[t].Idle?
    ensures var a, b := Run(s, acts[..p]), Run(s, acts);
      b.calls[t] > a.calls[t] || (b.calls[t] == a.calls[t] && b.threads[t].Idle?)
    decreases |acts|
  {
    if p < |acts| {
      var front := acts[..|acts| - 1];
      assert front[..p] == acts[..p];
      CasIdleOrCalls(s, front, p, t);
    } else {
      assert acts[..p] == acts;
    }
  }

  /** Where a call returns one, its thread's decrement ends the log for good, and every call made so far is in it. */
  lemma CasOneEndsLog(initial: u32, n: nat, acts: seq<(nat, Action)>, p: nat)
    requires forall x :: x in acts ==> x.0 < n
    requires Balanced(initial, Run(Fresh(initial, n), acts).log) && CasReturnsOne(Fresh(initial, n), acts, p)
    ensures var a, log, t := Run(Fresh(initial, n), acts[..p]), Run(Fresh(initial, n), acts).log, acts[p].0;
      a.log == log && log != [] && log[|log| - 1].thread == t && a.calls[t] == EntriesOf(log, t)
        && References(initial, log) == 0
  {
    var a, t := Run(Fresh(initial, n), acts[..p]), acts[p].0;
    CasRefinesAtomic(initial, n, acts);
    CasRefinesAtomic(initial, n, acts[..p]);
    CasLogGrows(Fresh(initial, n), acts, p);
    assert Linked(a.threads[t], a.calls[t], EntriesOf(a.log, t), LatestOf(a.log, t));
    ZeroEndsLog(initial, a.log, Run(Fresh(initial, n), acts).log, t);
  }

  /** The thread that returns one is idle from then on, or makes another call. */
  lemma CasAfterReturn(initial: u32, n: nat, acts: seq<(nat, Action)>, p: nat, q: nat)
    requires (forall x :: x in acts ==> x.0 < n) && p < q <= |acts| && CasReturnsOne(Fresh(initial, n), acts, p)
    ensures var a, b, t := Run(Fresh(initial, n), acts[..p]), Run(Fresh(initial, n), acts[..q]), acts[p].0;
      b.calls[t] > a.calls[t] || b.threads[t].Idle?
  {
    var s, t := Fresh(initial, n), acts[p].0;
    assert acts[..p + 1][..p] == acts[..p];
    assert Run(s, acts[..p + 1]) == Step(Run(s, acts[..p]), t, Return);
    assert acts[..q][..p + 1] == acts[..p + 1];
    CasIdleOrCalls(s, acts[..q], p + 1, t);
  }

  /**
   With balanced callers at most one call of a run returns one, whatever the interleaving: it is the
   one that gave up the last reference.
   */
  lemma CasOneAtMostOnce(initial: u32, n: nat, acts: seq<(nat, Action)>, p: nat, q: nat)
    requires forall x :: x in acts ==> x.0 < n
    requires Balanced(initial, Run(Fresh(initial, n), acts).log)
    requires CasReturnsOne(Fresh(initial, n), acts, p) && CasReturnsOne(Fresh(initial, n), acts, q)
    ensures p == q && References(initial, Run(Fresh(initial, n), acts).log) == 0
  {
    CasOneEndsLog(initial, n, acts, p);
    CasOneEndsLog(initial, n, acts, q);
    if p < q {
      CasAfterReturn(initial, n, acts, p, q);
    } else if q < p {
      CasAfterReturn(initial, n, acts, q, p);
    }
  }

  /** Action `p` of the run is the return of a decrement that says one. */
  predicate LockReturnsOne(s: LState, acts: seq<(nat, LAction)>, p: nat)
    requires |s.threads| == |s.calls| && forall x :: x in acts ==> x.0 < |s.threads|
  {
    p < |acts| && acts[p].1 == LReturn && acts[p] in acts &&
    var thread := LRun(s, acts[..p]).threads[acts[p].0];
    thread.LFinished? && thread.zero
  }

  lemma {:induction false} LockLogGrows(s: LState, acts: seq<(nat, LAction)>, p: nat)
    requires |s.threads| == |s.calls| && (forall x :: x in acts ==> x.0 < |s.threads|) && p <= |acts|
    ensures LRun(s, acts[..p]).log <= LRun(s, acts).log
    decreases |acts|
  {
    if p < |acts| {
      var front := acts[..|acts| - 1];
      LockLogGrows(s, front, p);
      assert front[..p] == acts[..p];
    } else {
      assert acts[..p] == acts;
    }
  }

  /** A thread that is idle does nothing but make another call. */
  lemma {:induction false} LockIdleOrCalls(s: LState, acts: seq<(nat, LAction)>, p: nat, t: nat)
    requires |s.threads| == |s.calls| && (forall x :: x in acts ==> x.0 < |s.threads|)
    requires p <= |acts| && t < |s.threads| && LRun(s, acts[..p]).threads[t].LIdle?
    ensures var a, b := LRun(s, acts[..p]), LRun(s, acts);
      b.calls[t] > a.calls[t] || (b.calls[t] == a.calls[t] && b.threads[t].LIdle?)
    decreases |acts|
  {
    if p < |acts| {
      var front := acts[..|acts| - 1];
      assert front[..p] == acts[..p];
      LockIdleOrCalls(s, front, p, t);
    } else {
      assert acts[..p] == acts;
    }
  }

  /** Where a call returns one, its thread's decrement ends the log for good, and every call made so far is in it. */
  lemma LockOneEndsLog(initial: u32, n: nat, acts: seq<(nat, LAction)>, p: nat)
    requires forall x :: x in acts ==> x.0 < n
    requires Balanced(initial, LRun(LFresh(initial, n), acts).log) && LockReturnsOne(LFresh(initial, n), acts, p)
    ensures var a, log, t := LRun(LFresh(initial, n), acts[..p]), LRun(LFresh(initial, n), acts).log, acts[p].0;
      a.log == log && log != [] && log[|log| - 1].thread == t && a.calls[t] == EntriesOf(log, t)
        && References(initial, log) == 0
  {
    var a, t := LRun(LFresh(initial, n), acts[..p]), acts[p].0;
    LockRefinesAtomic(initial, n, acts);
    LockRefinesAtomic(initial, n, acts[..p]);
    LockLogGrows(LFresh(initial, n), acts, p);
    assert LLinked(a.threads[t], a.count, a.calls[t], EntriesOf(a.log, t), LatestOf(a.log, t));
    ZeroEndsLog(initial, a.log, LRun(LFresh(initial, n), acts).log, t);
  }

  /** The thread that returns one is idle from then on, or makes another call. */
  lemma LockAfterReturn(initial: u32, n: nat, acts: seq<(nat, LAction)>, p: nat, q: nat)
    requires (forall x :: x in acts ==> x.0 < n) && p < q <= |acts| && LockReturnsOne(LFresh(initial, n), acts, p)
    ensures var a, b, t := LRun(LFresh(initial, n), acts[..p]), LRun(LFresh(initial, n), acts[..q]), acts[p].0;
      b.calls[t] > a.calls[t] || b.threads[t].LIdle?
  {
    var s, t := LFresh(initial, n), acts[p].0;
    assert acts[..p + 1][..p] == acts[..p];
    assert LRun(s, acts[..p + 1]) == LStep(LRun(s, acts[..p]), t, LReturn);
    assert acts[..q][..p + 1] == acts[..p + 1];
    LockIdleOrCalls(s, acts[..q], p + 1, t);
  }

  /** The same of the version under a lock. */
  lemma LockOneAtMostOnce(initial: u32, n: nat, acts: seq<(nat, LAction)>, p: nat, q: nat)
    requires forall x :: x in acts ==> x.0 < n
    requires Balanced(initial, LRun(LFresh(initial, n), acts).log)
    requires LockReturnsOne(LFresh(initial, n), acts, p) && LockReturnsOne(LFresh(initial, n), acts, q)
    ensures p == q && References(initial, LRun(LFresh(initial, n), acts).log) == 0
  {
    LockOneEndsLog(initial, n, acts, p);
    LockOneEndsLog(initial, n, acts, q);
    if p < q {
      LockAfterReturn(initial, n, acts, p, q);
    } else if q < p {
      LockAfterReturn(initial, n, acts, q, p);
    }
  }
}
