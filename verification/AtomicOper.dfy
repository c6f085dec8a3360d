/**
 * The compare-and-swap retry loop, as a state machine over the steps of any number of threads.
 *
 * Every thread makes one call.  A call with an operation loads the shared value, computes the new one and
 * tries to swap it in; the swap may fail because the value has changed, or for no reason at all, and then
 * the thread starts over.  A call may also be a plain atomic update, which takes a single step.
 */
module AtomicOper {

  datatype Call<!T> = Retry(f: T -> T) | Direct(f: T -> T)

  datatype Thread<T> = Ready | Loaded(expected: T, newval: T) | Done(returned: T)

  /** The shared value, the threads, and the threads whose update has taken effect, in order. */
  datatype State<T> = State(value: T, threads: seq<Thread<T>>, log: seq<nat>)

  datatype Step = Load(t: nat) | Swap(t: nat) | Miss(t: nat) | Update(t: nat)

  predicate Enabled<T(==)>(calls: seq<Call<T>>, s: State<T>, step: Step) {
    && |s.threads| == |calls| && step.t < |calls|
    && match step
       case Load(t) => calls[t].Retry? && s.threads[t].Ready?
       case Swap(t) => s.threads[t].Loaded? && s.value == s.threads[t].expected
       case Miss(t) => s.threads[t].Loaded?
       case Update(t) => calls[t].Direct? && s.threads[t].Ready?
  }

  function Next<T(==)>(calls: seq<Call<T>>, s: State<T>, step: Step): State<T>
    requires Enabled(calls, s, step)
  {
    match step
    case Load(t) => s.(threads := s.threads[t := Loaded(s.value, calls[t].f(s.value))])
    case Swap(t) =>
      State(s.threads[t].newval, s.threads[t := Done(s.threads[t].expected)], s.log + [t])
    case Miss(t) => s.(threads := s.threads[t := Ready])
    case Update(t) => State(calls[t].f(s.value), s.threads[t := Done(s.value)], s.log + [t])
  }

  function Init<T>(calls: seq<Call<T>>, v: T): State<T> {
    State(v, seq(|calls|, i => Ready), [])
  }

  /** These steps are possible one after the other. */
  predicate CanRun<T(==)>(calls: seq<Call<T>>, s: State<T>, steps: seq<Step>)
    decreases |steps|
  {
    steps == [] || (Enabled(calls, s, steps[0]) && CanRun(calls, Next(calls, s, steps[0]), steps[1..]))
  }

  function Run<T(==)>(calls: seq<Call<T>>, s: State<T>, steps: seq<Step>): State<T>
    requires CanRun(calls, s, steps)
    decreases |steps|
  {
    if steps == [] then s else Run(calls, Next(calls, s, steps[0]), steps[1..])
  }

  // ---- Every interleaving is a sequence of whole calls ----

  /** The value after the logged calls have been made one after the other. */
  function Applied<T>(calls: seq<Call<T>>, v: T, log: seq<nat>): T
    requires forall i :: 0 <= i < |log| ==> log[i] < |calls|
    decreases |log|
  {
    if log == [] then v
    else calls[log[|log| - 1]].f(Applied(calls, v, log[..|log| - 1]))
  }

  ghost predicate LogOk<T>(calls: seq<Call<T>>, log: seq<nat>) {
    && (forall i :: 0 <= i < |log| ==> log[i] < |calls|)
    && (forall i, j :: 0 <= i < j < |log| ==> log[i] != log[j])
  }

  /** What a thread has computed is its call applied to what it loaded. */
  ghost predicate LoadsOk<T>(calls: seq<Call<T>>, threads: seq<Thread<T>>)
    requires |threads| == |calls|
  {
    forall t :: 0 <= t < |threads| && threads[t].Loaded? ==> threads[t].newval == calls[t].f(threads[t].expected)
  }

  /** The finished calls are the logged ones. */
  ghost predicate DoneLogged<T>(threads: seq<Thread<T>>, log: seq<nat>) {
    forall t :: 0 <= t < |threads| ==> (threads[t].Done? <==> t in log)
  }

  /** The call logged at place `i` has returned the value the calls before it left. */
  ghost predicate Returned<T>(calls: seq<Call<T>>, v: T, threads: seq<Thread<T>>, log: seq<nat>, i: nat)
    requires i < |log| && |threads| == |calls| && LogOk(calls, log)
  {
    threads[log[i]] == Done(Applied(calls, v, log[..i]))
  }

  ghost predicate AllReturned<T>(calls: seq<Call<T>>, v: T, threads: seq<Thread<T>>, log: seq<nat>)
    requires |threads| == |calls| && LogOk(calls, log)
  {
    forall i :: 0 <= i < |log| ==> Returned(calls, v, threads, log, i)
  }

  /** What every step keeps: the value, the returned values and the log tell the same story. */
  ghost predicate Linear<T>(calls: seq<Call<T>>, v: T, s: State<T>) {
    && |s.threads| == |calls| && LogOk(calls, s.log)
    && s.value == Applied(calls, v, s.log)
    && LoadsOk(calls, s.threads) && DoneLogged(s.threads, s.log) && AllReturned(calls, v, s.threads, s.log)
  }

  lemma {:induction false} AppliedMore<T>(calls: seq<Call<T>>, v: T, log: seq<nat>, t: nat)
    requires LogOk(calls, log) && t < |calls| && LogOk(calls, log + [t])
    ensures Applied(calls, v, log + [t]) == calls[t].f(Applied(calls, v, log))
  {
    assert (log + [t])[..|log|] == log && (log + [t])[|log|] == t;
  }

  lemma {:induction false} LogMore<T>(calls: seq<Call<T>>, log: seq<nat>, t: nat)
    requires LogOk(calls, log) && t < |calls| && t !in log
    ensures LogOk(calls, log + [t])
  {
    var r := log + [t];
    forall i, j | 0 <= i < j < |r| ensures r[i] != r[j] {
      assert r[i] == log[i] && r[i] in log;
    }
  }

  /** The calls already logged are not touched by the next one. */
  lemma {:induction false} ReturnedMore<T>(calls: seq<Call<T>>, v: T, threads: seq<Thread<T>>, log: seq<nat>, t: nat)
    requires |threads| == |calls| && LogOk(calls, log) && LogOk(calls, log + [t]) && t < |calls| && t !in log
    requires AllReturned(calls, v, threads, log)
    ensures AllReturned(calls, v, threads[t := Done(Applied(calls, v, log))], log + [t])
  {
    var after, r := threads[t := Done(Applied(calls, v, log))], log + [t];
    forall i | 0 <= i < |r| ensures Returned(calls, v, after, r, i) {
      if i < |log| {
        assert Returned(calls, v, threads, log, i) && r[i] == log[i] && log[i] in log;
        assert r[..i] == log[..i];
      } else {
        assert r[..i] == log;
      }
    }
  }

  lemma {:induction false} LoggedMore<T>(threads: seq<Thread<T>>, log: seq<nat>, t: nat, th: Thread<T>)
    requires DoneLogged(threads, log) && t < |threads| && th.Done?
    ensures DoneLogged(threads[t := th], log + [t])
  {
    forall u | 0 <= u < |threads| ensures threads[t := th][u].Done? <==> u in log + [t] {
      assert u in log + [t] <==> u in log || u == t;
    }
  }

  /** A step that leaves the value and the log alone. */
  lemma {:induction false} QuietStep<T>(calls: seq<Call<T>>, v: T, s: State<T>, t: nat, th: Thread<T>)
    requires Linear(calls, v, s) && t < |calls| && !s.threads[t].Done? && !th.Done?
    requires th.Loaded? ==> th.newval == calls[t].f(th.expected)
    ensures Linear(calls, v, s.(threads := s.threads[t := th]))
  {
    var after := s.threads[t := th];
    forall i | 0 <= i < |s.log| ensures Returned(calls, v, after, s.log, i) {
      assert Returned(calls, v, s.threads, s.log, i);
    }
  }

  /** A step that takes effect. */
  lemma {:induction false} EffectStep<T>(calls: seq<Call<T>>, v: T, s: State<T>, t: nat)
    requires Linear(calls, v, s) && t < |calls| && !s.threads[t].Done?
    ensures Linear(calls, v, State(calls[t].f(s.value), s.threads[t := Done(s.value)], s.log + [t]))
  {
    LogMore(calls, s.log, t);
    AppliedMore(calls, v, s.log, t);
    ReturnedMore(calls, v, s.threads, s.log, t);
    LoggedMore(s.threads, s.log, t, Done(s.value));
  }

  lemma {:induction false} StepLinear<T>(calls: seq<Call<T>>, v: T, s: State<T>, step: Step)
    requires Linear(calls, v, s) && Enabled(calls, s, step)
    ensures Linear(calls, v, Next(calls, s, step))
  {
    match step {
      case Load(t) => QuietStep(calls, v, s, t, Loaded(s.value, calls[t].f(s.value)));
      case Miss(t) => QuietStep(calls, v, s, t, Ready);
      case Swap(t) => EffectStep(calls, v, s, t);
      case Update(t) => EffectStep(calls, v, s, t);
    }
  }

  lemma {:induction false} RunLinear<T>(calls: seq<Call<T>>, v: T, s: State<T>, steps: seq<Step>)
    requires Linear(calls, v, s) && CanRun(calls, s, steps)
    ensures Linear(calls, v, Run(calls, s, steps))
    decreases |steps|
  {
    if steps != [] {
      StepLinear(calls, v, s, steps[0]);
      RunLinear(calls, v, Next(calls, s, steps[0]), steps[1..]);
    }
  }

  /**
   * After any interleaving the value is the result of the calls in the order of their swaps, each call is in
   * that order at most once, and each finished call has returned the value just before its own update.
   */
  lemma {:induction false} Linearizable<T>(calls: seq<Call<T>>, v: T, steps: seq<Step>)
    requires CanRun(calls, Init(calls, v), steps)
    ensures Linear(calls, v, Run(calls, Init(calls, v), steps))
  {
    RunLinear(calls, v, Init(calls, v), steps);
  }

  // ---- Every call can finish ----

  /** The steps with which thread `t` finishes its call when the others let it. */
  function Alone<T>(calls: seq<Call<T>>, s: State<T>, t: nat): seq<Step>
    requires |s.threads| == |calls| && t < |calls|
  {
    if calls[t].Direct? then [Update(t)]
    else if s.threads[t].Loaded? then [Miss(t), Load(t), Swap(t)]
    else [Load(t), Swap(t)]
  }

  /** Only calls that retry load a value. */
  ghost predicate RetriesLoad<T>(calls: seq<Call<T>>, s: State<T>) {
    |s.threads| == |calls| && forall t :: 0 <= t < |calls| && s.threads[t].Loaded? ==> calls[t].Retry?
  }

  lemma {:induction false} RunRetries<T>(calls: seq<Call<T>>, s: State<T>, steps: seq<Step>)
    requires RetriesLoad(calls, s) && CanRun(calls, s, steps)
    ensures RetriesLoad(calls, Run(calls, s, steps))
    decreases |steps|
  {
    if steps != [] {
      RunRetries(calls, Next(calls, s, steps[0]), steps[1..]);
    }
  }

  lemma {:induction false} RunOne<T>(calls: seq<Call<T>>, s: State<T>, step: Step, steps: seq<Step>)
    requires Enabled(calls, s, step) && CanRun(calls, Next(calls, s, step), steps)
    ensures CanRun(calls, s, [step] + steps)
    ensures Run(calls, s, [step] + steps) == Run(calls, Next(calls, s, step), steps)
  {
    assert ([step] + steps)[1..] == steps;
  }

  /** The state after thread `t` has made its call on the value there is. */
  function Made<T>(calls: seq<Call<T>>, s: State<T>, t: nat): State<T>
    requires |s.threads| == |calls| && t < |calls|
  {
    State(calls[t].f(s.value), s.threads[t := Done(s.value)], s.log + [t])
  }

  lemma {:induction false} RunLast<T>(calls: seq<Call<T>>, s: State<T>, step: Step)
    requires Enabled(calls, s, step)
    ensures CanRun(calls, s, [step]) && Run(calls, s, [step]) == Next(calls, s, step)
  {
    var s1 := Next(calls, s, step);
    assert CanRun(calls, s1, []) && Run(calls, s1, []) == s1;
    RunOne(calls, s, step, []);
    assert [step] + [] == [step];
  }

  /** A thread that starts to retry. */
  lemma {:induction false} FinishesReady<T>(calls: seq<Call<T>>, s: State<T>, t: nat)
    requires |s.threads| == |calls| && t < |calls| && calls[t].Retry? && s.threads[t].Ready?
    ensures CanRun(calls, s, [Load(t), Swap(t)]) && Run(calls, s, [Load(t), Swap(t)]) == Made(calls, s, t)
  {
    var s1 := Next(calls, s, Load(t));
    RunLast(calls, s1, Swap(t));
    RunOne(calls, s, Load(t), [Swap(t)]);
    assert [Load(t)] + [Swap(t)] == [Load(t), Swap(t)];
    assert s1.threads[t := Done(s.value)] == s.threads[t := Done(s.value)];
  }

  /** A thread that has to start over. */
  lemma {:induction false} FinishesLoaded<T>(calls: seq<Call<T>>, s: State<T>, t: nat)
    requires |s.threads| == |calls| && t < |calls| && calls[t].Retry? && s.threads[t].Loaded?
    ensures CanRun(calls, s, [Miss(t), Load(t), Swap(t)])
    ensures Run(calls, s, [Miss(t), Load(t), Swap(t)]) == Made(calls, s, t)
  {
    var s1 := Next(calls, s, Miss(t));
    FinishesReady(calls, s1, t);
    RunOne(calls, s, Miss(t), [Load(t), Swap(t)]);
    assert [Miss(t)] + [Load(t), Swap(t)] == [Miss(t), Load(t), Swap(t)];
    assert s1.threads[t := Done(s.value)] == s.threads[t := Done(s.value)];
  }

  lemma {:induction false} FinishesFrom<T>(calls: seq<Call<T>>, s: State<T>, t: nat)
    requires RetriesLoad(calls, s) && t < |calls| && !s.threads[t].Done?
    ensures CanRun(calls, s, Alone(calls, s, t)) && Run(calls, s, Alone(calls, s, t)) == Made(calls, s, t)
  {
    if calls[t].Direct? {
      RunLast(calls, s, Update(t));
    } else if s.threads[t].Loaded? {
      FinishesLoaded(calls, s, t);
    } else {
      FinishesReady(calls, s, t);
    }
  }

  /**
   * Whatever has happened, a call that is not finished can finish in at most three steps of its own: it then takes
   * effect on the value there is, and returns that value.
   */
  lemma {:induction false} CanFinish<T>(calls: seq<Call<T>>, v: T, steps: seq<Step>, t: nat)
    requires CanRun(calls, Init(calls, v), steps) && t < |calls|
    ensures var s := Run(calls, Init(calls, v), steps);
            && |s.threads| == |calls| && |Alone(calls, s, t)| <= 3
            && (!s.threads[t].Done? ==>
                  CanRun(calls, s, Alone(calls, s, t)) && Run(calls, s, Alone(calls, s, t)) == Made(calls, s, t))
  {
    RunRetries(calls, Init(calls, v), steps);
    var s := Run(calls, Init(calls, v), steps);
    if !s.threads[t].Done? {
      FinishesFrom(calls, s, t);
    }
  }

  // ---- The checked decrement ----

  const LIMIT := 0x8000_0000_0000_0000

  /** A 64-bit signed result. */
  function Wrap(x: int): (r: int)
    ensures -0x8000_0000_0000_0000 <= r < 0x8000_0000_0000_0000 && (x - r) % 0x1_0000_0000_0000_0000 == 0
    ensures -LIMIT <= x < LIMIT ==> r == x
  {
    (x + LIMIT) % (2 * LIMIT) - LIMIT
  }

  datatype Change = Sub(n: nat) | Plus(n: nat)

  function SubChecked(n: nat, oldval: int): int {
    if Wrap(oldval - n) > 0 then Wrap(oldval - n) else 0
  }

  function CallFor(c: Change): Call<int> {
    match c
    case Sub(n) => Retry(x => SubChecked(n, x))
    case Plus(n) => Direct(x => Wrap(x + n))
  }

  function Calls(cs: seq<Change>): (r: seq<Call<int>>)
    ensures |r| == |cs| && forall i :: 0 <= i < |cs| ==> r[i] == CallFor(cs[i])
  {
    seq(|cs|, i requires 0 <= i < |cs| => CallFor(cs[i]))
  }

  /** All that the logged calls have added. */
  function Added(cs: seq<Change>, log: seq<nat>): nat
    requires forall i :: 0 <= i < |log| ==> log[i] < |cs|
    decreases |log|
  {
    if log == [] then 0
    else Added(cs, log[..|log| - 1]) + if cs[log[|log| - 1]].Plus? then cs[log[|log| - 1]].n else 0
  }

  /** The counter as it is meant: additions add, and a decrement takes off what it can. */
  function Counted(cs: seq<Change>, v: nat, log: seq<nat>): nat
    requires forall i :: 0 <= i < |log| ==> log[i] < |cs|
    decreases |log|
  {
    if log == [] then v
    else
      var x, c := Counted(cs, v, log[..|log| - 1]), cs[log[|log| - 1]];
      match c
      case Plus(n) => x + n
      case Sub(n) => if n < x then x - n else 0
  }

  lemma {:induction false} AppliedBounds(cs: seq<Change>, v: nat, log: seq<nat>)
    requires forall i :: 0 <= i < |cs| ==> cs[i].n < LIMIT
    requires forall i :: 0 <= i < |log| ==> log[i] < |cs|
    requires v + Added(cs, log) < LIMIT
    ensures Applied(Calls(cs), v, log) == Counted(cs, v, log) <= v + Added(cs, log)
    decreases |log|
  {
    if log != [] {
      AppliedBounds(cs, v, log[..|log| - 1]);
    }
  }

  /** Without decrements the counter is what it was and all that has been added. */
  lemma {:induction false} OnlyAdded(cs: seq<Change>, v: nat, log: seq<nat>)
    requires forall i :: 0 <= i < |log| ==> log[i] < |cs| && cs[log[i]].Plus?
    ensures Counted(cs, v, log) == v + Added(cs, log)
    decreases |log|
  {
    if log != [] {
      OnlyAdded(cs, v, log[..|log| - 1]);
    }
  }

  /**
   * Checked decrements mixed with additions, interleaved in any way, leave the counter at what the calls make of it in
   * the order of their effects, never below zero nor above what has been added, as long as what has been added stays
   * in the signed range.
   */
  lemma {:induction false} NeverNegative(cs: seq<Change>, v: nat, steps: seq<Step>)
    requires forall i :: 0 <= i < |cs| ==> cs[i].n < LIMIT
    requires CanRun(Calls(cs), Init(Calls(cs), v), steps)
    ensures var s := Run(Calls(cs), Init(Calls(cs), v), steps);
            && LogOk(Calls(cs), s.log)
            && (v + Added(cs, s.log) < LIMIT ==>
                  s.value == Counted(cs, v, s.log) && 0 <= s.value <= v + Added(cs, s.log))
  {
    Linearizable(Calls(cs), v, steps);
    var s := Run(Calls(cs), Init(Calls(cs), v), steps);
    if v + Added(cs, s.log) < LIMIT {
      AppliedBounds(cs, v, s.log);
    }
  }

  /** The decrement takes off what it can and stops at zero. */
  lemma {:induction false} SubCheckedIsMonus(n: nat, oldval: nat)
    requires n < LIMIT && oldval < LIMIT
    ensures SubChecked(n, oldval) == if oldval >= n then oldval - n else 0
  {
  }
}
