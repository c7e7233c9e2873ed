/** Round-robin scheduling (sched.cpp) as steps on abstract states, and what holds over whole runs. */
module Schedule {
  import opened Wrappers

  type Tid = nat

  /** What a timer interrupt saves of a task: its registers, and its two segment bases. */
  datatype Context = Context(regs: seq<nat>, cs: nat, gsBase: nat, fsBase: nat)

  predicate IsUser(c: Context) {
    c.cs % 4 == 3
  }

  /** The run queue in list order, the task on the processor, the saved contexts, and the processor. */
  datatype State = State(queue: seq<Tid>, current: Option<Tid>, saved: map<Tid, Context>, cpu: Context)

  ghost predicate Distinct(s: seq<Tid>) {
    forall i, j :: 0 <= i < j < |s| ==> s[i] != s[j]
  }

  ghost predicate Valid(s: State) {
    Distinct(s.queue) && (forall t :: t in s.queue ==> t in s.saved) && (s.current.Some? ==> s.current.value in s.saved)
  }

  function IndexOf(q: seq<Tid>, t: Tid): (i: nat)
    requires t in q
    ensures i < |q| && q[i] == t && forall j :: 0 <= j < i ==> q[j] != t
  {
    if q[0] == t then 0 else 1 + IndexOf(q[1..], t)
  }

  /** The next task: the one behind the current task, or the first of the queue when the current task
      is the last one or has left the queue. */
  function Pick(s: State): Tid
    requires s.queue != []
  {
    if s.current.Some? && s.current.value in s.queue && IndexOf(s.queue, s.current.value) + 1 < |s.queue|
    then s.queue[IndexOf(s.queue, s.current.value) + 1]
    else s.queue[0]
  }

  lemma PickQueued(s: State)
    requires s.queue != []
    ensures Pick(s) in s.queue
  {
  }

  /** What the processor holds once task `t` with this context is loaded: a kernel task's base is the task's own
      address, for which its number stands. */
  function Resumed(c: Context, t: Tid): Context {
    if IsUser(c) then c else c.(gsBase := t)
  }

  /** The processor `cpu` goes on with task `t` where it was interrupted with `live`. */
  predicate GoesOn(cpu: Context, live: Context, t: Tid) {
    && cpu.regs == live.regs && cpu.cs == live.cs && cpu.fsBase == live.fsBase
    && cpu.gsBase == if live.cs % 4 == 3 then live.gsBase else t
  }

  /** `scheduler_isr`, the interrupted processor holding `live`; a panic when no task is queued. */
  function Tick(s: State, live: Context): Option<State> {
    var saved := if s.current.Some? then s.saved[s.current.value := live] else s.saved;
    if s.queue == [] then None
    else
      var next := Pick(s);
      if next in saved then Some(State(s.queue, Some(next), saved, Resumed(saved[next], next))) else None
  }

  function Without(q: seq<Tid>, t: Tid): seq<Tid>
    requires t in q
  {
    q[..IndexOf(q, t)] + q[IndexOf(q, t) + 1..]
  }

  /** `dequeue_and_die`: the current task leaves the queue, and waits for the next interrupt. */
  function Exit(s: State): State
    requires s.current.Some? && s.current.value in s.queue
  {
    s.(queue := Without(s.queue, s.current.value))
  }

  /** A new task at the end of the queue. */
  function Enqueue(s: State, t: Tid, c: Context): State {
    s.(queue := s.queue + [t], saved := s.saved[t := c])
  }

  /** A new task, queued or only created. */
  function Arrive(s: State, t: Tid, c: Context, queued: bool): State {
    if queued then Enqueue(s, t, c) else s.(saved := s.saved[t := c])
  }

  lemma WithoutFacts(q: seq<Tid>, t: Tid)
    requires Distinct(q) && t in q
    ensures Distinct(Without(q, t)) && |Without(q, t)| == |q| - 1
    ensures forall u :: u in Without(q, t) <==> u in q && u != t
  {
    var k, r := IndexOf(q, t), Without(q, t);
    assert forall i :: 0 <= i < |r| ==> r[i] == if i < k then q[i] else q[i + 1];
    forall u | u in q && u != t
      ensures u in r
    {
      var i := IndexOf(q, u);
      assert r[if i < k then i else i - 1] == u;
    }
  }

  lemma StepsKeepValid(s: State, live: Context)
    requires Valid(s)
    ensures Tick(s, live).Some? <==> s.queue != []
    ensures Tick(s, live).Some? ==> Valid(Tick(s, live).value)
    ensures s.current.Some? && s.current.value in s.queue ==> Valid(Exit(s))
    ensures forall t, c, queued :: t !in s.saved ==> Valid(Arrive(s, t, c, queued))
  {
    if s.queue != [] {
      assert Pick(s) in s.queue;
    }
    if s.current.Some? && s.current.value in s.queue {
      WithoutFacts(s.queue, s.current.value);
    }
  }

  // ---------- runs ----------

  datatype Event = Ticked(live: Context) | Exited | Arrived(task: Tid, context: Context, queued: bool)

  /** The events can happen: no tick finds an empty queue, only a queued task exits, and an arriving
      task is new. */
  predicate Possible(s: State, es: seq<Event>)
    decreases |es|
  {
    es == [] ||
    match es[0]
    case Ticked(live) => Tick(s, live).Some? && Possible(Tick(s, live).value, es[1..])
    case Exited => s.current.Some? && s.current.value in s.queue && Possible(Exit(s), es[1..])
    case Arrived(t, c, queued) => t !in s.saved && Possible(Arrive(s, t, c, queued), es[1..])
  }

  function After(s: State, e: Event): State
    requires Possible(s, [e])
  {
    match e
    case Ticked(live) => Tick(s, live).value
    case Exited => Exit(s)
    case Arrived(t, c, queued) => Arrive(s, t, c, queued)
  }

  lemma FirstPossible(s: State, es: seq<Event>)
    requires es != [] && Possible(s, es)
    ensures Possible(s, [es[0]]) && Possible(After(s, es[0]), es[1..])
  {
    assert [es[0]][1..] == [];
  }

  function Run(s: State, es: seq<Event>): State
    requires Possible(s, es)
    decreases |es|
  {
    if es == [] then s
    else
      FirstPossible(s, es);
      Run(After(s, es[0]), es[1..])
  }

  function Ticks(es: seq<Event>): nat {
    if es == [] then 0 else (if es[0].Ticked? then 1 else 0) + Ticks(es[1..])
  }

  /** How many tasks join the queue. */
  function Arrivals(es: seq<Event>): nat {
    if es == [] then 0 else (if es[0].Arrived? && es[0].queued then 1 else 0) + Arrivals(es[1..])
  }

  /** Some tick of the run hands the processor to `t`. */
  predicate Picks(s: State, es: seq<Event>, t: Tid)
    requires Possible(s, es)
    decreases |es|
  {
    if es == [] then false
    else
      FirstPossible(s, es);
      (es[0].Ticked? && After(s, es[0]).current == Some(t)) || Picks(After(s, es[0]), es[1..], t)
  }

  // ---------- bounded waiting ----------

  /** Ticks until `t` is picked if no one exits. */
  function Distance(s: State, t: Tid): nat
    requires t in s.queue
  {
    var p := IndexOf(s.queue, t);
    if s.current.Some? && s.current.value in s.queue then
      var c := IndexOf(s.queue, s.current.value);
      if c < p then p - c else |s.queue| - c + p
    else p + 1
  }

  /** The sum of 0 to `n - 1`: what later restarts of the queue can still cost. */
  function Below(n: nat): nat {
    if n == 0 then 0 else n - 1 + Below(n - 1)
  }

  /** The ticks `t` may still have to wait for if `a` more tasks arrive. */
  function Waiting(s: State, t: Tid, a: nat): nat
    requires t in s.queue
  {
    Distance(s, t) + a + Below(|s.queue| + a)
  }

  lemma IndexOfAt(q: seq<Tid>, i: nat)
    requires Distinct(q) && i < |q|
    ensures IndexOf(q, q[i]) == i
  {
  }

  /** A tick brings `t` one step nearer. */
  lemma TickNears(s: State, live: Context, t: Tid)
    requires Valid(s) && t in s.queue
    ensures Tick(s, live).Some? && Tick(s, live).value.queue == s.queue
    ensures Tick(s, live).value.current == Some(t) <==> Distance(s, t) == 1
    ensures Tick(s, live).value.current != Some(t) ==> Distance(Tick(s, live).value, t) == Distance(s, t) - 1
  {
    var q := s.queue;
    var k := if s.current.Some? && s.current.value in q && IndexOf(q, s.current.value) + 1 < |q|
             then IndexOf(q, s.current.value) + 1 else 0;
    assert Pick(s) == q[k];
    IndexOfAt(q, k);
    IndexOfAt(q, IndexOf(q, t));
  }

  /** The exit of another task may send the search back to the start of the queue, but the queue is
      shorter then. */
  lemma ExitCosts(s: State, t: Tid, a: nat)
    requires Valid(s) && s.current.Some? && s.current.value in s.queue
    requires t in Exit(s).queue
    ensures t in s.queue && Waiting(Exit(s), t, a) < Waiting(s, t, a)
  {
    WithoutFacts(s.queue, s.current.value);
  }

  /** An arriving task may get in front of `t`, but one arrival less is left then. */
  lemma ArrivalCosts(s: State, t: Tid, u: Tid, c: Context, a: nat)
    requires Valid(s) && t in s.queue && u !in s.saved
    ensures t in Enqueue(s, u, c).queue && Waiting(Enqueue(s, u, c), t, a) <= Waiting(s, t, a + 1)
  {
    IndexOfMore(s.queue, u, t);
    if s.current.Some? && s.current.value in s.queue {
      IndexOfMore(s.queue, u, s.current.value);
    }
  }

  lemma IndexOfMore(q: seq<Tid>, u: Tid, t: Tid)
    requires t in q
    ensures t in q + [u] && IndexOf(q + [u], t) == IndexOf(q, t)
  {
    assert (q + [u])[1..] == q[1..] + [u];
  }

  lemma WaitingBound(s: State, t: Tid, a: nat)
    requires t in s.queue
    ensures var n := |s.queue| + a;
            1 <= Waiting(s, t, a) <= n + Below(n) && 2 * (n + Below(n)) == n * (n + 1)
  {
    hide Below;
    BelowSum(|s.queue| + a);
  }

  lemma {:induction false} BelowSum(n: nat)
    ensures 2 * (n + Below(n)) == n * (n + 1)
  {
    if n > 0 {
      BelowSum(n - 1);
      assert n * (n + 1) == (n - 1) * n + 2 * n;
    }
  }

  lemma {:induction false} NotPickedYet(s: State, es: seq<Event>, t: Tid)
    requires Valid(s) && Possible(s, es) && t in s.queue && t in Run(s, es).queue && !Picks(s, es, t)
    ensures Ticks(es) + Waiting(Run(s, es), t, 0) <= Waiting(s, t, Arrivals(es))
    decreases |es|
  {
    hide Waiting, Valid;
    if es != [] {
      FirstPossible(s, es);
      StepKeepsValid(s, es[0]);
      StepWaits(s, es[0], t, Arrivals(es[1..]));
      if t !in After(s, es[0]).queue {
        StepKeepsSaved(s, es[0], t);
        GoneForGood(After(s, es[0]), es[1..], t);
      }
      NotPickedYet(After(s, es[0]), es[1..], t);
    }
  }

  lemma TickWaits(s: State, live: Context, t: Tid, a: nat)
    requires Valid(s) && t in s.queue && Tick(s, live).Some? && Tick(s, live).value.current != Some(t)
    ensures t in Tick(s, live).value.queue
    ensures 1 + Waiting(Tick(s, live).value, t, a) <= Waiting(s, t, a)
  {
    hide Below, Distance, Tick, Valid;
    TickNears(s, live, t);
  }

  lemma CreationWaits(s: State, u: Tid, c: Context, t: Tid, a: nat)
    requires t in s.queue
    ensures Waiting(Arrive(s, u, c, false), t, a) == Waiting(s, t, a)
  {
  }

  /** Each tick that does not pick `t` uses up one unit of waiting, and nothing adds any. */
  lemma StepWaits(s: State, e: Event, t: Tid, a: nat)
    requires Valid(s) && Possible(s, [e]) && t in s.queue
    requires !(e.Ticked? && After(s, e).current == Some(t))
    ensures t in After(s, e).queue ==>
              Ticks([e]) + Waiting(After(s, e), t, a) <= Waiting(s, t, a + Arrivals([e]))
  {
    hide Waiting, Distance, Pick, Valid, Tick, Exit, Enqueue;
    FirstPossible(s, [e]);
    match e {
      case Ticked(live) => TickWaits(s, live, t, a);
      case Exited => if t in Exit(s).queue { ExitCosts(s, t, a); }
      case Arrived(u, c, queued) => if queued { ArrivalCosts(s, t, u, c, a); } else { CreationWaits(s, u, c, t, a); }
    }
  }

  lemma StepKeepsSaved(s: State, e: Event, t: Tid)
    requires Valid(s) && Possible(s, [e]) && t in s.queue
    ensures t in After(s, e).saved
  {
  }

  lemma StepKeepsValid(s: State, e: Event)
    requires Valid(s) && Possible(s, [e])
    ensures Valid(After(s, e))
  {
    StepsKeepValid(s, if e.Ticked? then e.live else s.cpu);
  }

  /** A task that stays queued is picked within n (n + 1) / 2 ticks, where n counts the tasks queued at
      first and those that arrive meanwhile, whatever exits happen. */
  lemma BoundedWaiting(s: State, es: seq<Event>, t: Tid)
    requires Valid(s) && Possible(s, es) && t in s.queue && t in Run(s, es).queue
    requires var n := |s.queue| + Arrivals(es); 2 * Ticks(es) >= n * (n + 1)
    ensures Picks(s, es, t)
  {
    if !Picks(s, es, t) {
      NotPickedYet(s, es, t);
      WaitingBound(s, t, Arrivals(es));
      WaitingBound(Run(s, es), t, 0);
    }
  }

  // ---------- exits ----------

  /** A task that has left the queue is never picked again, whatever arrives. */
  lemma {:induction false} GoneForGood(s: State, es: seq<Event>, t: Tid)
    requires Valid(s) && Possible(s, es) && t in s.saved && t !in s.queue
    ensures !Picks(s, es, t) && t !in Run(s, es).queue
    decreases |es|
  {
    if es != [] {
      FirstPossible(s, es);
      StepKeepsValid(s, es[0]);
      if es[0].Exited? {
        WithoutFacts(s.queue, s.current.value);
      }
      GoneForGood(After(s, es[0]), es[1..], t);
    }
  }

  // ---------- context preservation ----------

  /** `t` is not on the processor at any tick of the run, so none saves over its context. */
  predicate OffProcessor(s: State, es: seq<Event>, t: Tid)
    requires Possible(s, es)
    decreases |es|
  {
    es == [] ||
    (FirstPossible(s, es);
     (es[0].Ticked? ==> s.current != Some(t)) && OffProcessor(After(s, es[0]), es[1..], t))
  }

  lemma {:induction false} SavedUntouched(s: State, es: seq<Event>, t: Tid)
    requires Possible(s, es) && OffProcessor(s, es, t) && t in s.saved
    ensures t in Run(s, es).saved && Run(s, es).saved[t] == s.saved[t]
    decreases |es|
  {
    if es != [] {
      FirstPossible(s, es);
      SavedUntouched(After(s, es[0]), es[1..], t);
    }
  }

  /** A task interrupted with context `live` resumes with exactly that context: at once if it is the only
      one queued, or when it is next picked, whatever runs, exits and arrives in between. */
  lemma ContextPreserved(s: State, live: Context, es: seq<Event>, last: Context, t: Tid)
    requires Valid(s) && s.current == Some(t) && Tick(s, live).Some?
    ensures var s1 := Tick(s, live).value;
            && (s1.current == Some(t) ==> GoesOn(s1.cpu, live, t))
            && (Possible(s1, es) && OffProcessor(s1, es, t) ==>
                  var s2 := Run(s1, es);
                  s2.current != Some(t) && Tick(s2, last).Some? && Tick(s2, last).value.current == Some(t) ==>
                    GoesOn(Tick(s2, last).value.cpu, live, t))
  {
    var s1 := Tick(s, live).value;
    if Possible(s1, es) && OffProcessor(s1, es, t) {
      SavedUntouched(s1, es, t);
    }
  }
}
