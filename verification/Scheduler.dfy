/** The scheduler itself (sched.cpp): task records linked into an intrusive list, refining the steps of
    `Schedule`. The current task, kept in a segment base register by the source, is a field. */
module Scheduler {
  import opened Wrappers
  import opened ListHead
  import S = Schedule

  class Task {
    const tid: S.Tid
    const node: ListHead
    var context: S.Context

    constructor (tid: S.Tid, context: S.Context)
      ensures this.tid == tid && this.context == context
      ensures fresh(node) && node.entry == tid && node.next == null
    {
      this.tid := tid;
      this.context := context;
      this.node := new ListHead(tid);
    }
  }

  class Scheduler {
    const head: ListHead
    var tasks: map<S.Tid, Task>
    var current: Option<S.Tid>
    var cpu: S.Context
    ghost var queue: seq<S.Tid>
    ghost var heads: seq<ListHead>     // the list head, then the nodes of the queued tasks
    ghost var records: set<Task>
    ghost var nodes: set<ListHead>

    /** The task records are the tasks', each with a node of its own. */
    ghost predicate Records()
      reads this
    {
      && head in nodes
      && (forall t :: t in tasks ==> tasks[t] in records && tasks[t].tid == t)
      && (forall t :: t in tasks ==> tasks[t].node in nodes && tasks[t].node.entry == t && tasks[t].node != head)
      && (current.Some? ==> current.value in tasks)
    }

    /** The list links the queued tasks in queue order, and tasks off the queue are unlinked. */
    ghost predicate Linked()
      requires Records()
      reads this, nodes
    {
      && S.Distinct(queue) && Matches(tasks, queue, heads, head)
      && (forall h :: h in heads ==> h in nodes)
      && Ring(heads)
      && (forall t :: t in tasks && t !in queue ==> tasks[t].node.next == null)
    }

    ghost predicate Valid()
      reads this, nodes
    {
      Records() && Linked()
    }

    ghost function Saved(): map<S.Tid, S.Context>
      reads this, tasks.Values
    {
      map t | t in tasks :: tasks[t].context
    }

    /** The abstract state this stands for. */
    ghost function View(): S.State
      reads this, tasks.Values
    {
      S.State(queue, current, Saved(), cpu)
    }

    constructor (cpu: S.Context)
      ensures Valid() && View() == S.State([], None, map[], cpu)
    {
      var h := new ListHead(0);
      h.Init();
      head := h;
      tasks := map[];
      current := None;
      this.cpu := cpu;
      queue, heads, records, nodes := [], [h], {}, {h};
    }

    /** The links lead from the current task to the next one exactly as `Pick` says. */
    lemma LinksPick()
      requires Valid()
      ensures heads[0].next == head <==> queue == []
      ensures queue != [] ==>
                var onward := current.Some? && tasks[current.value].node.next != null
                              && tasks[current.value].node.next != head;
                var h := if onward then tasks[current.value].node.next else heads[0].next;
                h != null && h.entry == S.Pick(View()) && S.Pick(View()) in tasks
      ensures queue == [] && current.Some? ==> tasks[current.value].node.next == null
    {
      assert heads[0].next == Succ(heads, 0);
      if current.Some? && current.value in queue {
        var k := S.IndexOf(queue, current.value) + 1;
        assert heads[k].next == Succ(heads, k) && heads[k] == tasks[current.value].node;
      }
    }

    /** The nodes of tasks off the queue are not on the list. */
    lemma OffList()
      requires Valid()
      ensures forall t :: t in tasks && t !in queue ==> tasks[t].node !in heads
    {
      hide Ring, S.Distinct;
      forall t, i | t in tasks && t !in queue && 0 <= i < |heads|
        ensures tasks[t].node != heads[i]
      {
        if i > 0 {
          assert heads[i] == tasks[queue[i - 1]].node;
        }
      }
    }

    /** `memcpy` of the interrupted registers into the current task. */
    method Save(live: S.Context)
      requires Valid()
      modifies records
      ensures Valid() && Saved() == if current.Some? then old(Saved())[current.value := live] else old(Saved())
      ensures current.Some? ==> tasks[current.value].context == live
    {
      hide Ring, S.Distinct;
      if current.Some? {
        tasks[current.value].context := live;
        assert forall t :: t in tasks && t != current.value ==> tasks[t].context == old(tasks[t].context);
      }
    }

    /** The choice of the next task: along the list behind the current one, or from its front; none from an
        empty list. */
    method FollowLinks() returns (next: Option<S.Tid>)
      requires Valid()
      ensures next == if queue == [] then None else Some(S.Pick(View()))
      ensures next.Some? ==> next.value in tasks
    {
      hide Ring, S.Distinct, S.Pick, Matches;
      MatchesLength(tasks, queue, heads, head);
      LinksPick();
      if current.Some? && tasks[current.value].node.next != null && tasks[current.value].node.next != head {
        return Some(tasks[current.value].node.next.entry);
      }
      if !head.Empty() {
        return Some(head.next.entry);
      }
      return None;
    }

    /** The registers and bases of the next task are loaded. */
    method Load(next: S.Tid)
      requires Valid() && next in tasks
      modifies `current, `cpu
      ensures Valid() && current == Some(next) && cpu == S.Resumed(tasks[next].context, next)
      ensures S.GoesOn(cpu, tasks[next].context, next)
    {
      hide Ring, S.Distinct, Matches;
      current := Some(next);
      cpu := S.Resumed(tasks[next].context, next);
    }

    /** `scheduler_isr`: `live` is what the interrupt found on the processor. */
    method Isr(live: S.Context) returns (ok: bool)
      requires Valid()
      modifies this, records
      ensures ok <==> S.Tick(old(View()), live).Some?
      ensures ok ==> Valid() && View() == S.Tick(old(View()), live).value
      // the interrupted task is saved, and the next one goes on with what is saved of it
      ensures old(current).Some? ==> old(current).value in tasks && Saved()[old(current).value] == live
      ensures ok ==>
                && current.Some? && current.value in queue && current.value in tasks
                && S.GoesOn(cpu, Saved()[current.value], current.value)
    {
      hide Ring, S.Distinct, S.Pick, Matches, S.Resumed, S.GoesOn, Linked, Records;
      ValidFacts();
      Save(live);
      var next := FollowLinks();
      if next.None? {
        return false;
      }
      S.PickQueued(View());
      PickIgnoresSaved(View(), old(View()));
      Load(next.value);
      return true;
    }

    lemma ValidFacts()
      requires Valid()
      ensures current.Some? ==> current.value in tasks
      ensures forall t :: t in tasks ==> tasks[t] in records
    {
    }

    /** `dequeue_and_die`: the current task unlinks itself. */
    method DequeueAndDie()
      requires Valid() && current.Some? && current.value in queue
      modifies this, nodes
      ensures Valid() && View() == S.Exit(old(View()))
      ensures current == old(current) && cpu == old(cpu) && Saved() == old(Saved()) && current.value !in queue
    {
      hide Ring, S.Distinct, Matches;
      ghost var k := S.IndexOf(queue, current.value) + 1;
      MatchesWithout(tasks, queue, heads, head, current.value);
      MatchesLength(tasks, queue, heads, head);
      RingNeighbours(heads, k);
      OffList();
      S.WithoutFacts(queue, current.value);
      tasks[current.value].node.Remove(heads, k);
      queue := S.Without(queue, current.value);
      heads := heads[..k] + heads[k + 1..];
      assert Records() && Linked();
      assert Saved() == old(Saved());
    }

    /** A task record that is not queued yet. */
    method CreateTask(tid: S.Tid, context: S.Context)
      requires Valid() && tid !in tasks
      modifies this
      ensures Valid() && View() == old(View()).(saved := old(View()).saved[tid := context])
      ensures tid in tasks && tid !in queue && nodes == old(nodes) + {tasks[tid].node} && fresh(tasks[tid].node)
    {
      hide Ring, Matches, S.Distinct;
      MatchesLength(tasks, queue, heads, head);
      var task := new Task(tid, context);
      MatchesMore(tasks, queue, heads, head, tid, task);
      tasks := tasks[tid := task];
      records, nodes := records + {task}, nodes + {task.node};
      assert Saved() == old(Saved())[tid := context];
    }

    /** `sched_list_head.add_before(&task->sched_list)`: the task goes to the end of the queue. */
    method Enqueue(tid: S.Tid)
      requires Valid() && tid in tasks && tid !in queue
      modifies this, nodes
      ensures Valid() && View() == old(View()).(queue := old(queue) + [tid])
    {
      hide Ring, Matches, S.Distinct;
      MatchesLength(tasks, queue, heads, head);
      DistinctAppend(queue, tid);
      MatchesAppend(tasks, queue, heads, head, tid);
      RingNeighbours(heads, 0);
      OffList();
      head.AddBefore(tasks[tid].node, heads, 0);
      heads := heads + [tasks[tid].node];
      queue := queue + [tid];
    }

    /** `new_kernel_task` and `new_user_task`, as far as scheduling goes. */
    method NewTask(tid: S.Tid, context: S.Context, enqueue: bool)
      requires Valid() && tid !in tasks
      modifies this, nodes
      ensures Valid() && View() == S.Arrive(old(View()), tid, context, enqueue)
      ensures queue == if enqueue then old(queue) + [tid] else old(queue)
      ensures current == old(current) && cpu == old(cpu) && Saved() == old(Saved())[tid := context]
    {
      CreateTask(tid, context);
      if enqueue {
        Enqueue(tid);
      }
    }
  }

  /** `heads` is the list head and then the nodes of the queued tasks. */
  ghost predicate Matches(tasks: map<S.Tid, Task>, queue: seq<S.Tid>, heads: seq<ListHead>, head: ListHead) {
    && |heads| == |queue| + 1 && heads[0] == head
    && forall i :: 0 <= i < |queue| ==> queue[i] in tasks && heads[i + 1] == tasks[queue[i]].node
  }

  lemma DistinctAppend(q: seq<S.Tid>, t: S.Tid)
    requires S.Distinct(q) && t !in q
    ensures S.Distinct(q + [t])
  {
  }

  lemma MatchesLength(tasks: map<S.Tid, Task>, queue: seq<S.Tid>, heads: seq<ListHead>, head: ListHead)
    requires Matches(tasks, queue, heads, head)
    ensures |heads| == |queue| + 1 && heads[0] == head && forall t :: t in queue ==> t in tasks
  {
  }

  lemma MatchesWithout(tasks: map<S.Tid, Task>, queue: seq<S.Tid>, heads: seq<ListHead>, head: ListHead, t: S.Tid)
    requires Matches(tasks, queue, heads, head) && t in queue
    ensures var k := S.IndexOf(queue, t) + 1;
            && heads[k] == tasks[t].node
            && Matches(tasks, S.Without(queue, t), heads[..k] + heads[k + 1..], head)
  {
    var k := S.IndexOf(queue, t) + 1;
    var q, r := S.Without(queue, t), heads[..k] + heads[k + 1..];
    forall i | 0 <= i < |q|
      ensures q[i] in tasks && r[i + 1] == tasks[q[i]].node
    {
      var j := if i < k - 1 then i else i + 1;
      assert q[i] == queue[j] && r[i + 1] == heads[j + 1];
    }
  }

  lemma MatchesAppend(tasks: map<S.Tid, Task>, queue: seq<S.Tid>, heads: seq<ListHead>, head: ListHead, t: S.Tid)
    requires Matches(tasks, queue, heads, head) && t in tasks
    ensures Matches(tasks, queue + [t], heads + [tasks[t].node], head)
  {
  }

  lemma MatchesMore(tasks: map<S.Tid, Task>, queue: seq<S.Tid>, heads: seq<ListHead>, head: ListHead, t: S.Tid,
                    task: Task)
    requires Matches(tasks, queue, heads, head) && t !in tasks
    ensures Matches(tasks[t := task], queue, heads, head)
  {
  }

  lemma PickIgnoresSaved(a: S.State, b: S.State)
    requires a.queue == b.queue && a.current == b.current && a.queue != []
    ensures S.Pick(a) == S.Pick(b)
  {
  }

  lemma RingNeighbours(s: seq<ListHead>, k: nat)
    requires Ring(s) && k < |s|
    ensures s[k].next == Succ(s, k) && s[k].prev == Pred(s, k)
  {
  }
}
