/**
 * The FIFO scheduler object (class Fifo of the simulation): a ladder of
 * per-priority queues, a fixed array of cores and the time of the previous
 * decision. `Add` enqueues a task; `Schedule` charges elapsed time, releases
 * the cores whose task is exhausted, reassigns cores level by level and
 * returns the time of the next completion.
 */
module FifoScheduler {
  import opened Tasks
  import opened FifoPolicy

  /** Number of priority levels in [minPriority, maxPriority]. */
  function Levels(minPriority: int, maxPriority: int): nat
  {
    if minPriority <= maxPriority then maxPriority - minPriority + 1 else 0
  }

  /** Index of the first smallest element, as std::min_element finds it. */
  method MinElement(s: seq<int>) returns (k: nat)
    requires |s| > 0
    ensures k < |s|
    ensures forall j :: 0 <= j < |s| ==> s[k] <= s[j]
    ensures forall j :: 0 <= j < k ==> s[k] < s[j]
  {
    k := 0;
    var i := 1;
    while i < |s|
      invariant 1 <= i <= |s|
      invariant k < i
      invariant forall j :: 0 <= j < i ==> s[k] <= s[j]
      invariant forall j :: 0 <= j < k ==> s[k] < s[j]
    {
      if s[i] < s[k] {
        k := i;
      }
      i := i + 1;
    }
  }

  class Fifo {
    const minPriority: int
    const maxPriority: int
    const cores: nat
    /** The cores; the array is fixed, its elements change. */
    const cpu: array<Core>
    /** queues[p] holds the waiting tasks of priority level p + minPriority, head first. */
    var queues: seq<seq<Task>>
    /** Time of the previous call to Schedule. */
    var lastTime: int

    ghost predicate Valid()
      reads this
    {
      && cpu.Length == cores
      && |queues| == Levels(minPriority, maxPriority)
      && WellPlaced(minPriority, queues)
    }

    /** Every task the scheduler holds, waiting or running. */
    ghost function Held(): multiset<Task>
      reads this, cpu
    {
      Queued(queues) + Running(cpu[..])
    }

    /** Builds one empty queue per priority level; all cores start idle. */
    constructor (minPriority: int, maxPriority: int, cores: nat)
      ensures Valid() && fresh(cpu)
      ensures this.minPriority == minPriority && this.maxPriority == maxPriority && this.cores == cores
      ensures |queues| == Levels(minPriority, maxPriority)
      ensures forall p :: 0 <= p < |queues| ==> |queues[p]| == 0
      ensures forall i :: 0 <= i < cores ==> cpu[i] == Idle
      ensures lastTime == 0
    {
      this.minPriority := minPriority;
      this.maxPriority := maxPriority;
      this.cores := cores;
      cpu := new Core[cores](_ => Idle);
      lastTime := 0;
      var qs: seq<seq<Task>> := [];
      var i := minPriority;
      while i <= maxPriority
        invariant minPriority <= i
        invariant minPriority <= maxPriority ==> i <= maxPriority + 1
        invariant minPriority > maxPriority ==> i == minPriority
        invariant |qs| == i - minPriority
        invariant forall p :: 0 <= p < |qs| ==> |qs[p]| == 0
      {
        qs := qs + [[]];
        i := i + 1;
      }
      queues := qs;
    }

    /** Appends a task to the tail of its priority level; no core changes. */
    method Add(t: Task)
      requires Valid()
      requires minPriority <= t.priority <= maxPriority
      modifies this
      ensures Valid()
      ensures queues == old(queues)[t.priority - minPriority := old(queues)[t.priority - minPriority] + [t]]
      ensures Held() == old(Held()) + multiset{t}
      ensures cpu[..] == old(cpu[..]) && lastTime == old(lastTime)
    {
      var p := t.priority - minPriority;
      EnqueueAddsOne(queues, p, t);
      queues := queues[p := queues[p] + [t]];
    }

    /** Charges `diff` ticks to every busy core and releases those whose task
        is exhausted; returns the completed tasks in core order. */
    method AccountElapsed(diff: int) returns (completed: seq<Task>)
      requires Valid()
      modifies cpu
      ensures cpu[..] == Aged(old(cpu[..]), diff)
      ensures completed == Finished(old(cpu[..]), diff)
    {
      completed := [];
      var i := 0;
      while i < cores
        invariant 0 <= i <= cores
        invariant forall j :: 0 <= j < i ==> cpu[j] == AgeCore(old(cpu[j]), diff)
        invariant forall j :: i <= j < cores ==> cpu[j] == old(cpu[j])
        invariant completed == Finished(old(cpu[..])[..i], diff)
      {
        if cpu[i].Busy? {
          var t := cpu[i].task;
          t := t.(time := t.time - diff);
          cpu[i] := Busy(t);
          if t.time <= 0 {
            cpu[i] := Idle;
            completed := completed + [t];
          }
        }
        assert old(cpu[..])[..i + 1][..i] == old(cpu[..])[..i];
        i := i + 1;
      }
      assert old(cpu[..])[..cores] == old(cpu[..]);
    }

    /** One level of the reassignment pass: cores in index order, stopping as
        soon as the level's queue is empty. Only queue `p` and the cores change. */
    method ServeLevel(p: nat)
      requires cpu.Length == cores && p < |queues|
      modifies this, cpu
      ensures |queues| == |old(queues)| && queues == old(queues)[p := queues[p]]
      ensures (queues[p], cpu[..]) == LevelUpTo(p + minPriority, old(queues[p]), old(cpu[..]), cores)
      ensures lastTime == old(lastTime)
    {
      ghost var q0, cs0 := queues[p], cpu[..];
      ghost var qs0 := queues;
      var i := 0;
      while i < cores
        invariant 0 <= i <= cores
        invariant |queues| == |qs0| && queues == qs0[p := queues[p]]
        invariant (queues[p], cpu[..]) == LevelUpTo(p + minPriority, q0, cs0, i)
        invariant lastTime == old(lastTime)
      {
        if |queues[p]| == 0 {
          LevelStopsWhenEmpty(p + minPriority, q0, cs0, i, cores);
          break;
        }
        ghost var step := CoreStep(p + minPriority, queues[p], cpu[i]);
        ghost var cs := cpu[..];
        if cpu[i].Idle? {
          // assign directly if the core is free
          var t := queues[p][0];
          queues := queues[p := queues[p][1..]];
          cpu[i] := Busy(t);
        } else if p + minPriority > cpu[i].task.priority {
          // preempt: the displaced task goes to the front of THIS level's queue
          var ta := cpu[i].task;
          var tn := queues[p][0];
          queues := queues[p := queues[p][1..]];
          cpu[i] := Idle;
          queues := queues[p := [ta] + queues[p]];
          cpu[i] := Busy(tn);
        }
        assert queues[p] == step.0 && cpu[..] == cs[i := step.1];
        i := i + 1;
      }
    }

    /** The reassignment pass: levels from the highest down, cores in index order. */
    method Reschedule()
      requires Valid()
      modifies this, cpu
      ensures Valid()
      ensures (queues, cpu[..]) == Reassign(minPriority, old(queues), old(cpu[..]))
      ensures NoDuplicates(old(Held())) ==> NoDuplicates(Held())
      ensures lastTime == old(lastTime)
    {
      ghost var qs0, cs0 := queues, cpu[..];
      var p := maxPriority - minPriority;
      ghost var done: nat := 0;
      while p >= 0
        invariant p < |queues| == |qs0|
        invariant done <= |qs0|
        invariant (|qs0| == 0 && done == 0) || p == |qs0| - 1 - done
        invariant queues == PassUpTo(minPriority, qs0, cs0, done).0 && cpu[..] == PassUpTo(minPriority, qs0, cs0, done).1
        invariant lastTime == old(lastTime)
        invariant cpu.Length == cores
        decreases p
      {
        ghost var next := done + 1;
        ghost var level := p + minPriority;
        PassUnfold(minPriority, qs0, cs0, next, done, p, level);
        if |queues[p]| == 0 {
          LevelStopsWhenEmpty(level, [], cpu[..], 0, cores);
          assert queues[p := []] == queues;
        } else {
          ServeLevel(p);
        }
        p := p - 1;
        done := next;
      }
      PassPlacement(minPriority, qs0, cs0, |qs0|);
      ghost var r := Reassign(minPriority, qs0, cs0);
      assert queues == r.0 && cpu[..] == r.1;
      if NoDuplicates(Queued(qs0) + Running(cs0)) {
        PassKeepsNoDuplicates(minPriority, qs0, cs0);
      }
    }

    /** The time of the next completion: the previous decision time plus the
        least remaining time over the busy cores, or NoWake when none is busy. */
    method NextWake() returns (next: Wake)
      requires Valid()
      ensures next.NoWake? <==> forall j :: 0 <= j < cores ==> cpu[j].Idle?
      ensures next.WakeAt? ==>
        exists j :: 0 <= j < cores && cpu[j].Busy? && next.time == lastTime + cpu[j].task.time
      ensures next.WakeAt? ==>
        forall j :: 0 <= j < cores && cpu[j].Busy? ==> next.time <= lastTime + cpu[j].task.time
    {
      var remaining: seq<int> := [];
      var i := 0;
      while i < cores
        invariant 0 <= i <= cores
        invariant |remaining| == 0 <==> forall j :: 0 <= j < i ==> cpu[j].Idle?
        invariant forall x :: x in remaining ==> exists j :: 0 <= j < i && cpu[j].Busy? && cpu[j].task.time == x
        invariant forall j :: 0 <= j < i && cpu[j].Busy? ==> cpu[j].task.time in remaining
      {
        if cpu[i].Busy? {
          remaining := remaining + [cpu[i].task.time];
        }
        i := i + 1;
      }
      if |remaining| > 0 {
        var k := MinElement(remaining);
        assert remaining[k] in remaining;
        next := WakeAt(lastTime + remaining[k]);
      } else {
        next := NoWake;
      }
    }

    /** One scheduling decision at time `now`. */
    method Schedule(now: int) returns (next: Wake, completed: seq<Task>)
      requires Valid()
      modifies this, cpu
      ensures Valid()
      ensures lastTime == now
      ensures completed == Finished(old(cpu[..]), now - old(lastTime))
      ensures (queues, cpu[..]) == Reassign(minPriority, old(queues), Aged(old(cpu[..]), now - old(lastTime)))
      ensures (exists j :: 0 <= j < cores && cpu[j].Idle?) ==> forall p :: 0 <= p < |queues| ==> |queues[p]| == 0
      ensures next.NoWake? <==> forall j :: 0 <= j < cores ==> cpu[j].Idle?
      ensures next.WakeAt? ==>
        exists j :: 0 <= j < cores && cpu[j].Busy? && next.time == now + cpu[j].task.time
      ensures next.WakeAt? ==>
        forall j :: 0 <= j < cores && cpu[j].Busy? ==> next.time <= now + cpu[j].task.time
    {
      ghost var qs0, cs0 := queues, cpu[..];
      var diff := now - lastTime;
      lastTime := now;
      completed := AccountElapsed(diff);
      Reschedule();
      ghost var r := Reassign(minPriority, qs0, Aged(cs0, diff));
      assert (queues, cpu[..]) == r;
      assert (exists j :: 0 <= j < |r.1| && r.1[j].Idle?) ==> forall p :: 0 <= p < |r.0| ==> |r.0[p]| == 0 by {
        ReassignWorkConserving(minPriority, qs0, Aged(cs0, diff));
      }
      next := NextWake();
    }
  }
}
