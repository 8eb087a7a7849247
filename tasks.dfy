/**
 * The values the FIFO scheduler moves around: tasks, cores and the wake-up
 * request it hands back to the simulation clock, together with multiset views
 * of "every task held by the cores" and "every task waiting in the queues".
 */
module Tasks {

  /** A unit of work: an identity, a fixed priority (higher is served first)
      and the service time it still needs, in integer ticks. */
  datatype Task = Task(id: nat, priority: int, time: int)

  /** A processing core: idle, or running exactly one task.
      `assign` turns an Idle core into Busy(t); `release` turns it back to Idle. */
  datatype Core = Idle | Busy(task: Task)

  /** What the scheduler returns to the clock: a time at which to call it again,
      or the negative sentinel meaning that no core is busy. */
  datatype Wake = NoWake | WakeAt(time: int)

  /** What a core holds, as a multiset of zero or one task. */
  function Slot(c: Core): multiset<Task>
  {
    if c.Busy? then multiset{c.task} else multiset{}
  }

  /** Every task held by a sequence of cores. */
  function Running(cs: seq<Core>): multiset<Task>
  {
    if |cs| == 0 then multiset{} else Running(cs[..|cs| - 1]) + Slot(cs[|cs| - 1])
  }

  /** Every task waiting in a ladder of queues. */
  function Queued(qs: seq<seq<Task>>): multiset<Task>
  {
    if |qs| == 0 then multiset{} else Queued(qs[..|qs| - 1]) + multiset(qs[|qs| - 1])
  }

  predicate AllBusy(cs: seq<Core>)
  {
    forall j :: 0 <= j < |cs| ==> cs[j].Busy?
  }

  /** No task is held twice. */
  ghost predicate NoDuplicates(m: multiset<Task>)
  {
    forall t :: m[t] <= 1
  }

  /** Replacing one core changes how often any task t is held by exactly
      what the old and the new core hold of t. */
  lemma {:induction false} RunningUpdate(cs: seq<Core>, i: nat, c: Core, t: Task)
    requires i < |cs|
    ensures Running(cs[i := c])[t] + Slot(cs[i])[t] == Running(cs)[t] + Slot(c)[t]
  {
    var n := |cs|;
    assert cs[i := c][..n - 1] == if i == n - 1 then cs[..n - 1] else cs[..n - 1][i := c];
    if i < n - 1 {
      var pre := cs[..n - 1];
      assert pre[i] == cs[i];
      RunningUpdate(pre, i, c, t);
    }
  }

  /** Replacing one queue changes how often any task t waits by exactly
      what the old and the new queue hold of t. */
  lemma {:induction false} QueuedUpdate(qs: seq<seq<Task>>, p: nat, q: seq<Task>, t: Task)
    requires p < |qs|
    ensures Queued(qs[p := q])[t] + multiset(qs[p])[t] == Queued(qs)[t] + multiset(q)[t]
  {
    var n := |qs|;
    assert qs[p := q][..n - 1] == if p == n - 1 then qs[..n - 1] else qs[..n - 1][p := q];
    if p < n - 1 {
      var pre := qs[..n - 1];
      assert pre[p] == qs[p];
      QueuedUpdate(pre, p, q, t);
    }
  }

  /** A task is held by the cores exactly when some core is Busy with it. */
  lemma {:induction false} RunningMember(cs: seq<Core>, t: Task)
    ensures t in Running(cs) <==> exists j :: 0 <= j < |cs| && cs[j] == Busy(t)
  {
    if |cs| > 0 {
      var n := |cs|;
      RunningMember(cs[..n - 1], t);
      if t in Running(cs[..n - 1]) {
        var j :| 0 <= j < n - 1 && cs[..n - 1][j] == Busy(t);
        assert cs[j] == Busy(t);
      }
      if exists j :: 0 <= j < n && cs[j] == Busy(t) {
        var j :| 0 <= j < n && cs[j] == Busy(t);
        if j < n - 1 {
          assert cs[..n - 1][j] == Busy(t);
        }
      }
    }
  }

  /** A task is waiting exactly when it sits in some queue of the ladder. */
  lemma {:induction false} QueuedMember(qs: seq<seq<Task>>, t: Task)
    ensures t in Queued(qs) <==> exists p :: 0 <= p < |qs| && t in qs[p]
  {
    if |qs| > 0 {
      var n := |qs|;
      QueuedMember(qs[..n - 1], t);
      if t in Queued(qs[..n - 1]) {
        var p :| 0 <= p < n - 1 && t in qs[..n - 1][p];
        assert t in qs[p];
      }
      if exists p :: 0 <= p < n && t in qs[p] {
        var p :| 0 <= p < n && t in qs[p];
        if p < n - 1 {
          assert t in qs[..n - 1][p];
        }
      }
    }
  }

  /** While no task is held twice, no two cores run the same task. */
  lemma {:induction false} NoCoreSharing(cs: seq<Core>, i: nat, j: nat)
    requires NoDuplicates(Running(cs))
    requires i < j < |cs| && cs[i].Busy? && cs[j].Busy?
    ensures cs[i].task != cs[j].task
  {
    var n := |cs|;
    var pre := cs[..n - 1];
    if j == n - 1 {
      RunningMember(pre, cs[i].task);
      assert pre[i] == cs[i];
      assert Running(cs)[cs[j].task] == Running(pre)[cs[j].task] + 1;
    } else {
      assert forall t :: Running(pre)[t] <= Running(cs)[t];
      assert pre[i] == cs[i] && pre[j] == cs[j];
      NoCoreSharing(pre, i, j);
    }
  }

  /** Appending a core adds its slot to the held tasks. */
  lemma RunningSnoc(cs: seq<Core>, c: Core)
    ensures Running(cs + [c]) == Running(cs) + Slot(c)
  {
    assert (cs + [c])[..|cs|] == cs;
  }

  /** Adding two balanced equations: if a + f == c and sa + d == sc then
      (a + sa) + (f + d) == c + sc. */
  lemma Combine(a: multiset<Task>, f: multiset<Task>, c: multiset<Task>, sa: multiset<Task>, d: multiset<Task>, sc: multiset<Task>)
    requires a + f == c
    requires sa + d == sc
    ensures (a + sa) + (f + d) == c + sc
  {
    assert forall t :: ((a + sa) + (f + d))[t] == (c + sc)[t] by {
      forall t ensures ((a + sa) + (f + d))[t] == (c + sc)[t] {
        assert (a + f)[t] == c[t];
        assert (sa + d)[t] == sc[t];
      }
    }
  }
}
