/**
 * The decision rules of the FIFO scheduler (Fifo::schedule) as functions on
 * values, one per phase, and what they guarantee:
 *   - accounting: charge the elapsed time to every running task and release
 *     the cores whose task has no time left (Aged, Finished);
 *   - reassignment: visit the priority levels from the highest down and, at
 *     each level, the cores in index order; an idle core takes the head of the
 *     level, a core whose task has a lower priority than the level is
 *     preempted (CoreStep, LevelUpTo, PassUpTo, Reassign).
 * The class in fifo.dfy runs these phases as loops over its own state and is
 * proved to compute exactly these functions.
 */
module FifoPolicy {
  import opened Tasks

  // ---------------------------------------------------------------------
  // Accounting of elapsed time
  // ---------------------------------------------------------------------

  /** A running task after `diff` ticks of service. */
  function Charge(t: Task, diff: int): Task
  {
    t.(time := t.time - diff)
  }

  /** A core after accounting: a task whose time reaches zero or less is released. */
  function AgeCore(c: Core, diff: int): Core
  {
    match c
    case Idle => Idle
    case Busy(t) => if Charge(t, diff).time <= 0 then Idle else Busy(Charge(t, diff))
  }

  /** All cores after accounting. */
  function Aged(cs: seq<Core>, diff: int): seq<Core>
  {
    seq(|cs|, i requires 0 <= i < |cs| => AgeCore(cs[i], diff))
  }

  /** A core with its task charged but not released. */
  function ChargeCore(c: Core, diff: int): Core
  {
    if c.Busy? then Busy(Charge(c.task, diff)) else Idle
  }

  /** All cores with their tasks charged but none released yet. */
  function Charged(cs: seq<Core>, diff: int): seq<Core>
  {
    seq(|cs|, i requires 0 <= i < |cs| => ChargeCore(cs[i], diff))
  }

  /** What a core completes during accounting, if anything. */
  function Done(c: Core, diff: int): seq<Task>
  {
    if c.Busy? && Charge(c.task, diff).time <= 0 then [Charge(c.task, diff)] else []
  }

  /** The tasks completed during accounting, in core index order. */
  function Finished(cs: seq<Core>, diff: int): seq<Task>
  {
    if |cs| == 0 then [] else Finished(cs[..|cs| - 1], diff) + Done(cs[|cs| - 1], diff)
  }

  /** Accounting releases exactly the exhausted tasks: completed tasks have no
      time left, every task still running has some, and each still running
      task is the old one with `diff` ticks less. */
  lemma {:induction false} AccountingReleases(cs: seq<Core>, diff: int)
    ensures forall t :: t in Finished(cs, diff) ==> t.time <= 0
    ensures forall j :: 0 <= j < |cs| && Aged(cs, diff)[j].Busy? ==>
      cs[j].Busy? && Aged(cs, diff)[j].task == Charge(cs[j].task, diff) && Aged(cs, diff)[j].task.time > 0
    ensures forall j :: 0 <= j < |cs| && cs[j].Busy? && Aged(cs, diff)[j].Idle? ==> Charge(cs[j].task, diff) in Finished(cs, diff)
  {
    if |cs| > 0 {
      var n := |cs|;
      var pre := cs[..n - 1];
      AccountingReleases(pre, diff);
      assert forall j :: 0 <= j < n - 1 ==> Aged(cs, diff)[j] == Aged(pre, diff)[j];
    }
  }

  /** Accounting one more core adds its slot to the cores still running. */
  lemma AgedSnoc(cs: seq<Core>, diff: int)
    requires |cs| > 0
    ensures Running(Aged(cs, diff)) == Running(Aged(cs[..|cs| - 1], diff)) + Slot(AgeCore(cs[|cs| - 1], diff))
  {
    var n := |cs|;
    assert Aged(cs, diff) == Aged(cs[..n - 1], diff) + [AgeCore(cs[n - 1], diff)];
    RunningSnoc(Aged(cs[..n - 1], diff), AgeCore(cs[n - 1], diff));
  }

  /** Charging one more core adds its charged slot to the charged tasks. */
  lemma ChargedSnoc(cs: seq<Core>, diff: int)
    requires |cs| > 0
    ensures Running(Charged(cs, diff)) == Running(Charged(cs[..|cs| - 1], diff)) + Slot(ChargeCore(cs[|cs| - 1], diff))
  {
    var n := |cs|;
    assert Charged(cs, diff) == Charged(cs[..n - 1], diff) + [ChargeCore(cs[n - 1], diff)];
    RunningSnoc(Charged(cs[..n - 1], diff), ChargeCore(cs[n - 1], diff));
  }

  /** Accounting one more core: the balance for the cores before it extends
      to the whole sequence. */
  lemma AccountingStep(cs: seq<Core>, diff: int)
    requires |cs| > 0
    requires Running(Aged(cs[..|cs| - 1], diff)) + multiset(Finished(cs[..|cs| - 1], diff))
          == Running(Charged(cs[..|cs| - 1], diff))
    ensures Running(Aged(cs, diff)) + multiset(Finished(cs, diff)) == Running(Charged(cs, diff))
  {
    var n := |cs|;
    var pre, last := cs[..n - 1], cs[n - 1];
    AgedSnoc(cs, diff);
    ChargedSnoc(cs, diff);
    assert multiset(Finished(cs, diff)) == multiset(Finished(pre, diff)) + multiset(Done(last, diff));
    assert Slot(AgeCore(last, diff)) + multiset(Done(last, diff)) == Slot(ChargeCore(last, diff));
    Combine(Running(Aged(pre, diff)), multiset(Finished(pre, diff)), Running(Charged(pre, diff)),
            Slot(AgeCore(last, diff)), multiset(Done(last, diff)), Slot(ChargeCore(last, diff)));
  }

  /** Accounting loses no task: the charged tasks are exactly those still
      running plus those completed. */
  lemma {:induction false} AccountingConserves(cs: seq<Core>, diff: int)
    ensures Running(Aged(cs, diff)) + multiset(Finished(cs, diff)) == Running(Charged(cs, diff))
  {
    if |cs| > 0 {
      AccountingConserves(cs[..|cs| - 1], diff);
      AccountingStep(cs, diff);
    }
  }

  // ---------------------------------------------------------------------
  // Reassignment pass
  // ---------------------------------------------------------------------

  /** One core visited at priority `level` with that level's queue `q`.
      An empty queue ends the level; an idle core takes the head; a busy core
      whose task has a lower priority than `level` gives its task back to the
      FRONT of `q` and takes the old head. */
  function CoreStep(level: int, q: seq<Task>, c: Core): (r: (seq<Task>, Core))
    ensures |r.0| <= |q|
    ensures |q| > 0 ==> r.1.Busy?
    ensures c.Busy? ==> r.1.Busy?
    ensures c.Busy? && level <= c.task.priority ==> r == (q, c)
    ensures r != (q, c) ==> |q| > 0 && r.1 == Busy(q[0])
    ensures r != (q, c) && c.Idle? ==> r.0 == q[1..]
    ensures r != (q, c) && c.Busy? ==> c.task.priority < level && r.0 == [c.task] + q[1..]
    ensures |q| > 0 && c.Idle? ==> r == (q[1..], Busy(q[0]))
    ensures |q| > 0 && c.Busy? && c.task.priority < level ==> r == ([c.task] + q[1..], Busy(q[0]))
  {
    if |q| == 0 then (q, c)
    else if c.Idle? then (q[1..], Busy(q[0]))
      else if level > c.task.priority then ([c.task] + q[1..], Busy(q[0]))
      else (q, c)
  }

  /** Visiting one core loses and duplicates no task. */
  lemma CoreStepConserves(level: int, q: seq<Task>, c: Core)
    ensures var r := CoreStep(level, q, c);
      multiset(r.0) + Slot(r.1) == multiset(q) + Slot(c)
  {
    if |q| > 0 {
      assert q == [q[0]] + q[1..];
    }
  }

  /** The state of level `level`'s queue and of the cores after the first `i`
      cores have been visited at that level. */
  function LevelUpTo(level: int, q: seq<Task>, cs: seq<Core>, i: nat): (r: (seq<Task>, seq<Core>))
    requires i <= |cs|
    ensures |r.1| == |cs|
    ensures |r.0| <= |q|
    decreases i
  {
    if i == 0 then (q, cs)
    else
      var prev := LevelUpTo(level, q, cs, i - 1);
      var step := CoreStep(level, prev.0, prev.1[i - 1]);
      (step.0, prev.1[i - 1 := step.1])
  }

  /** Cores not yet visited at a level are unchanged. */
  lemma {:induction false} LevelUntouched(level: int, q: seq<Task>, cs: seq<Core>, i: nat)
    requires i <= |cs|
    ensures forall j :: i <= j < |cs| ==> LevelUpTo(level, q, cs, i).1[j] == cs[j]
    decreases i
  {
    if i > 0 {
      LevelUntouched(level, q, cs, i - 1);
    }
  }

  /** Once a level's queue is empty, visiting further cores changes nothing. */
  lemma {:induction false} LevelStopsWhenEmpty(level: int, q: seq<Task>, cs: seq<Core>, i: nat, n: nat)
    requires i <= n <= |cs|
    requires |LevelUpTo(level, q, cs, i).0| == 0
    ensures LevelUpTo(level, q, cs, n) == LevelUpTo(level, q, cs, i)
    decreases n
  {
    if n > i {
      LevelStopsWhenEmpty(level, q, cs, i, n - 1);
      var prev := LevelUpTo(level, q, cs, n - 1);
      assert prev.1[n - 1 := prev.1[n - 1]] == prev.1;
    }
  }

  /** One more core visited, unfolded: core j is visited after the first j. */
  lemma LevelUnfold(level: int, q: seq<Task>, cs: seq<Core>, i: nat, j: nat)
    requires i == j + 1 && i <= |cs|
    ensures var prev := LevelUpTo(level, q, cs, j);
      var step := CoreStep(level, prev.0, prev.1[j]);
      LevelUpTo(level, q, cs, i).0 == step.0 && LevelUpTo(level, q, cs, i).1 == prev.1[j := step.1]
  {
  }

  /** Visiting core j: the balance of task t between the level's queue and
      the cores after j cores extends to i = j + 1 cores. */
  lemma LevelStep(level: int, q: seq<Task>, cs: seq<Core>, i: nat, j: nat, t: Task)
    requires i == j + 1 && i <= |cs|
    requires Running(LevelUpTo(level, q, cs, j).1)[t] + multiset(LevelUpTo(level, q, cs, j).0)[t] == Running(cs)[t] + multiset(q)[t]
    ensures Running(LevelUpTo(level, q, cs, i).1)[t] + multiset(LevelUpTo(level, q, cs, i).0)[t] == Running(cs)[t] + multiset(q)[t]
  {
    var prev := LevelUpTo(level, q, cs, j);
    var step := CoreStep(level, prev.0, prev.1[j]);
    LevelUnfold(level, q, cs, i, j);
    CoreStepConserves(level, prev.0, prev.1[j]);
    assert multiset(step.0)[t] + Slot(step.1)[t] == multiset(prev.0)[t] + Slot(prev.1[j])[t] by {
      assert (multiset(step.0) + Slot(step.1))[t] == (multiset(prev.0) + Slot(prev.1[j]))[t];
    }
    RunningUpdate(prev.1, j, step.1, t);
  }

  /** A level visit loses and duplicates no task: for every task t, the
      number of copies of t in the level's queue and on the cores is unchanged. */
  lemma {:induction false} LevelConserves(level: int, q: seq<Task>, cs: seq<Core>, i: nat, t: Task)
    requires i <= |cs|
    ensures Running(LevelUpTo(level, q, cs, i).1)[t] + multiset(LevelUpTo(level, q, cs, i).0)[t] == Running(cs)[t] + multiset(q)[t]
    decreases i
  {
    if i > 0 {
      var j := i - 1;
      LevelConserves(level, q, cs, j, t);
      LevelStep(level, q, cs, i, j, t);
    }
  }

  /** A level visit never idles a core, and when it is over either the level's
      queue is empty or every visited core is busy. */
  lemma {:induction false} LevelFills(level: int, q: seq<Task>, cs: seq<Core>, i: nat)
    requires i <= |cs|
    ensures var r := LevelUpTo(level, q, cs, i);
      && (forall j :: 0 <= j < |cs| && cs[j].Busy? ==> r.1[j].Busy?)
      && (|r.0| == 0 || forall j :: 0 <= j < i ==> r.1[j].Busy?)
    decreases i
  {
    if i > 0 {
      LevelFills(level, q, cs, i - 1);
    }
  }

  /** A core whose task has a priority at least `level` is left untouched at that level. */
  lemma {:induction false} LevelKeepsHigherPriority(level: int, q: seq<Task>, cs: seq<Core>, i: nat, j: nat)
    requires i <= |cs| && j < |cs|
    requires cs[j].Busy? && level <= cs[j].task.priority
    ensures LevelUpTo(level, q, cs, i).1[j] == cs[j]
    decreases i
  {
    if i > 0 {
      LevelKeepsHigherPriority(level, q, cs, i - 1, j);
    }
  }

  /** A core whose task has a priority below `level` is preempted when its
      turn comes and the level's queue is not empty: it takes the head of the
      queue as it stands at that moment, and keeps it for the rest of the level. */
  lemma {:induction false} LevelPreempts(level: int, q: seq<Task>, cs: seq<Core>, i: nat, j: nat)
    requires j < i <= |cs|
    requires |LevelUpTo(level, q, cs, j).0| > 0
    requires cs[j].Busy? && cs[j].task.priority < level
    ensures LevelUpTo(level, q, cs, i).1[j] == Busy(LevelUpTo(level, q, cs, j).0[0])
    decreases i
  {
    var h := i - 1;
    LevelUnfold(level, q, cs, i, h);
    if h == j {
      LevelUntouched(level, q, cs, j);
    } else {
      LevelPreempts(level, q, cs, h, j);
    }
  }

  /** A task left in a level's queue came from that queue, or was displaced
      from a core and has a priority strictly below the level. */
  lemma {:induction false} LevelPlacement(level: int, q: seq<Task>, cs: seq<Core>, i: nat)
    requires i <= |cs|
    ensures forall x :: x in LevelUpTo(level, q, cs, i).0 ==> x in q || x.priority < level
    decreases i
  {
    if i > 0 {
      LevelPlacement(level, q, cs, i - 1);
    }
  }

  /** Number of idle cores among the first `j`. */
  function IdleBefore(cs: seq<Core>, j: nat): nat
    requires j <= |cs|
  {
    if j == 0 then 0 else IdleBefore(cs, j - 1) + (if cs[j - 1].Idle? then 1 else 0)
  }

  /** FIFO within a level: when no visited core can be preempted, the idle
      cores, in index order, receive the queue's tasks in queue order, and the
      queue loses exactly that prefix. */
  lemma {:induction false} LevelFifo(level: int, q: seq<Task>, cs: seq<Core>, i: nat)
    requires i <= |cs|
    requires forall j :: 0 <= j < i && cs[j].Busy? ==> level <= cs[j].task.priority
    ensures var r := LevelUpTo(level, q, cs, i);
      var n := if IdleBefore(cs, i) < |q| then IdleBefore(cs, i) else |q|;
      && r.0 == q[n..]
      && forall j :: 0 <= j < i ==>
           r.1[j] == if cs[j].Idle? && IdleBefore(cs, j) < |q| then Busy(q[IdleBefore(cs, j)]) else cs[j]
    decreases i
  {
    if i > 0 {
      LevelFifo(level, q, cs, i - 1);
      var prev := LevelUpTo(level, q, cs, i - 1);
      var m := if IdleBefore(cs, i - 1) < |q| then IdleBefore(cs, i - 1) else |q|;
      LevelUntouched(level, q, cs, i - 1);
      assert prev.1[i - 1] == cs[i - 1];
      if cs[i - 1].Idle? && m < |q| {
        assert prev.0[0] == q[m];
        assert prev.0[1..] == q[m + 1..];
      }
    }
  }

  /** The ladder and the cores after the top `k` levels have been visited. */
  function PassUpTo(minPriority: int, qs: seq<seq<Task>>, cs: seq<Core>, k: nat): (r: (seq<seq<Task>>, seq<Core>))
    requires k <= |qs|
    ensures |r.0| == |qs| && |r.1| == |cs|
    decreases k
  {
    if k == 0 then (qs, cs)
    else
      var prev := PassUpTo(minPriority, qs, cs, k - 1);
      var p := |qs| - k;
      var lv := LevelUpTo(p + minPriority, prev.0[p], prev.1, |prev.1|);
      (prev.0[p := lv.0], lv.1)
  }

  /** Levels not yet visited are unchanged. */
  lemma {:induction false} PassUntouched(minPriority: int, qs: seq<seq<Task>>, cs: seq<Core>, k: nat)
    requires k <= |qs|
    ensures forall p :: 0 <= p < |qs| - k ==> PassUpTo(minPriority, qs, cs, k).0[p] == qs[p]
    decreases k
  {
    if k > 0 {
      PassUntouched(minPriority, qs, cs, k - 1);
    }
  }

  /** The whole reassignment pass, queue index p standing for priority p + minPriority. */
  function Reassign(minPriority: int, qs: seq<seq<Task>>, cs: seq<Core>): (seq<seq<Task>>, seq<Core>)
  {
    PassUpTo(minPriority, qs, cs, |qs|)
  }

  /** One more level visited, unfolded: after j levels, queue p = |qs| - k
      is served at priority `level`. */
  lemma PassUnfold(minPriority: int, qs: seq<seq<Task>>, cs: seq<Core>, k: nat, j: nat, p: nat, level: int)
    requires k == j + 1 && k <= |qs| && p == |qs| - k && level == p + minPriority
    ensures var prev := PassUpTo(minPriority, qs, cs, j);
      var lv := LevelUpTo(level, prev.0[p], prev.1, |prev.1|);
      PassUpTo(minPriority, qs, cs, k).0 == prev.0[p := lv.0] && PassUpTo(minPriority, qs, cs, k).1 == lv.1
  {
  }

  /** Visiting level |qs| - k: the balance of task t between the ladder and
      the cores after j levels extends to k = j + 1 levels. */
  lemma PassStep(minPriority: int, qs: seq<seq<Task>>, cs: seq<Core>, k: nat, j: nat, t: Task)
    requires k == j + 1 && k <= |qs|
    requires Queued(PassUpTo(minPriority, qs, cs, j).0)[t] + Running(PassUpTo(minPriority, qs, cs, j).1)[t] == Queued(qs)[t] + Running(cs)[t]
    ensures Queued(PassUpTo(minPriority, qs, cs, k).0)[t] + Running(PassUpTo(minPriority, qs, cs, k).1)[t] == Queued(qs)[t] + Running(cs)[t]
  {
    var p: nat := |qs| - k;
    var level := p + minPriority;
    var prev := PassUpTo(minPriority, qs, cs, j);
    var lv := LevelUpTo(level, prev.0[p], prev.1, |prev.1|);
    PassUnfold(minPriority, qs, cs, k, j, p, level);
    LevelConserves(level, prev.0[p], prev.1, |prev.1|, t);
    QueuedUpdate(prev.0, p, lv.0, t);
  }

  /** The pass loses and duplicates no task: for every task t, the number of
      copies of t in the ladder and on the cores is unchanged. */
  lemma {:induction false} PassConserves(minPriority: int, qs: seq<seq<Task>>, cs: seq<Core>, k: nat, t: Task)
    requires k <= |qs|
    ensures Queued(PassUpTo(minPriority, qs, cs, k).0)[t] + Running(PassUpTo(minPriority, qs, cs, k).1)[t] == Queued(qs)[t] + Running(cs)[t]
    decreases k
  {
    if k > 0 {
      var j := k - 1;
      PassConserves(minPriority, qs, cs, j, t);
      PassStep(minPriority, qs, cs, k, j, t);
    }
  }

  /** During the pass no core becomes idle, no empty queue gains a task, and
      every visited level ends empty unless all cores are busy. */
  lemma {:induction false} PassFills(minPriority: int, qs: seq<seq<Task>>, cs: seq<Core>, k: nat)
    requires k <= |qs|
    ensures var r := PassUpTo(minPriority, qs, cs, k);
      && (forall j :: 0 <= j < |cs| && cs[j].Busy? ==> r.1[j].Busy?)
      && (forall p :: 0 <= p < |qs| && |qs[p]| == 0 ==> |r.0[p]| == 0)
      && (forall p :: |qs| - k <= p < |qs| ==> |r.0[p]| == 0 || AllBusy(r.1))
    decreases k
  {
    if k > 0 {
      PassFills(minPriority, qs, cs, k - 1);
      PassUntouched(minPriority, qs, cs, k - 1);
      var prev := PassUpTo(minPriority, qs, cs, k - 1);
      var p := |qs| - k;
      LevelFills(p + minPriority, prev.0[p], prev.1, |prev.1|);
    }
  }

  /** Work conservation: after the pass, if some core is idle then every queue is empty. */
  lemma ReassignWorkConserving(minPriority: int, qs: seq<seq<Task>>, cs: seq<Core>)
    ensures var r := Reassign(minPriority, qs, cs);
      (exists j :: 0 <= j < |r.1| && r.1[j].Idle?) ==> forall p :: 0 <= p < |r.0| ==> |r.0[p]| == 0
  {
    PassFills(minPriority, qs, cs, |qs|);
    var r := Reassign(minPriority, qs, cs);
    var n := |qs|;
    assert r.0 == PassUpTo(minPriority, qs, cs, n).0 && r.1 == PassUpTo(minPriority, qs, cs, n).1;
    if j :| 0 <= j < |r.1| && r.1[j].Idle? {
      assert !AllBusy(r.1);
    }
  }

  /** A running task is preempted only by a level strictly above its priority:
      if no non-empty level lies above it, its core keeps it through the pass. */
  lemma {:induction false} PassKeepsHigherPriority(minPriority: int, qs: seq<seq<Task>>, cs: seq<Core>, k: nat, j: nat)
    requires k <= |qs| && j < |cs| && cs[j].Busy?
    requires forall p :: 0 <= p < |qs| && |qs[p]| > 0 ==> p + minPriority <= cs[j].task.priority
    ensures PassUpTo(minPriority, qs, cs, k).1[j] == cs[j]
    decreases k
  {
    if k > 0 {
      PassKeepsHigherPriority(minPriority, qs, cs, k - 1, j);
      PassUntouched(minPriority, qs, cs, k - 1);
      var prev := PassUpTo(minPriority, qs, cs, k - 1);
      var p := |qs| - k;
      if |prev.0[p]| == 0 {
        LevelStopsWhenEmpty(p + minPriority, prev.0[p], prev.1, 0, |prev.1|);
      } else {
        LevelKeepsHigherPriority(p + minPriority, prev.0[p], prev.1, |prev.1|, j);
      }
    }
  }

  /** No queued task sits at a level below its own priority. */
  ghost predicate WellPlaced(minPriority: int, qs: seq<seq<Task>>)
  {
    forall p, x :: 0 <= p < |qs| && x in qs[p] ==> x.priority <= p + minPriority
  }

  /** The pass keeps every queued task at or above its own priority level
      (a displaced task goes to the level that displaced it, which is higher). */
  lemma {:induction false} PassPlacement(minPriority: int, qs: seq<seq<Task>>, cs: seq<Core>, k: nat)
    requires k <= |qs|
    requires WellPlaced(minPriority, qs)
    ensures WellPlaced(minPriority, PassUpTo(minPriority, qs, cs, k).0)
    decreases k
  {
    if k > 0 {
      PassPlacement(minPriority, qs, cs, k - 1);
      var prev := PassUpTo(minPriority, qs, cs, k - 1);
      var p := |qs| - k;
      LevelPlacement(p + minPriority, prev.0[p], prev.1, |prev.1|);
    }
  }

  /** A whole scheduling step loses and duplicates no task: what the ladder and
      the cores hold afterwards, plus what completed, is what they held before
      (running tasks charged with the elapsed time). */
  lemma StepConserves(minPriority: int, qs: seq<seq<Task>>, cs: seq<Core>, diff: int)
    ensures var r := Reassign(minPriority, qs, Aged(cs, diff));
      Queued(r.0) + Running(r.1) + multiset(Finished(cs, diff)) == Queued(qs) + Running(Charged(cs, diff))
  {
    var r := Reassign(minPriority, qs, Aged(cs, diff));
    var lhs := Queued(r.0) + Running(r.1) + multiset(Finished(cs, diff));
    var rhs := Queued(qs) + Running(Charged(cs, diff));
    AccountingConserves(cs, diff);
    forall t ensures lhs[t] == rhs[t] {
      PassConserves(minPriority, qs, Aged(cs, diff), |qs|, t);
      assert (Running(Aged(cs, diff)) + multiset(Finished(cs, diff)))[t] == Running(Charged(cs, diff))[t];
    }
    assert lhs == rhs;
  }

  /** Enqueueing at the tail of one level adds exactly that task to the ladder. */
  lemma EnqueueAddsOne(qs: seq<seq<Task>>, p: nat, t: Task)
    requires p < |qs|
    ensures Queued(qs[p := qs[p] + [t]]) == Queued(qs) + multiset{t}
  {
    var lhs, rhs := Queued(qs[p := qs[p] + [t]]), Queued(qs) + multiset{t};
    assert multiset(qs[p] + [t]) == multiset(qs[p]) + multiset{t};
    forall x ensures lhs[x] == rhs[x] {
      QueuedUpdate(qs, p, qs[p] + [t], x);
    }
    assert lhs == rhs;
  }

  /** A task that completes during accounting is, afterwards, in no queue and
      on no core, provided no task was held twice before. */
  lemma CompletedTasksLeave(minPriority: int, qs: seq<seq<Task>>, cs: seq<Core>, diff: int)
    requires NoDuplicates(Queued(qs) + Running(Charged(cs, diff)))
    ensures var r := Reassign(minPriority, qs, Aged(cs, diff));
      && (forall t :: t in Finished(cs, diff) ==> t !in Queued(r.0) && t !in Running(r.1))
      && (forall t, p :: t in Finished(cs, diff) && 0 <= p < |r.0| ==> t !in r.0[p])
      && (forall t, j :: t in Finished(cs, diff) && 0 <= j < |r.1| ==> r.1[j] != Busy(t))
  {
    StepConserves(minPriority, qs, cs, diff);
    var r := Reassign(minPriority, qs, Aged(cs, diff));
    var held := Queued(qs) + Running(Charged(cs, diff));
    var fin := multiset(Finished(cs, diff));
    assert Queued(r.0) + Running(r.1) + fin == held;
    forall t | t in Finished(cs, diff)
      ensures t !in Queued(r.0) && t !in Running(r.1)
      ensures forall p :: 0 <= p < |r.0| ==> t !in r.0[p]
      ensures forall j :: 0 <= j < |r.1| ==> r.1[j] != Busy(t)
    {
      assert fin[t] >= 1 && held[t] <= 1;
      assert (Queued(r.0) + Running(r.1) + fin)[t] == held[t];
      QueuedMember(r.0, t);
      RunningMember(r.1, t);
    }
  }

  /** The whole pass keeps the multiset of tasks held by the ladder and the cores. */
  lemma ReassignConserves(minPriority: int, qs: seq<seq<Task>>, cs: seq<Core>)
    ensures var r := Reassign(minPriority, qs, cs);
      Queued(r.0) + Running(r.1) == Queued(qs) + Running(cs)
  {
    var r := Reassign(minPriority, qs, cs);
    var n := |qs|;
    assert r.0 == PassUpTo(minPriority, qs, cs, n).0 && r.1 == PassUpTo(minPriority, qs, cs, n).1;
    forall t ensures (Queued(r.0) + Running(r.1))[t] == (Queued(qs) + Running(cs))[t] {
      PassConserves(minPriority, qs, cs, n, t);
    }
  }

  /** The pass never makes a task held twice: if no task was held twice by
      the ladder and the cores before, none is afterwards. */
  lemma PassKeepsNoDuplicates(minPriority: int, qs: seq<seq<Task>>, cs: seq<Core>)
    requires NoDuplicates(Queued(qs) + Running(cs))
    ensures var r := Reassign(minPriority, qs, cs);
      NoDuplicates(Queued(r.0) + Running(r.1))
  {
    var r := Reassign(minPriority, qs, cs);
    ReassignConserves(minPriority, qs, cs);
    forall t ensures (Queued(r.0) + Running(r.1))[t] <= 1 {
      assert (Queued(qs) + Running(cs))[t] <= 1;
    }
  }

  /** No core shares its task with another after the pass, provided no task
      was held twice before it. */
  lemma ReassignNoCoreSharing(minPriority: int, qs: seq<seq<Task>>, cs: seq<Core>, i: nat, j: nat)
    requires NoDuplicates(Queued(qs) + Running(cs))
    requires i < j < |cs|
    requires Reassign(minPriority, qs, cs).1[i].Busy? && Reassign(minPriority, qs, cs).1[j].Busy?
    ensures Reassign(minPriority, qs, cs).1[i].task != Reassign(minPriority, qs, cs).1[j].task
  {
    var r := Reassign(minPriority, qs, cs);
    PassKeepsNoDuplicates(minPriority, qs, cs);
    forall t ensures Running(r.1)[t] <= 1 {
      assert (Queued(r.0) + Running(r.1))[t] <= 1;
    }
    NoCoreSharing(r.1, i, j);
  }

  /** A whole step never makes a task held twice: if no task was held twice
      before (running tasks charged), none is held twice afterwards. */
  lemma StepKeepsNoDuplicates(minPriority: int, qs: seq<seq<Task>>, cs: seq<Core>, diff: int)
    requires NoDuplicates(Queued(qs) + Running(Charged(cs, diff)))
    ensures var r := Reassign(minPriority, qs, Aged(cs, diff));
      NoDuplicates(Queued(r.0) + Running(r.1))
  {
    StepConserves(minPriority, qs, cs, diff);
    var r := Reassign(minPriority, qs, Aged(cs, diff));
    var held := Queued(qs) + Running(Charged(cs, diff));
    forall t ensures (Queued(r.0) + Running(r.1))[t] <= 1 {
      assert (Queued(r.0) + Running(r.1) + multiset(Finished(cs, diff)))[t] == held[t];
    }
  }

  /** The level-p queue is not ordered by priority: a task displaced to the
      front of level 5 is popped again by the next core and preempts a task of
      priority 3 although its own priority is 1. */
  lemma DisplacedTaskPreemptsHigherPriority()
    ensures var a := Task(1, 1, 10);
      var d := Task(2, 3, 10);
      var c := Task(3, 5, 10);
      LevelUpTo(5, [c], [Busy(a), Busy(d)], 2) == ([d], [Busy(c), Busy(a)])
  {
    var a, d, c := Task(1, 1, 10), Task(2, 3, 10), Task(3, 5, 10);
    var cs := [Busy(a), Busy(d)];
    assert LevelUpTo(5, [c], cs, 0) == ([c], cs);
    assert [a] + [c][1..] == [a];
    assert CoreStep(5, [c], Busy(a)) == ([a], Busy(c));
    assert cs[0 := Busy(c)] == [Busy(c), Busy(d)];
    assert LevelUpTo(5, [c], cs, 1) == ([a], [Busy(c), Busy(d)]);
    assert [Busy(c), Busy(d)][1 := Busy(a)] == [Busy(c), Busy(a)];
    assert [d] + [a][1..] == [d];
    assert CoreStep(5, [a], Busy(d)) == ([d], Busy(a));
  }
}
