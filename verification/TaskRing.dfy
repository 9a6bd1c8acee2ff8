/** Round-robin choice of the next task, as steps over the task table. */
module TaskRing {
  datatype Task = Task(rsp: nat, active: bool)

  /** The ten slots, how many are in use, and which one runs. A halted machine runs none. */
  datatype Sched = Sched(tasks: seq<Task>, count: nat, cur: nat, halted: bool)

  predicate Shape(s: Sched) {
    |s.tasks| == 10 && s.count <= 10 && s.cur < 10 && (s.count > 0 ==> s.cur < s.count) && (s.count == 0 ==> s.cur == 0)
  }

  /** What holds from `Task_Init` on: the current task is active, unless all have left. */
  predicate Good(s: Sched) {
    Shape(s) && s.count > 0 && (!s.halted ==> s.tasks[s.cur].active)
  }

  /** Position `i` of a search that starts after the current task and goes once around. */
  function Around(s: Sched, i: nat): (t: nat)
    requires Shape(s) && i < s.count
    ensures t < s.count
  {
    if s.cur + 1 + i < s.count then s.cur + 1 + i else s.cur + 1 + i - s.count
  }

  datatype Option = None | Some(t: nat)

  /** The first active task from position `i` on. */
  function NextFrom(s: Sched, i: nat): (o: Option)
    requires Shape(s)
    ensures o.Some? ==> o.t < s.count && s.tasks[o.t].active
    decreases s.count - i
  {
    if i >= s.count then None
    else if s.tasks[Around(s, i)].active then Some(Around(s, i))
    else NextFrom(s, i + 1)
  }

  // ---- Steps ----

  function Save(s: Sched, rsp: nat): Sched
    requires Shape(s)
  {
    s.(tasks := s.tasks[s.cur := s.tasks[s.cur].(rsp := rsp)])
  }

  function Leave(s: Sched): Sched
    requires Shape(s)
  {
    s.(tasks := s.tasks[s.cur := s.tasks[s.cur].(active := false)])
  }

  /** `Task_Schedule`, called by the timer with the stack pointer of the running task. */
  function Schedule(s: Sched, rsp: nat): (r: Sched)
    requires Shape(s)
    ensures Shape(r)
  {
    var a := Save(s, rsp);
    match NextFrom(a, 0)
    case Some(t) => a.(cur := t)
    case None => a
  }

  /** `Task_Exit`; when no task is left the machine halts. */
  function Exit(s: Sched): (r: Sched)
    requires Shape(s)
    ensures Shape(r)
  {
    var a := Leave(s);
    match NextFrom(a, 0)
    case Some(t) => a.(cur := t)
    case None => a.(halted := true)
  }

  /** The table part of `Task_Create`. */
  function Create(s: Sched, rsp: nat): (r: Sched)
    requires Shape(s)
    ensures Shape(r)
  {
    if s.count >= 10 then s
    else s.(tasks := s.tasks[s.count := Task(rsp, true)], count := s.count + 1)
  }

  // ---- How far away a task's turn is ----

  /** Active tasks in `[lo, hi)`. */
  function Between(ts: seq<Task>, lo: nat, hi: nat): (n: nat)
    requires hi <= |ts|
    ensures lo < hi && ts[hi - 1].active ==> n > 0
    decreases hi
  {
    if lo >= hi then 0 else Between(ts, lo, hi - 1) + (if ts[hi - 1].active then 1 else 0)
  }

  /** Active tasks after the current one, up to and including `t`. */
  function Ahead(s: Sched, t: nat): nat
    requires Shape(s) && t < s.count
  {
    if t > s.cur then Between(s.tasks, s.cur + 1, t + 1)
    else Between(s.tasks, s.cur + 1, s.count) + Between(s.tasks, 0, t + 1)
  }

  function ActiveCount(s: Sched): nat
    requires Shape(s)
  {
    Between(s.tasks, 0, s.count)
  }

  lemma {:induction false} BetweenSplit(ts: seq<Task>, lo: nat, mid: nat, hi: nat)
    requires lo <= mid <= hi <= |ts|
    ensures Between(ts, lo, hi) == Between(ts, lo, mid) + Between(ts, mid, hi)
    decreases hi
  {
    if mid < hi {
      BetweenSplit(ts, lo, mid, hi - 1);
    }
  }

  lemma {:induction false} BetweenSame(a: seq<Task>, b: seq<Task>, lo: nat, hi: nat)
    requires hi <= |a| == |b| && forall i :: lo <= i < hi ==> a[i].active == b[i].active
    ensures Between(a, lo, hi) == Between(b, lo, hi)
    decreases hi
  {
    if lo < hi {
      BetweenSame(a, b, lo, hi - 1);
    }
  }

  lemma {:induction false} BetweenNone(ts: seq<Task>, lo: nat, hi: nat)
    requires hi <= |ts| && forall i :: lo <= i < hi ==> !ts[i].active
    ensures Between(ts, lo, hi) == 0
    decreases hi
  {
    if lo < hi {
      BetweenNone(ts, lo, hi - 1);
    }
  }

  /** The search skips only inactive tasks: the one it finds is the first ahead. */
  lemma {:induction false} SearchSkipsInactive(s: Sched, i: nat)
    requires Shape(s) && i <= s.count && forall j :: 0 <= j < i ==> !s.tasks[Around(s, j)].active
    ensures NextFrom(s, i).Some? ==> Ahead(s, NextFrom(s, i).t) == 1
    ensures NextFrom(s, i).None? ==> forall t :: 0 <= t < s.count ==> !s.tasks[t].active
    decreases s.count - i
  {
    if i < s.count {
      var t := Around(s, i);
      if s.tasks[t].active {
        FirstAhead(s, i);
      } else {
        SearchSkipsInactive(s, i + 1);
      }
    } else {
      forall t | 0 <= t < s.count
        ensures !s.tasks[t].active
      {
        var j := if t > s.cur then t - s.cur - 1 else t + s.count - s.cur - 1;
        assert Around(s, j) == t;
      }
    }
  }

  lemma FirstAhead(s: Sched, i: nat)
    requires Shape(s) && i < s.count && forall j :: 0 <= j < i ==> !s.tasks[Around(s, j)].active
    requires s.tasks[Around(s, i)].active
    ensures Ahead(s, Around(s, i)) == 1
  {
    var t, c := Around(s, i), s.cur;
    if t > c {
      forall u | c + 1 <= u < t
        ensures !s.tasks[u].active
      {
        assert Around(s, u - c - 1) == u;
      }
      BetweenNone(s.tasks, c + 1, t);
    } else {
      forall u | c + 1 <= u < s.count
        ensures !s.tasks[u].active
      {
        assert Around(s, u - c - 1) == u;
      }
      forall u | 0 <= u < t
        ensures !s.tasks[u].active
      {
        assert Around(s, u + s.count - c - 1) == u;
      }
      BetweenNone(s.tasks, c + 1, s.count);
      BetweenNone(s.tasks, 0, t);
    }
  }

  /** Moving on to the first task ahead brings everyone else one turn closer. */
  lemma MoveOn(s: Sched, next: nat, t: nat)
    requires Shape(s) && next < s.count && t < s.count
    requires s.tasks[next].active && s.tasks[t].active && Ahead(s, next) == 1
    ensures t != next ==> Ahead(s.(cur := next), t) == Ahead(s, t) - 1
    ensures t == next ==> Ahead(s.(cur := next), t) == ActiveCount(s)
    ensures Ahead(s, t) == 1 <==> t == next
  {
    var ts, c, n := s.tasks, s.cur, s.count;
    var lo, a, b := c + 1, next + 1, t + 1;
    BetweenSplit(ts, 0, a, n);
    if next > c {
      BetweenSplit(ts, lo, a, n);
      if t > next {
        BetweenSplit(ts, lo, a, b);
      } else if t > c {
        BetweenSplit(ts, lo, b, a);
        BetweenSplit(ts, 0, lo, b);
      }
    } else {
      if t > c {
        BetweenSplit(ts, lo, b, n);
      } else if t > next {
        BetweenSplit(ts, 0, a, b);
      } else {
        BetweenSplit(ts, 0, b, a);
      }
    }
  }

  // ---- Runs ----

  /** What the running task does to the scheduler: it is interrupted, it exits, or it creates a task. */
  datatype Op = Tick(rsp: nat) | Quit | Spawn(rsp: nat)

  function Do(s: Sched, op: Op): (r: Sched)
    requires Shape(s)
    ensures Shape(r)
  {
    if s.halted then s
    else match op
      case Tick(rsp) => Schedule(s, rsp)
      case Quit => Exit(s)
      case Spawn(rsp) => Create(s, rsp)
  }

  function DoAll(s: Sched, ops: seq<Op>): (r: Sched)
    requires Shape(s)
    ensures Shape(r)
    decreases |ops|
  {
    if ops == [] then s else Do(DoAll(s, ops[..|ops| - 1]), ops[|ops| - 1])
  }

  predicate ActiveTask(s: Sched, t: nat)
    requires Shape(s)
  {
    t < s.count && s.tasks[t].active
  }

  lemma AheadSame(a: Sched, b: Sched, t: nat)
    requires Shape(a) && Shape(b) && a.cur == b.cur && a.count == b.count && t < a.count
    requires forall i :: 0 <= i < a.count && (i != a.cur || t == a.cur) ==> a.tasks[i].active == b.tasks[i].active
    ensures Ahead(a, t) == Ahead(b, t)
  {
    hide Around;
    var c := a.cur;
    if t > c {
      BetweenSame(a.tasks, b.tasks, c + 1, t + 1);
    } else {
      BetweenSame(a.tasks, b.tasks, c + 1, a.count);
      BetweenSame(a.tasks, b.tasks, 0, t + 1);
    }
  }

  /** One interruption or exit brings the turn of every other task exactly one step closer. */
  lemma StepBringsCloser(s: Sched, op: Op, t: nat)
    requires Good(s) && !s.halted && ActiveTask(s, t) && !op.Spawn? && (op.Quit? ==> t != s.cur)
    ensures var r := Do(s, op);
      && Good(r) && !r.halted && ActiveTask(r, t) && r.count == s.count
      && (Ahead(s, t) == 1 <==> r.cur == t)
      && (Ahead(s, t) > 1 ==> Ahead(r, t) == Ahead(s, t) - 1)
      && (r.cur == t ==> Ahead(r, t) == ActiveCount(r))
  {
    var a := if op.Tick? then Save(s, op.rsp) else Leave(s);
    AheadSame(s, a, t);
    SearchSkipsInactive(a, 0);
    var next := NextFrom(a, 0).t;
    MoveOn(a, next, t);
  }

  lemma {:induction false} AheadPositive(s: Sched, t: nat)
    requires Shape(s) && ActiveTask(s, t)
    ensures 1 <= Ahead(s, t) <= ActiveCount(s)
  {
    var c, n := s.cur, s.count;
    if t > c {
      BetweenSplit(s.tasks, 0, c + 1, n);
      BetweenSplit(s.tasks, c + 1, t + 1, n);
    } else {
      BetweenSplit(s.tasks, 0, t + 1, n);
      BetweenSplit(s.tasks, t + 1, c + 1, n);
    }
  }

  /** Task `t` does not exit during the operations. */
  ghost predicate Stays(s: Sched, ops: seq<Op>, t: nat)
    requires Shape(s)
  {
    forall i :: 0 <= i < |ops| && ops[i].Quit? ==> DoAll(s, ops[..i]).cur != t
  }

  lemma StaysPrefix(s: Sched, ops: seq<Op>, t: nat)
    requires Shape(s) && Stays(s, ops, t) && ops != []
    ensures Stays(s, ops[..|ops| - 1], t)
  {
    var front := ops[..|ops| - 1];
    forall i | 0 <= i < |front| && front[i].Quit?
      ensures DoAll(s, front[..i]).cur != t
    {
      assert front[..i] == ops[..i];
    }
  }

  /** A created task comes before `t` when the search for `t` goes past the end of the table. */
  function JoinsAhead(s: Sched, t: nat): nat
    requires Shape(s)
  {
    if s.count < 10 && t <= s.cur then 1 else 0
  }

  /** A new task makes the wait of those behind it one turn longer, and of nobody else. */
  lemma SpawnStep(s: Sched, rsp: nat, t: nat)
    requires Good(s) && !s.halted && ActiveTask(s, t)
    ensures var r := Do(s, Spawn(rsp));
      && Good(r) && !r.halted && ActiveTask(r, t) && r.cur == s.cur
      && Ahead(r, t) == Ahead(s, t) + JoinsAhead(s, t)
  {
    var r := Create(s, rsp);
    if t > s.cur {
      BetweenSame(r.tasks, s.tasks, s.cur + 1, t + 1);
    } else {
      BetweenSame(r.tasks, s.tasks, s.cur + 1, s.count);
      BetweenSame(r.tasks, s.tasks, 0, t + 1);
    }
  }

  /** Interruptions and exits. */
  function Turns(ops: seq<Op>): nat {
    if ops == [] then 0 else Turns(ops[..|ops| - 1]) + (if ops[|ops| - 1].Spawn? then 0 else 1)
  }

  /** Tasks that were created ahead of `t` during the operations. */
  function Joined(s: Sched, ops: seq<Op>, t: nat): nat
    requires Shape(s)
    decreases |ops|
  {
    if ops == [] then 0
    else
      var front, last := ops[..|ops| - 1], ops[|ops| - 1];
      Joined(s, front, t) + if last.Spawn? then JoinsAhead(DoAll(s, front), t) else 0
  }

  /** Turns that `t` still has to wait, by the tasks ahead of it at first and those created since. */
  function Left(s: Sched, ops: seq<Op>, t: nat): int
    requires Shape(s) && t < s.count
  {
    Ahead(s, t) + Joined(s, ops, t) - Turns(ops)
  }

  /** The turn of `t` has not come before the last of the operations. */
  ghost predicate StillWaits(s: Sched, ops: seq<Op>, t: nat)
    requires Shape(s) && t < s.count
  {
    forall i :: 0 <= i < |ops| ==> Left(s, ops[..i], t) > 0
  }

  lemma StillWaitsPrefix(s: Sched, ops: seq<Op>, t: nat)
    requires Shape(s) && t < s.count && StillWaits(s, ops, t) && ops != []
    ensures StillWaits(s, ops[..|ops| - 1], t) && Left(s, ops[..|ops| - 1], t) > 0
  {
    hide Left;
    var front := ops[..|ops| - 1];
    forall i | 0 <= i < |front|
      ensures Left(s, front[..i], t) > 0
    {
      assert front[..i] == ops[..i];
    }
  }

  /**
   * The wait is exact: whatever the others do, including leaving and creating tasks, a task runs
   * after as many interruptions and exits as there were active tasks ahead of it and tasks created
   * ahead of it meanwhile, and not before.
   */
  lemma {:induction false} WaitIsExact(s: Sched, ops: seq<Op>, t: nat)
    requires Good(s) && !s.halted && ActiveTask(s, t) && Stays(s, ops, t) && StillWaits(s, ops, t)
    ensures var r, left := DoAll(s, ops), Left(s, ops, t);
      && Good(r) && !r.halted && ActiveTask(r, t) && left >= 0
      && (left > 0 ==> Ahead(r, t) == left && (Turns(ops) > 0 ==> r.cur != t))
      && (left == 0 ==> r.cur == t && Ahead(r, t) == ActiveCount(r))
    decreases |ops|
  {
    hide Do, Ahead, ActiveCount, JoinsAhead;
    AheadPositive(s, t);
    if ops != [] {
      var front, last := ops[..|ops| - 1], ops[|ops| - 1];
      StaysPrefix(s, ops, t);
      StillWaitsPrefix(s, ops, t);
      WaitIsExact(s, front, t);
      if last.Spawn? {
        SpawnStep(DoAll(s, front), last.rsp, t);
      } else {
        StepBringsCloser(DoAll(s, front), last, t);
      }
    }
  }

  lemma {:induction false} TicksCount(s: Sched, ops: seq<Op>, t: nat)
    requires Shape(s) && t < s.count && forall op :: op in ops ==> op.Tick?
    ensures Turns(ops) == |ops| && Joined(s, ops, t) == 0 && Left(s, ops, t) == Ahead(s, t) - |ops|
    decreases |ops|
  {
    hide Ahead;
    if ops != [] {
      assert ops[|ops| - 1] in ops;
      TicksCount(s, ops[..|ops| - 1], t);
    }
  }

  /** With interruptions only, the wait is the number of active tasks ahead. */
  lemma TicksWait(s: Sched, ops: seq<Op>, t: nat)
    requires Good(s) && !s.halted && ActiveTask(s, t) && |ops| <= Ahead(s, t) && forall op :: op in ops ==> op.Tick?
    ensures var r := DoAll(s, ops);
      && Good(r) && !r.halted && ActiveTask(r, t)
      && (0 < |ops| < Ahead(s, t) ==> r.cur != t)
      && (|ops| == Ahead(s, t) ==> r.cur == t && Ahead(r, t) == ActiveCount(r))
  {
    hide Ahead, Left, DoAll, ActiveCount;
    TicksStay(s, ops, t);
    forall i | 0 <= i < |ops|
      ensures Left(s, ops[..i], t) > 0
    {
      TicksCount(s, ops[..i], t);
    }
    TicksCount(s, ops, t);
    WaitIsExact(s, ops, t);
  }

  /** With only interruptions, nobody's activity changes. */
  lemma {:induction false} TicksKeepActive(s: Sched, ops: seq<Op>)
    requires Shape(s) && !s.halted && forall op :: op in ops ==> op.Tick?
    ensures var r := DoAll(s, ops);
      && !r.halted && r.count == s.count && ActiveCount(r) == ActiveCount(s)
      && forall i :: 0 <= i < 10 ==> r.tasks[i].active == s.tasks[i].active
    decreases |ops|
  {
    if ops != [] {
      TicksKeepActive(s, ops[..|ops| - 1]);
    }
    BetweenSame(DoAll(s, ops).tasks, s.tasks, 0, s.count);
  }

  lemma {:induction false} DoAllConcat(s: Sched, a: seq<Op>, b: seq<Op>)
    requires Shape(s)
    ensures DoAll(s, a + b) == DoAll(DoAll(s, a), b)
    decreases |b|
  {
    hide Do;
    if b == [] {
      assert a + b == a;
    } else {
      assert (a + b)[..|a + b| - 1] == a + b[..|b| - 1];
      DoAllConcat(s, a, b[..|b| - 1]);
    }
  }

  /**
   * Round robin: with `k` active tasks, among any `k` consecutive interruptions every active task
   * is chosen exactly once, namely at the one that its place in the ring says.
   */
  lemma RoundRobin(s: Sched, ops: seq<Op>, t: nat, j: nat)
    requires Good(s) && !s.halted && ActiveTask(s, t)
    requires (forall op :: op in ops ==> op.Tick?) && |ops| == ActiveCount(s) && 1 <= j <= |ops|
    ensures 1 <= Ahead(s, t) <= |ops|
    ensures DoAll(s, ops[..j]).cur == t <==> j == Ahead(s, t)
  {
    hide Do, Ahead, ActiveCount;
    AheadPositive(s, t);
    var w := Ahead(s, t);
    if j <= w {
      TicksWait(s, ops[..j], t);
    } else {
      var mid := DoAll(s, ops[..w]);
      TicksWait(s, ops[..w], t);
      TicksKeepActive(s, ops[..w]);
      assert ops[..j] == ops[..w] + ops[w..j];
      DoAllConcat(s, ops[..w], ops[w..j]);
      TicksWait(mid, ops[w..j], t);
    }
  }

  lemma TicksStay(s: Sched, ops: seq<Op>, t: nat)
    requires Shape(s) && forall op :: op in ops ==> op.Tick?
    ensures Stays(s, ops, t)
  {
    forall i | 0 <= i < |ops|
      ensures ops[i].Tick?
    {
      assert ops[i] in ops;
    }
  }

  /** A task that has left is never chosen again, whatever happens and whoever is created. */
  predicate Gone(s: Sched, t: nat)
    requires Shape(s)
  {
    t < s.count && !s.tasks[t].active && (!s.halted ==> s.cur != t)
  }

  lemma GoneStays(s: Sched, op: Op, rsp: nat, t: nat)
    requires Shape(s) && Gone(s, t)
    ensures Gone(Do(s, op), t)
    ensures Gone(Create(s, rsp), t)
  {
  }
}
