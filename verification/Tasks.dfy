/** The scheduler as it runs: a table of ten tasks changed in place. */
module Tasks {
  import opened TaskRing
  import opened TaskContext

  /** Memory that the running code can write. */
  class Ram {
    var words: Memory

    constructor ()
      ensures words == map[]
    {
      words := map[];
    }
  }

  class Scheduler {
    const tasks: array<Task>
    var count: nat
    var cur: nat
    var halted: bool

    ghost function State(): Sched
      reads this, tasks
    {
      Sched(tasks[..], count, cur, halted)
    }

    ghost predicate Valid()
      reads this, tasks
    {
      Shape(State())
    }

    /** The table before `Task_Init`: everything is zero. */
    constructor ()
      ensures Valid() && fresh(tasks) && count == 0 && cur == 0 && !halted
      ensures forall i :: 0 <= i < 10 ==> tasks[i] == Task(0, false)
    {
      tasks := new Task[10](i => Task(0, false));
      count, cur, halted := 0, 0, false;
    }

    /** `Task_Init`: the running code becomes task 0. */
    method Init()
      requires Valid() && !halted
      modifies this, tasks
      ensures Valid() && Good(State()) && count == 1 && cur == 0 && !halted
      ensures tasks[..] == old(tasks[..])[0 := old(tasks[0]).(active := true)]
    {
      count, cur := 1, 0;
      tasks[0] := tasks[0].(active := true);
    }

    /** `Task_Create` */
    method CreateTask(entry: nat, stackTop: nat, ram: Ram)
      requires Valid() && stackTop >= 160
      modifies this`count, tasks, ram
      ensures Valid() && State() == Create(old(State()), stackTop - 160)
      ensures old(count) >= 10 ==> ram.words == old(ram.words)
      ensures old(count) < 10 ==> ram.words == PushAll(old(ram.words), stackTop, FrameOf(Fresh(entry, stackTop)))
      ensures old(count) < 10 ==>
        && FrameAt(ram.words, old(ram.words), stackTop, Cpu(seq(15, i => 0), entry, 0x08, 0x202, stackTop, 0x10))
        && tasks[old(count)] == Task(stackTop - 160, true) && count == old(count) + 1
    {
      hide PushAll, FrameOf, Fresh;
      if count >= 10 {
        return;
      }
      FreshFrame(entry, stackTop);
      var sp := stackTop;
      ghost var vs := FrameOf(Fresh(entry, stackTop));
      sp := sp - 8;
      ram.words := ram.words[sp := 0x10];
      sp := sp - 8;
      ram.words := ram.words[sp := stackTop];
      sp := sp - 8;
      ram.words := ram.words[sp := 0x202];
      sp := sp - 8;
      ram.words := ram.words[sp := 0x08];
      sp := sp - 8;
      ram.words := ram.words[sp := entry];
      PushFive(old(ram.words), stackTop, vs);
      for i := 0 to 15
        invariant sp == stackTop - 40 - 8 * i && unchanged(this) && unchanged(tasks)
        invariant PushAll(ram.words, sp, vs[5 + i..]) == PushAll(old(ram.words), stackTop, vs)
      {
        PushOne(ram.words, sp, vs[5 + i..]);
        sp := sp - 8;
        ram.words := ram.words[sp := 0];
      }
      PushNone(ram.words, sp, vs[20..]);
      SavedFrame(old(ram.words), stackTop, Fresh(entry, stackTop));
      assert Fresh(entry, stackTop) == Cpu(seq(15, i => 0), entry, 0x08, 0x202, stackTop, 0x10) by {
        FreshRegisters(entry, stackTop);
      }
      tasks[count] := Task(sp, true);
      count := count + 1;
    }

    /** `Task_Schedule`: the caller switches to the stack that is returned. */
    method ScheduleTask(rsp: nat) returns (next: nat)
      requires Valid() && !halted
      modifies this`cur, tasks
      ensures Valid() && State() == Schedule(old(State()), rsp) && next == tasks[cur].rsp
    {
      hide NextFrom, Around;
      tasks[cur] := tasks[cur].(rsp := rsp);
      assert State() == Save(old(State()), rsp);
      var i := 0;
      while i < count
        invariant 0 <= i <= count && State() == Save(old(State()), rsp)
        invariant NextFrom(State(), 0) == NextFrom(State(), i)
      {
        SearchStep(State(), i);
        var t := (cur + 1 + i) % count;
        if tasks[t].active {
          cur := t;
          return tasks[cur].rsp;
        }
        i := i + 1;
      }
      SearchDone(State(), i);
      next := rsp;
    }

    /** `Task_Exit`: either another task's stack, or the processor halts. */
    method ExitTask() returns (next: nat)
      requires Valid() && !halted
      modifies this`cur, this`halted, tasks
      ensures Valid() && State() == Exit(old(State()))
      ensures !halted ==> next == tasks[cur].rsp
    {
      hide NextFrom, Around;
      tasks[cur] := tasks[cur].(active := false);
      assert State() == Leave(old(State()));
      var i := 0;
      while i < count
        invariant 0 <= i <= count && State() == Leave(old(State()))
        invariant NextFrom(State(), 0) == NextFrom(State(), i)
      {
        SearchStep(State(), i);
        var t := (cur + 1 + i) % count;
        if tasks[t].active {
          cur := t;
          return tasks[cur].rsp;
        }
        i := i + 1;
      }
      SearchDone(State(), i);
      halted := true;
      next := 0;
    }
  }

  lemma PushFive(m: Memory, top: nat, vs: seq<nat>)
    requires |vs| == 20 && top >= 160
    ensures PushAll(m[top - 8 := vs[0]][top - 16 := vs[1]][top - 24 := vs[2]][top - 32 := vs[3]][top - 40 := vs[4]],
                    top - 40, vs[5..]) == PushAll(m, top, vs)
  {
    PushOne(m, top, vs);
    PushOne(m[top - 8 := vs[0]], top - 8, vs[1..]);
    PushOne(m[top - 8 := vs[0]][top - 16 := vs[1]], top - 16, vs[2..]);
    PushOne(m[top - 8 := vs[0]][top - 16 := vs[1]][top - 24 := vs[2]], top - 24, vs[3..]);
    PushOne(m[top - 8 := vs[0]][top - 16 := vs[1]][top - 24 := vs[2]][top - 32 := vs[3]], top - 32, vs[4..]);
  }

  lemma PushOne(m: Memory, sp: nat, vs: seq<nat>)
    requires vs != [] && 8 * |vs| <= sp
    ensures PushAll(m, sp, vs) == PushAll(m[sp - 8 := vs[0]], sp - 8, vs[1..])
  {
  }

  lemma PushNone(m: Memory, sp: nat, vs: seq<nat>)
    requires vs == []
    ensures PushAll(m, sp, vs) == m
  {
  }

  lemma FreshRegisters(entry: nat, top: nat)
    ensures Fresh(entry, top) == Cpu(seq(15, i => 0), entry, 0x08, 0x202, top, 0x10)
  {
    assert Fresh(entry, top).gprs == seq(15, i => 0);
  }

  lemma FreshFrame(entry: nat, top: nat)
    ensures var vs := FrameOf(Fresh(entry, top));
      vs[..5] == [0x10, top, 0x202, 0x08, entry] && forall i :: 5 <= i < 20 ==> vs[i] == 0
  {
  }

  /** The remainder in the source is the wrap of the search. */
  lemma SearchStep(s: Sched, i: nat)
    requires Shape(s) && i < s.count
    ensures var t := (s.cur + 1 + i) % s.count;
      t < s.count && NextFrom(s, i) == if s.tasks[t].active then Some(t) else NextFrom(s, i + 1)
  {
    var x, n := s.cur + 1 + i, s.count;
    if x < n {
      SmallMod(x, n);
    } else {
      SmallMod(x - n, n);
      assert x % n == (x - n) % n by {
        OneLap(x - n, n);
      }
    }
  }

  lemma SmallMod(x: nat, n: nat)
    requires x < n
    ensures x % n == x
  {
  }

  lemma OneLap(x: nat, n: nat)
    requires x < n
    ensures (x + n) % n == x
  {
    assert (x + n) / n == 1;
  }

  lemma SearchDone(s: Sched, i: nat)
    requires Shape(s) && i >= s.count
    ensures NextFrom(s, i) == None
  {
  }
}
