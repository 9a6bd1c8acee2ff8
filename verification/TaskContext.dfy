/** What a task switch does to the registers: every task goes on exactly where it was suspended. */
module TaskContext {
  import opened TaskRing

  // ---- Memory and interrupt frames ----

  /** Memory as 8-byte words by address. */
  type Memory = map<nat, nat>

  function Word(m: Memory, a: nat): nat { if a in m then m[a] else 0 }

  /** Registers as the interrupt stub and `iretq` pop them: r15 first, then rax last, then the rest. */
  datatype Cpu = Cpu(gprs: seq<nat>, rip: nat, cs: nat, rflags: nat, rsp: nat, ss: nat)

  predicate CpuOk(c: Cpu) { |c.gprs| == 15 }

  /** Pushing values one after another, the stack growing down from `sp`. */
  function PushAll(m: Memory, sp: nat, vs: seq<nat>): Memory
    requires 8 * |vs| <= sp
    decreases |vs|
  {
    if vs == [] then m else PushAll(m[sp - 8 := vs[0]], sp - 8, vs[1..])
  }

  /** Word `i` of a frame at `rsp`. */
  function FrameWord(m: Memory, rsp: nat, i: nat): nat { Word(m, rsp + 8 * i) }

  /** What the processor holds after the stub's pops and `iretq` with the stack pointer at `rsp`. */
  function Resume(m: Memory, rsp: nat): (c: Cpu)
    ensures CpuOk(c)
  {
    Cpu(seq(15, i requires 0 <= i => FrameWord(m, rsp, i)), FrameWord(m, rsp, 15), FrameWord(m, rsp, 16),
        FrameWord(m, rsp, 17), FrameWord(m, rsp, 18), FrameWord(m, rsp, 19))
  }

  /** What an interrupt and the stub push, in order. */
  function FrameOf(c: Cpu): (vs: seq<nat>)
    requires CpuOk(c)
    ensures |vs| == 20
  {
    [c.ss, c.rsp, c.rflags, c.cs, c.rip] + seq(15, i requires 0 <= i < 15 => c.gprs[14 - i])
  }

  lemma {:induction false} PushedOutside(m: Memory, sp: nat, vs: seq<nat>, a: nat)
    requires 8 * |vs| <= sp && (a < sp - 8 * |vs| || sp <= a)
    ensures Word(PushAll(m, sp, vs), a) == Word(m, a)
    decreases |vs|
  {
    if vs != [] {
      PushedOutside(m[sp - 8 := vs[0]], sp - 8, vs[1..], a);
    }
  }

  lemma {:induction false} PushedInside(m: Memory, sp: nat, vs: seq<nat>, k: nat)
    requires 8 * |vs| <= sp && k < |vs|
    ensures Word(PushAll(m, sp, vs), sp - 8 * (k + 1)) == vs[k]
    decreases |vs|
  {
    if k == 0 {
      PushedOutside(m[sp - 8 := vs[0]], sp - 8, vs[1..], sp - 8);
    } else {
      PushedInside(m[sp - 8 := vs[0]], sp - 8, vs[1..], k - 1);
    }
  }

  /** Popping a pushed frame gives the registers back. */
  lemma ResumeUndoesSave(m: Memory, sp: nat, c: Cpu)
    requires CpuOk(c) && sp >= 160
    ensures Resume(PushAll(m, sp, FrameOf(c)), sp - 160) == c
  {
    hide PushAll, Word;
    var vs := FrameOf(c);
    var n := PushAll(m, sp, vs);
    var low := sp - 160;
    forall i: nat | i < 20
      ensures FrameWord(n, low, i) == vs[19 - i]
    {
      PushedInside(m, sp, vs, 19 - i);
      assert low + 8 * i == sp - 8 * (19 - i + 1);
    }
    assert Resume(n, sp - 160).gprs == c.gprs;
  }

  /**
   * A frame as the processor and the stub lay it out: SS on top, then RSP, RFLAGS, CS and RIP, which
   * `iretq` pops, and below them the fifteen registers, r15 lowest; nothing else changes.
   */
  ghost predicate FrameAt(m: Memory, was: Memory, sp: nat, c: Cpu)
    requires CpuOk(c) && sp >= 160
  {
    && Word(m, sp - 8) == c.ss && Word(m, sp - 16) == c.rsp && Word(m, sp - 24) == c.rflags
    && Word(m, sp - 32) == c.cs && Word(m, sp - 40) == c.rip
    && (forall i: nat :: i < 15 ==> FrameWord(m, sp - 160, i) == c.gprs[i])
    && (forall a: nat :: a < sp - 160 || sp <= a ==> Word(m, a) == Word(was, a))
  }

  lemma SavedFrame(m: Memory, sp: nat, c: Cpu)
    requires CpuOk(c) && sp >= 160
    ensures FrameAt(PushAll(m, sp, FrameOf(c)), m, sp, c)
  {
    hide PushAll, Word;
    var vs := FrameOf(c);
    var n := PushAll(m, sp, vs);
    PushedInside(m, sp, vs, 0);
    PushedInside(m, sp, vs, 1);
    PushedInside(m, sp, vs, 2);
    PushedInside(m, sp, vs, 3);
    PushedInside(m, sp, vs, 4);
    forall i: nat | i < 15
      ensures FrameWord(n, sp - 160, i) == c.gprs[i]
    {
      PushedInside(m, sp, vs, 19 - i);
      assert sp - 160 + 8 * i == sp - 8 * (19 - i + 1);
    }
    forall a: nat | a < sp - 160 || sp <= a
      ensures Word(n, a) == Word(m, a)
    {
      PushedOutside(m, sp, vs, a);
    }
  }

  /** The registers a new task starts with: all zero, at its entry, on its own empty stack. */
  function Fresh(entry: nat, top: nat): (c: Cpu)
    ensures CpuOk(c)
  {
    Cpu(seq(15, i => 0), entry, 0x08, 0x202, top, 0x10)
  }

  // ---- The machine ----

  datatype Machine = Machine(s: Sched, mem: Memory)

  /**
   * What can happen while a task runs: it is interrupted with the registers `cpu`, the frame going
   * to the stack at `sp`; it exits; or it creates a task. `mem` is the memory as it left it.
   */
  datatype Event =
    | Interrupt(mem: Memory, cpu: Cpu, sp: nat)
    | Leaving(mem: Memory)
    | Spawn(mem: Memory, entry: nat, top: nat)

  const Start: Sched := Sched([Task(0, true), Task(0, false), Task(0, false), Task(0, false), Task(0, false),
    Task(0, false), Task(0, false), Task(0, false), Task(0, false), Task(0, false)], 1, 0, false)

  predicate EventOk(e: Event) {
    match e
    case Interrupt(_, cpu, sp) => CpuOk(cpu) && sp >= 160
    case Leaving(_) => true
    case Spawn(_, _, top) => top >= 160
  }

  function Handle(x: Machine, e: Event): (r: Machine)
    requires Shape(x.s) && EventOk(e)
    ensures Shape(r.s)
  {
    if x.s.halted then x
    else match e
      case Interrupt(mem, cpu, sp) => Machine(Schedule(x.s, sp - 160), PushAll(mem, sp, FrameOf(cpu)))
      case Leaving(mem) => Machine(Exit(x.s), mem)
      case Spawn(mem, entry, top) =>
        if x.s.count >= 10 then Machine(x.s, mem)
        else Machine(Create(x.s, top - 160), PushAll(mem, top, FrameOf(Fresh(entry, top))))
  }

  /** The machine after some events, from the moment the first task is set up. */
  function After(evs: seq<Event>): (r: Machine)
    requires forall e :: e in evs ==> EventOk(e)
    ensures Shape(r.s)
  {
    if evs == [] then Machine(Start, map[]) else Handle(After(evs[..|evs| - 1]), evs[|evs| - 1])
  }

  datatype Context = Never | At(cpu: Cpu)

  /** The registers with which task `t` was last suspended, or first set up, by the history alone. */
  function Owed(evs: seq<Event>, t: nat): Context
    requires forall e :: e in evs ==> EventOk(e)
  {
    if evs == [] then Never
    else
      var front, last := evs[..|evs| - 1], evs[|evs| - 1];
      var s := After(front).s;
      if s.halted then Owed(front, t)
      else if last.Interrupt? && t == s.cur then At(last.cpu)
      else if last.Spawn? && t == s.count && s.count < 10 then At(Fresh(last.entry, last.top))
      else Owed(front, t)
  }

  // ---- Tasks keep to their own stacks ----

  ghost predicate SameFrame(a: Memory, b: Memory, rsp: nat) {
    forall i: nat :: i < 20 ==> FrameWord(a, rsp, i) == FrameWord(b, rsp, i)
  }

  predicate Waiting(s: Sched, t: nat)
    requires Shape(s)
  {
    ActiveTask(s, t) && t != s.cur
  }

  /** The frame of a waiting task is left alone, also by a new frame below `top`. */
  ghost predicate LeavesAlone(x: Machine, mem: Memory, top: nat, t: nat)
    requires Shape(x.s) && t < x.s.count
  {
    var rsp := x.s.tasks[t].rsp;
    SameFrame(x.mem, mem, rsp) && (rsp + 160 <= top - 160 || top <= rsp)
  }

  ghost predicate PoliteTo(x: Machine, e: Event, t: nat)
    requires Shape(x.s) && t < x.s.count
  {
    match e
    case Interrupt(mem, _, sp) => LeavesAlone(x, mem, sp, t)
    case Leaving(mem) => SameFrame(x.mem, mem, x.s.tasks[t].rsp)
    case Spawn(mem, _, top) => LeavesAlone(x, mem, top, t)
  }

  ghost predicate Polite(x: Machine, e: Event)
    requires Shape(x.s)
  {
    forall t :: Waiting(x.s, t) ==> PoliteTo(x, e, t)
  }

  ghost predicate PoliteRun(evs: seq<Event>)
    requires forall e :: e in evs ==> EventOk(e)
  {
    evs != [] ==> PoliteRun(evs[..|evs| - 1]) && Polite(After(evs[..|evs| - 1]), evs[|evs| - 1])
  }

  lemma SameFrameResumes(a: Memory, b: Memory, rsp: nat)
    requires SameFrame(a, b, rsp)
    ensures Resume(a, rsp) == Resume(b, rsp)
  {
    hide FrameWord;
    assert Resume(a, rsp).gprs == Resume(b, rsp).gprs;
  }

  lemma PushLeavesFrame(m: Memory, top: nat, vs: seq<nat>, rsp: nat)
    requires |vs| == 20 && top >= 160 && (rsp + 160 <= top - 160 || top <= rsp)
    ensures SameFrame(m, PushAll(m, top, vs), rsp)
  {
    hide PushAll, Word;
    forall i: nat | i < 20
      ensures FrameWord(m, rsp, i) == FrameWord(PushAll(m, top, vs), rsp, i)
    {
      PushedOutside(m, top, vs, rsp + 8 * i);
    }
  }

  lemma {:induction false} RunIsGood(evs: seq<Event>)
    requires forall e :: e in evs ==> EventOk(e)
    ensures Good(After(evs).s)
  {
    if evs != [] {
      var front := evs[..|evs| - 1];
      RunIsGood(front);
    }
  }

  /** The registers that stand in memory for task `t`. */
  function Kept(x: Machine, t: nat): Cpu
    requires Shape(x.s) && t < 10
  {
    Resume(x.mem, x.s.tasks[t].rsp)
  }

  /** Nothing that happens politely changes the frame of a waiting task. */
  lemma WaitingFrameKept(x: Machine, e: Event, t: nat)
    requires Good(x.s) && !x.s.halted && EventOk(e) && Polite(x, e) && Waiting(x.s, t)
    ensures Kept(Handle(x, e), t) == Kept(x, t)
  {
    hide Resume, PushAll, FrameOf, NextFrom, SameFrame;
    var rsp := x.s.tasks[t].rsp;
    assert PoliteTo(x, e, t);
    SameFrameResumes(x.mem, e.mem, rsp);
    match e
    case Interrupt(mem, cpu, sp) =>
      PushLeavesFrame(mem, sp, FrameOf(cpu), rsp);
      SameFrameResumes(mem, PushAll(mem, sp, FrameOf(cpu)), rsp);
    case Leaving(mem) =>
    case Spawn(mem, entry, top) =>
      PushLeavesFrame(mem, top, FrameOf(Fresh(entry, top)), rsp);
      SameFrameResumes(mem, PushAll(mem, top, FrameOf(Fresh(entry, top))), rsp);
  }

  /** An interrupted task leaves its registers, a new one gets fresh ones. */
  lemma FrameMade(x: Machine, e: Event)
    requires Good(x.s) && !x.s.halted && EventOk(e)
    ensures e.Interrupt? ==> Kept(Handle(x, e), x.s.cur) == e.cpu
    ensures e.Spawn? && x.s.count < 10 ==> Kept(Handle(x, e), x.s.count) == Fresh(e.entry, e.top)
  {
    hide Resume, PushAll, FrameOf, NextFrom, Fresh;
    if e.Interrupt? {
      ResumeUndoesSave(e.mem, e.sp, e.cpu);
    } else if e.Spawn? {
      ResumeUndoesSave(e.mem, e.top, Fresh(e.entry, e.top));
    }
  }

  /** Who can be waiting, or have been switched to, after an event. */
  lemma WhoWaits(x: Machine, e: Event, t: nat)
    requires Good(x.s) && !x.s.halted && EventOk(e)
    requires Waiting(Handle(x, e).s, t) || (t == Handle(x, e).s.cur && !Handle(x, e).s.halted && !e.Spawn?)
    ensures Waiting(x.s, t) || (e.Interrupt? && t == x.s.cur) || (e.Spawn? && t == x.s.count < 10)
  {
    hide PushAll, FrameOf;
  }

  predicate SwitchedTo(evs: seq<Event>, t: nat)
    requires forall e :: e in evs ==> EventOk(e)
  {
    evs != [] && !evs[|evs| - 1].Spawn? && t == After(evs).s.cur
  }

  /** Every task that waits, and the one just switched to, has its own last registers in its frame. */
  lemma {:induction false} FramesAreOwed(evs: seq<Event>, t: nat)
    requires (forall e :: e in evs ==> EventOk(e)) && PoliteRun(evs) && !After(evs).s.halted
    requires Waiting(After(evs).s, t) || SwitchedTo(evs, t)
    ensures t < 10 && Owed(evs, t) == At(Kept(After(evs), t))
  {
    hide Kept, Handle, Polite, Fresh;
    if evs != [] {
      var front, e := evs[..|evs| - 1], evs[|evs| - 1];
      var x := After(front);
      assert e in evs && forall d :: d in front ==> d in evs;
      RunIsGood(front);
      HaltedStays(x, e);
      WhoWaits(x, e, t);
      FrameMade(x, e);
      if Waiting(x.s, t) {
        FramesAreOwed(front, t);
        WaitingFrameKept(x, e, t);
      }
    }
  }

  lemma HaltedStays(x: Machine, e: Event)
    requires Shape(x.s) && EventOk(e)
    ensures x.s.halted ==> Handle(x, e) == x
  {
  }

  /**
   * Context conservation: in every run in which tasks leave each other's saved frames alone, the
   * task that a switch turns to is active and continues with exactly the registers it last had, or
   * the fresh ones of its creation.
   */
  lemma ContextConserved(evs: seq<Event>, e: Event)
    requires (forall d :: d in evs + [e] ==> EventOk(d)) && PoliteRun(evs + [e]) && !e.Spawn?
    ensures var x := After(evs + [e]);
      !x.s.halted ==> x.s.tasks[x.s.cur].active && Owed(evs + [e], x.s.cur) == At(Kept(x, x.s.cur))
  {
    hide Owed, PoliteRun, Kept, Handle;
    var all := evs + [e];
    RunIsGood(all);
    if !After(all).s.halted {
      FramesAreOwed(all, After(all).s.cur);
    }
  }

  /** A task that has exited never runs again. */
  lemma {:induction false} ExitedNeverRuns(evs: seq<Event>, mem: Memory, more: seq<Event>)
    requires (forall e :: e in evs ==> EventOk(e)) && (forall e :: e in more ==> EventOk(e))
    requires !After(evs).s.halted
    ensures var t, x := After(evs).s.cur, After(evs + [Leaving(mem)] + more);
      Gone(x.s, t)
    decreases |more|
  {
    hide Handle;
    var t, first := After(evs).s.cur, evs + [Leaving(mem)];
    RunIsGood(evs);
    assert first[..|first| - 1] == evs;
    if more == [] {
      assert first + more == first;
      ExitLeaves(After(evs), mem);
    } else {
      var front := more[..|more| - 1];
      ExitedNeverRuns(evs, mem, front);
      var all := first + more;
      assert all[..|all| - 1] == first + front;
      StepKeepsGone(After(first + front), all[|all| - 1], t);
    }
  }

  lemma StepKeepsGone(x: Machine, e: Event, t: nat)
    requires Shape(x.s) && Gone(x.s, t) && EventOk(e)
    ensures Gone(Handle(x, e).s, t)
  {
    hide PushAll;
    GoneStays(x.s, Tick(if e.Interrupt? then e.sp - 160 else 0), if e.Spawn? then e.top - 160 else 0, t);
    GoneStays(x.s, Quit, 0, t);
  }

  lemma ExitLeaves(x: Machine, mem: Memory)
    requires Good(x.s) && !x.s.halted
    ensures Gone(Handle(x, Leaving(mem)).s, x.s.cur)
  {
  }
}
