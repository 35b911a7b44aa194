/** Runs of the process kernel that show where it falls short of what its comments say. */
module Counterexamples {
  import opened Bytes
  import opened Signals
  import opened Pipes
  import opened Processes
  import opened Machine
  import opened Runs
  import opened Kernel
  import opened Grants

  const CODE := 0x40_0000           // the program's code, handlers and trampoline included

  /** One program alone, with a handler for SIG_INT: whether the machine idles, the call the program stands on or the
      handler runs on top of, the keys typed, and the signal fields of its record. */
  ghost predicate Lone(a: Moment, idle: bool, calls: map<nat, Regs>, asleep: map<nat, Regs>, keys: seq<Byte>,
                       pending: set<nat>, active: bool, marked: bool) {
    && a.cur == 0 && a.w.n == 1 && a.w.fg == 0 && !a.w.eof && Has(a.w.tasks, 0)
    && a.idle == idle && a.calls == calls && a.asleep == asleep && a.w.keys == keys
    && var t := a.w.tasks[0].value;
       && t.pgid == 0 && |t.handlers| == MAX_SIGS && t.handlers[SIG_INT] == CODE
       && t.pending == pending && t.active == active && t.interrupted == marked
  }

  /** It asks for a key. */
  function AskKey(): Regs { FirstFrame(CODE).(rax := SYS_READKEY) }

  lemma OnlyZero(a: Moment, i: nat)
    requires Framed(a) && a.w.n == 1 && Has(a.w.tasks, i)
    ensures i == 0
  {
  }

  function NoArgs(saved: Regs): Args { Args([], false, false, 0, saved, 0) }

  /** The program starts and installs the handler. */
  method Arm() returns (s: System)
    ensures fresh(s) && fresh(s.m) && s.Good() && Lone(s.Snap(), false, map[], map[], [], {}, false, false)
  {
    hide Machine.Valid, Sound, IsRun, Framed, Apart, Served, MustWait, OwnOnly, Int32;
    s := new System(CODE, []);
    ghost var a := s.Snap();
    var r := FirstFrame(CODE).(rax := SYS_SIGNAL, rdi := SIG_INT, rsi := CODE, rdx := CODE);
    assert Normal(r) == r;
    s.Call(r, NoArgs(r));
    ghost var x := Reached(a, r);
    assert Serves(x, s.Snap());
    assert Int32(SIG_INT) == SIG_INT by { TwoIsTwo(); }
    s.Look();
  }

  lemma TwoIsTwo()
    ensures Int32(SIG_INT) == SIG_INT
  {
  }

  /** The call the program waits in: no key, nobody else to run. */
  method Ask(s: System)
    requires s.Good() && Lone(s.Snap(), false, map[], map[], [], {}, false, false)
    modifies s, s.m
    ensures s.Good() && Lone(s.Snap(), true, map[0 := AskKey()], map[], [], {}, false, false)
    ensures s.m.tasks[0].value.state == Blocked && s.m.tasks[0].value.regs == Rewound(AskKey())
  {
    hide Machine.Valid, Sound, IsRun, Framed, Apart, Served, OwnOnly, System.Good, StillParked;
    ghost var a := s.Snap();
    assert Normal(AskKey()) == AskKey();
    s.Call(AskKey(), NoArgs(AskKey()));
    ghost var x := Reached(a, AskKey());
    assert Parks(x, s.Snap());
    s.Now0();
  }

  /** Ctrl-C strikes the sleeper. */
  method Break(s: System)
    requires s.Good() && Lone(s.Snap(), true, map[0 := AskKey()], map[], [], {}, false, false)
    requires s.m.tasks[0].value.state == Blocked && s.m.tasks[0].value.regs == Rewound(AskKey())
    modifies s, s.m
    ensures s.Good() && Lone(s.Snap(), true, map[0 := AskKey()], map[], [], {SIG_INT}, false, true)
    ensures s.m.tasks[0].value.state == Ready && s.m.tasks[0].value.regs == Rewound(AskKey())
  {
    hide Machine.Valid, Sound, IsRun, Framed, Apart, System.Good;
    s.Now0();
    ghost var a := s.Snap();
    s.Press(Interrupt(AskKey()));
    EffectNext(Interrupt(AskKey()), a, s.Snap());
    s.Note();
  }

  /** The idle loop goes on: the handler runs on top of the call. */
  method Handle(s: System)
    requires s.Good() && Lone(s.Snap(), true, map[0 := AskKey()], map[], [], {SIG_INT}, false, true)
    requires s.m.tasks[0].value.state == Ready && s.m.tasks[0].value.regs == Rewound(AskKey())
    modifies s, s.m
    ensures s.Good() && Lone(s.Snap(), false, map[], map[0 := AskKey()], [], {}, true, true)
    ensures RangeOk(s.m.tasks[0].value.ctx, FRAME_BYTES)
  {
    hide Machine.Valid, Sound, IsRun, Framed, Apart, System.Good, PickedFrom;
    s.Now0();
    ghost var b := s.Snap();
    assert IsReady(b.w.tasks, 0);
    s.Stir();
    ghost var c := s.Snap();
    EffectNext(Awake(true), b, c);
    OnlyZero(b, s.m.cur);
    s.Note();
    HandlerFits(c);
    s.Look();
  }

  lemma HandlerFits(c: Moment)
    requires Lone(c, false, map[0 := AskKey()], map[], [], {SIG_INT}, false, true) && c.live == Rewound(AskKey())
    ensures Handled(c, SIG_INT) && RangeOk(ContextAt(c.live.rsp % WORD_MOD), FRAME_BYTES)
    ensures forall sig :: IsLowest(c.w.tasks[0].value.pending, sig) <==> sig == SIG_INT
  {
  }

  /** The handler returns without touching the saved frame: the program stands on its call again. */
  method GoOn(s: System)
    requires s.Good() && Lone(s.Snap(), false, map[], map[0 := AskKey()], [], {}, true, true)
    requires RangeOk(s.m.tasks[0].value.ctx, FRAME_BYTES)
    modifies s, s.m
    ensures s.Good() && Lone(s.Snap(), false, map[0 := AskKey()], map[], [], {}, false, true)
  {
    hide Machine.Valid, Sound, IsRun, Framed, Apart, Served, MustWait, OwnOnly, System.Good;
    s.Now0();
    ghost var a := s.Snap();
    BackOnCall(a, 0);
    var r := FirstFrame(CODE).(rax := SYS_SIGRETURN);
    assert Normal(r) == r;
    s.Call(r, NoArgs(Rewound(AskKey())));
    assert Returns(Reached(a, r), s.Snap());
    s.Look();
  }

  /** A key is typed. */
  method Hit(s: System)
    requires s.Good() && Lone(s.Snap(), false, map[0 := AskKey()], map[], [], {}, false, true)
    modifies s, s.m
    ensures s.Good() && Lone(s.Snap(), false, map[0 := AskKey()], map[], [97], {}, false, true)
  {
    hide Machine.Valid, Sound, IsRun, Framed, Apart, System.Good, NoWaiter;
    s.Now0();
    ghost var a := s.Snap();
    s.Alive(a);
    s.Press(KeyDown(AskKey(), 97));
    EffectNext(KeyDown(AskKey(), 97), a, s.Snap());
    s.Note();
  }

  /** The call, made again, takes the key: it is answered, and the mark stays. */
  method Take(s: System)
    requires s.Good() && Lone(s.Snap(), false, map[0 := AskKey()], map[], [97], {}, false, true)
    modifies s, s.m
    ensures s.Good() && Lone(s.Snap(), false, map[], map[], [], {}, false, true)
  {
    hide Machine.Valid, Sound, IsRun, Framed, Apart, System.Good;
    ghost var b := s.Snap();
    s.Call(AskKey(), NoArgs(AskKey()));
    assert Answers(b, s.Snap());
    s.Look();
  }

  /** The next call that has to wait. */
  method AskAgain(s: System) returns (ghost a: Moment)
    requires s.Good() && Lone(s.Snap(), false, map[], map[], [], {}, false, true)
    modifies s, s.m
    ensures s.Good() && a in s.trace && Stale(a, 0) && a.w.tasks[0].value.pending == {}
    ensures Fails(a, s.Snap()) && s.m.live.rax == SYSCALL_ERROR
  {
    hide Machine.Valid, Sound, IsRun, Framed, Apart, System.Good;
    s.Now0();
    ghost var b := s.Snap();
    s.Alive(b);
    s.Call(AskKey(), NoArgs(AskKey()));
    a := Reached(b, AskKey());
    assert Fails(a, s.Snap());
  }

  /** A signal that is long gone cuts a call short: a program was interrupted while it waited for a key, its handler ran
      and returned, the call went on and got its key; the next call that has to wait fails, with no signal pending. */
  method StaleMark() returns (s: System, ghost a: Moment)
    ensures fresh(s) && s.Good() && a in s.trace && Stale(a, 0) && a.w.tasks[0].value.pending == {}
    ensures Fails(a, s.Snap()) && s.m.live.rax == SYSCALL_ERROR
  {
    hide Machine.Valid, Sound, IsRun, Framed, Apart, System.Good, Stale, Fails;
    s := Arm();
    Ask(s);
    Break(s);
    Handle(s);
    GoOn(s);
    Hit(s);
    Take(s);
    a := AskAgain(s);
  }

  /** Two programs in one group with no handlers, the first running and the second about to start, and their signals. */
  ghost predicate Twins(T: Table, pending: set<nat>) {
    && Has(T, 0) && Has(T, 1) && T[0].value.state == Running && T[1].value.state == Ready
    && Bare(T[0].value, pending) && Bare(T[1].value, pending) && T[1].value.regs == FirstFrame(CODE)
  }

  ghost predicate Bare(t: Task, pending: set<nat>) {
    t.pgid == 0 && t.pending == pending && !t.active && |t.handlers| == MAX_SIGS && t.handlers[SIG_INT] == 0
  }

  /** With memory for all that is asked for, the program starts a second one. */
  method StartTwo() returns (m: Machine)
    ensures fresh(m) && m.Valid() && !m.idle && m.cur == 0 && m.n == 2 && m.fg == 0 && m.live.cs == USER_CS
    ensures Twins(m.tasks, {})
  {
    hide Machine.Inv, Machine.Valid, OneRuns, Apart, Inherits, RingsKept, Nudged, Opened;
    m := new Machine(CODE, []);
    m.CurRuns();
    m.SysRun(-1, -1, PGID_INHERIT, true, true, CODE);
  }

  /** Ctrl-C strikes both. */
  method StrikeBoth(m: Machine)
    requires m.Valid() && !m.idle && m.fg == 0 && Twins(m.tasks, {})
    modifies m
    ensures m.Valid() && !m.idle && m.cur == old(m.cur) && m.n == old(m.n) && m.live == old(m.live)
    ensures Twins(m.tasks, {SIG_INT})
  {
    hide Machine.Inv, Machine.Valid, OneRuns, Apart;
    m.CtrlC();
  }

  /** Two programs in one group and a Ctrl-C: the first dies of it on its way out, and the second goes on in ring 3 with
      the same signal waiting for it, unchecked. */
  method Unchecked() returns (m: Machine)
    ensures fresh(m) && m.Valid() && !m.idle && m.cur == 1 && IsZombie(m.tasks, 0)
    ensures m.tasks[0].value.status == 128 + SIG_INT
    ensures Has(m.tasks, 1) && m.live == FirstFrame(CODE) && Deliverable(m.tasks[1].value)
  {
    hide Machine.Inv, Machine.Valid, OneRuns, Apart, Untouched, Handover, Shrunk, FirstFiles, ContextAt, RangeOk;
    m := StartTwo();
    StrikeBoth(m);
    ghost var T := m.tasks;
    OnlyInt();
    var o := m.CheckSignals();
    SecondRuns(T, m);
  }

  lemma OnlyInt()
    ensures IsLowest({SIG_INT}, SIG_INT) && !IsLowest({SIG_INT}, 0)
  {
  }

  lemma SecondRuns(T: Table, m: Machine)
    requires m.Valid() && m.n == 2 && IsReady(T, 1) && Apart(T, m.tasks, 0)
    requires Handover(m.tasks, 2, 0, m.cur, m.idle, m.live) && (!m.idle ==> m.cur != 0)
    ensures !m.idle && m.cur == 1 && Has(m.tasks, 1) && m.live == T[1].value.regs
  {
    hide PickedFrom, Slotted, Counted, Parked, Wooded, Tidy;
    assert Has(m.tasks, 1) && Alike(T[1].value, m.tasks[1].value);
    assert IsReady(m.tasks, 1) || m.tasks[1].value.state == Running;
  }
}
