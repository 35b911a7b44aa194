/** The process kernel driven from outside: programs trapping into it, the timer, the keyboard, and the idle loop,
    in any order and for as long as one likes. */
module Kernel {
  import opened Bytes
  import opened Signals
  import opened Pipes
  import opened Processes
  import opened Machine
  import opened Runs
  import opened Grants

  /** What a trap brings that the frame alone does not say: the bytes a write points at, how loading a program goes, the
      words at the saved context, and the answer of a call that touches none of this. */
  datatype Args = Args(buffer: seq<Byte>, named: bool, loaded: bool, entry: nat, saved: Regs, answer: nat)

  /** `r` is the frame the running program has reached when the event comes. */
  datatype Event =
    | Trap(r: Regs, a: Args)
    | Timer(r: Regs)
    | KeyDown(r: Regs, c: Byte)
    | Interrupt(r: Regs)
    | EndOfInput(r: Regs)
    | Awake(look: bool)

  /** A frame as the processor makes it when it leaves ring 3: its selectors, and interrupts on, which a program cannot
      turn off. */
  function Normal(r: Regs): (q: Regs)
    ensures q.rip < WORD_MOD && UserFrame(q) && (r.rip < WORD_MOD && UserFrame(r) ==> q == r)
  {
    FlagsTwice(r.rflags);
    Restored(r).(rip := r.rip % WORD_MOD)
  }

  function Fit(b: seq<Byte>, n: nat): (s: seq<Byte>)
    ensures |s| == n && (|b| == n ==> s == b)
  {
    seq(n, i requires 0 <= i < n => if i < |b| then b[i] else 0)
  }

  /** The first moment: one program, about to start, and nothing typed or waiting. */
  ghost predicate Boot(a: Moment) {
    && a.cur == 0 && !a.idle && a.w.n == 1 && a.w.keys == [] && !a.w.eof && a.w.pipes == map[] && a.w.fg == 0
    && a.live == FirstFrame(a.live.rip) && Has(a.w.tasks, 0) && a.calls == map[] && a.asleep == map[] && a.io == []
    && a.w.tasks[0].value == NewTask(a.live.rip, 1, NO_PARENT, 0).(state := Running, fds := a.w.tasks[0].value.fds)
  }

  /** Where the running program is when the event comes: one that stands on its call gets no further. */
  ghost function Reached(a: Moment, r: Regs): Moment { if a.cur in a.calls then a else a.(live := Normal(r)) }

  /** The calls on files and memory, which answer and touch nothing here. */
  predicate Elsewhere(num: nat) {
    !Blocks(num) && num != SYS_EXIT && num != SYS_RUN && num != SYS_CLOSE && num != SYS_PIPE && num != SYS_SIGNAL
    && num != SYS_KILL
    && num != SYS_SIGRETURN && num != SYS_SETFG
  }

  /** What the trap brought is what the call used: the bytes to write, the frame to return to, the program to run. */
  ghost predicate Brought(g: Args, a: Moment, b: Moment) {
    var f := Entry(a);
    && (f.rax == SYS_WRITE && !MustWait(a.w, a.cur, f) ==> b.io == Fit(g.buffer, Least(f.rdx, IO_MAX)))
    && (f.rax == SYS_SIGRETURN && MayReturn(a) ==> b.live == Restored(g.saved))
    && (f.rax == SYS_RUN ==> Started(g, a.w, b.w, a.cur, f, b.live.rax))
    && (Elsewhere(f.rax) ==> b.live.rax == g.answer)
  }

  /** SYS_RUN succeeds exactly when the program can be read and loaded and the kernel has room for it. */
  ghost predicate Started(g: Args, w: World, w': World, c: nat, r: Regs, ans: nat) {
    && (ans != SYSCALL_ERROR <==>
        g.named && g.loaded && MayRun(w, c, Int32(r.rsi), Int32(r.rdx), r.rcx % 0x1_0000_0000))
    && (ans != SYSCALL_ERROR ==> Has(w'.tasks, w.n) && w'.tasks[w.n].value.regs == FirstFrame(g.entry))
  }

  /** What the kernel does about an event, up to the check for signals. */
  ghost predicate Effect(e: Event, a: Moment, b: Moment) {
    match e
    case Trap(_, g) => Trapped(a, b) && Brought(g, a, b)
    case Timer(_) => Ticked(a, b)
    case KeyDown(_, c) => KeyIn(a, b, c)
    case Interrupt(_) => BreakIn(a, b)
    case EndOfInput(_) => EndIn(a, b)
    case Awake(_) => Resumed(a, b)
  }

  /** The check for signals comes last, unless the kernel entry ends in the idle loop or has no such check. */
  ghost predicate Ended(t: seq<Moment>, k: nat, look: bool) {
    k < |t| && if !look || t[k].idle then |t| == k + 1 else |t| == k + 2 && Looked(t[k], t[k + 1])
  }

  /** Event `e` made the run `t` of the run `t0`: the program got as far as it got, the kernel did what it does, and
      then checked for signals. In the idle loop there is nobody to trap or to preempt. */
  ghost predicate Played(e: Event, t0: seq<Moment>, t: seq<Moment>) {
    && t0 != [] && t0 <= t
    && var a := t0[|t0| - 1];
       if a.idle then
         if e.Trap? || e.Timer? then t == t0
         else |t0| < |t| && Effect(e, a, t[|t0|]) && Ended(t, |t0|, e.Awake? && e.look)
       else if e.Awake? then t == t0
       else
         var k := if a.cur in a.calls then |t0| else |t0| + 1;
         k < |t| && t[k - 1] == Reached(a, e.r) && Effect(e, t[k - 1], t[k]) && Ended(t, k, true)
  }

  /** The events `es`, one after another, made the run `t` of the run `t0`. */
  ghost predicate Plays(es: seq<Event>, t0: seq<Moment>, t: seq<Moment>) {
    if es == [] then t == t0
    else
      var front, e := es[..|es| - 1], es[|es| - 1];
      exists u :: Plays(front, t0, u) && Played(e, u, t)
  }

  /** An event that finds a program running: where it got to, what the kernel did, and the check for signals. */
  ghost function Course(t0: seq<Moment>, x: Moment, b: Moment, c: Moment): seq<Moment>
    requires t0 != []
  {
    (if x.cur in x.calls then t0 else t0 + [x]) + [b] + (if b.idle then [] else [c])
  }

  lemma EffectNext(e: Event, a: Moment, b: Moment)
    requires Effect(e, a, b)
    ensures Next(a, b)
  {
    hide Trapped, Ticked, Resumed, KeyIn, EndIn, BreakIn, Ran, Looked;
  }

  lemma CoursePlayed(e: Event, t0: seq<Moment>, a: Moment, x: Moment, b: Moment, c: Moment)
    requires t0 != [] && a == t0[|t0| - 1] && !a.idle && !e.Awake? && x == Reached(a, e.r) && Effect(e, x, b)
    requires (!b.idle ==> Looked(b, c))
    ensures Played(e, t0, Course(t0, x, b, c))
  {
    hide Effect, Looked;
    var t := Course(t0, x, b, c);
    var k := if a.cur in a.calls then |t0| else |t0| + 1;
    assert t[k - 1] == x && t[k] == b && (!b.idle ==> t[k + 1] == c);
    assert t0 <= t;
  }

  /** The same in the idle loop. */
  lemma IdlePlayed(e: Event, t0: seq<Moment>, a: Moment, b: Moment, c: Moment)
    requires t0 != [] && a == t0[|t0| - 1] && a.idle && !e.Trap? && !e.Timer? && Effect(e, a, b)
    requires e.Awake? && e.look && !b.idle ==> Looked(b, c)
    ensures Played(e, t0, t0 + [b] + if e.Awake? && e.look && !b.idle then [c] else [])
  {
    hide Effect, Looked;
    var t := t0 + [b] + if e.Awake? && e.look && !b.idle then [c] else [];
    assert t[|t0|] == b && (e.Awake? && e.look && !b.idle ==> t[|t0| + 1] == c);
  }

  class System {
    const m: Machine
    var calls: map<nat, Regs>         // by task, the frame of the call it stands on
    var asleep: map<nat, Regs>        // by task, the frame of the call a handler runs on top of
    ghost var io: seq<Byte>           // what the last call that was answered moved
    ghost var trace: seq<Moment>      // every moment since the start

    ghost function Snap(): Moment
      reads this, m
    {
      Moment(m.Now(), m.cur, m.idle, m.live, calls, asleep, io)
    }

    /** The kernel's invariants hold, and all that happened so far is a run that ends here. */
    ghost predicate Good()
      reads this, m
    {
      m.Valid() && trace != [] && Boot(trace[0]) && trace[|trace| - 1] == Snap() && IsRun(trace)
    }

    constructor (entry: nat, grants: seq<bool>)
      ensures Good() && trace == [Snap()] && fresh(m) && m.live == FirstFrame(entry) && Boot(Snap())
      ensures m.grants == grants
    {
      hide Machine.Inv, OneRuns, Sound, IsRun;
      m := new Machine(entry, grants);
      calls, asleep, io := map[], map[], [];
      new;
      trace := [Snap()];
      Began();
      First([Snap()]);
    }

    lemma Began()
      requires m.Valid() && !m.idle && m.n == 1 && m.cur == 0 && UserFrame(m.live) && calls == map[] && asleep == map[]
      ensures Sound(Snap())
    {
      forall i ensures Has(m.tasks, i) ==> i == 0 {}
      Shape();
    }

    lemma First(tr: seq<Moment>)
      requires |tr| == 1 && Sound(tr[0])
      ensures IsRun(tr)
    {
    }

    lemma Shape()
      requires m.Valid()
      ensures Framed(Snap())
    {
    }

    /** What has just happened goes on record. */
    ghost method Note()
      requires m.Valid() && trace != [] && Boot(trace[0]) && Next(trace[|trace| - 1], Snap()) && IsRun(trace)
      modifies `trace
      ensures Good() && trace == old(trace) + [Snap()]
    {
      hide Machine.Valid, Next, Framed, IsRun;
      Shape();
      RunOn(trace, Snap());
      Longer(trace);
      trace := trace + [Snap()];
    }

    lemma Size()
      requires Framed(Snap())
      ensures |m.tasks| == MAX_TASKS && m.cur < MAX_TASKS
    {
    }

    lemma Longer(tr: seq<Moment>)
      requires IsRun(tr)
      ensures tr != []
    {
    }

    lemma Now0()
      requires Good()
      ensures trace != [] && Sound(Snap()) && m.Valid() && Boot(trace[0]) && Snap() == trace[|trace| - 1]
      ensures IsRun(trace) && Framed(Snap())
    {
    }

    /** The program runs on until an interrupt comes. */
    method Reach(r: Regs)
      requires Good() && !m.idle
      modifies m`live, `trace
      ensures Good() && Snap() == Reached(old(Snap()), r)
      ensures trace == if m.cur in calls then old(trace) else old(trace) + [Snap()]
    {
      hide Machine.Inv, OneRuns, IsRun, Boot;
      if m.cur !in calls {
        m.Arrive(Normal(r));
        Longer(trace);
        assert Ran(trace[|trace| - 1], Snap());
        Note();
      }
    }

    /** One of the calls that may wait. */
    method Blocking(a: Args) returns (bytes: seq<Byte>)
      requires m.Valid() && !m.idle && Blocks(m.live.rax)
      modifies m
      ensures m.Valid() && Apart(old(m.tasks), m.tasks, old(m.cur))
      ensures old(m.live).rax == SYS_WRITE ==> bytes == Fit(a.buffer, Least(old(m.live).rdx, IO_MAX))
      ensures if MustWait(old(m.Now()), old(m.cur), old(m.live))
              then Held(old(m.Now()), m.Now(), old(m.cur), old(m.live), Reason(old(m.Now()), old(m.cur), old(m.live)),
                        m.cur, m.idle, m.live)
              else Served(old(m.Now()), m.Now(), old(m.cur), old(m.live), bytes, m.live.rax)
                   && m.cur == old(m.cur) && !m.idle && m.live == old(m.live).(rax := m.live.rax)
    {
      hide Machine.Inv, OneRuns, Apart, Held, ReadServed, WriteServed, WaitServed;
      bytes := [];
      if m.live.rax == SYS_READKEY {
        m.SysReadKey();
      } else if m.live.rax == SYS_READ {
        bytes := m.SysRead();
      } else if m.live.rax == SYS_WRITE {
        bytes := Fit(a.buffer, Least(m.live.rdx, IO_MAX));
        m.SysWrite(bytes);
      } else {
        bytes := m.SysWait();
      }
    }

    /** The call a trap makes, by a program that stands on one that very call. */
    method Attempt(a: Args) returns (f: Regs, bytes: seq<Byte>)
      requires m.Valid() && Sound(Snap()) && !m.idle && Blocks(Entry(Snap()).rax)
      modifies m
      ensures m.Valid() && f == old(Entry(Snap())) && Apart(old(m.tasks), m.tasks, old(m.cur))
      ensures f.rax == SYS_WRITE ==> bytes == Fit(a.buffer, Least(f.rdx, IO_MAX))
      ensures if MustWait(old(m.Now()), old(m.cur), f)
              then Held(old(m.Now()), m.Now(), old(m.cur), f, Reason(old(m.Now()), old(m.cur), f), m.cur, m.idle,
                        m.live)
              else Served(old(m.Now()), m.Now(), old(m.cur), f, bytes, m.live.rax)
                   && m.cur == old(m.cur) && !m.idle && m.live == f.(rax := m.live.rax)
    {
      hide Machine.Valid, Machine.Inv, MustWait, Served, Apart, Sound, Reason, Held;
      if m.cur in calls {
        Rearm();
        m.Arrive(Reissued(m.live));
      }
      f := m.live;
      bytes := Blocking(a);
    }

    /** The call attempted is booked: a caller that sleeps stands on it, and what an answered one moved is kept. */
    method Book(a: Args, c: nat, f: Regs, bytes: seq<Byte>, ghost A: Moment)
      requires m.Valid() && calls == A.calls && asleep == A.asleep && io == A.io
      requires Framed(A) && !A.idle && c == A.cur < MAX_TASKS && f == Entry(A) && Blocks(f.rax) && f.rip < WORD_MOD
      requires Apart(A.w.tasks, m.tasks, c) && (f.rax == SYS_WRITE ==> bytes == Fit(a.buffer, Least(f.rdx, IO_MAX)))
      requires if MustWait(A.w, c, f) then Held(A.w, m.Now(), c, f, Reason(A.w, c, f), m.cur, m.idle, m.live)
               else Served(A.w, m.Now(), c, f, bytes, m.live.rax)
                    && m.cur == c && !m.idle && m.live == f.(rax := m.live.rax)
      modifies `calls, `io
      ensures Next(A, Snap()) && Brought(a, A, Snap())
      ensures Answers(A, Snap()) || Fails(A, Snap()) || Parks(A, Snap())
    {
      hide Machine.Valid, Machine.Inv, MustWait, Served, Apart, Reason, Held, Answers, Fails, Parks, Next, Framed,
           Brought;
      Shape();
      Size();
      if m.tasks[c].Some? && m.tasks[c].value.state == Blocked {
        calls := calls[c := f];
      } else {
        calls := calls - {c};
      }
      io := if MustWait(A.w, c, f) then io else bytes;
      Shape();
      Concluded(A, Snap());
      Carries(a, A, bytes);
    }

    /** A call that may wait either finds what it needs and happens as one step, with the frame it was first made with,
        or changes nothing shared and the caller stands on it, or fails. */
    method Conduct(a: Args)
      requires m.Valid() && Sound(Snap()) && !m.idle && Blocks(Entry(Snap()).rax) && Entry(Snap()).rip < WORD_MOD
      modifies m, `calls, `io
      ensures m.Valid() && Next(old(Snap()), Snap()) && Brought(a, old(Snap()), Snap())
      ensures Answers(old(Snap()), Snap()) || Fails(old(Snap()), Snap()) || Parks(old(Snap()), Snap())
    {
      hide Machine.Valid, Machine.Inv, OneRuns, MustWait, Served, Apart, Sound, Reason, Held, Answers, Fails, Parks,
           Next, Framed, Brought;
      ghost var A := Snap();
      Shape();
      Size();
      var c := m.cur;
      var f, bytes := Attempt(a);
      Book(a, c, f, bytes, A);
    }

    lemma Carries(a: Args, A: Moment, bytes: seq<Byte>)
      requires Blocks(Entry(A).rax) && io == if MustWait(A.w, A.cur, Entry(A)) then A.io else bytes
      requires Entry(A).rax == SYS_WRITE ==> bytes == Fit(a.buffer, Least(Entry(A).rdx, IO_MAX))
      ensures Brought(a, A, Snap())
    {
      hide MustWait, Started, MayReturn;
    }

    /** A program that stands on its call makes it again, to the letter. */
    lemma Rearm()
      requires Sound(Snap()) && !m.idle && m.cur in calls
      ensures Reissued(m.live) == Entry(Snap())
    {
      assert SoundAt(Snap(), m.cur);
      Rearmed(calls[m.cur]);
    }

    /** SYS_CLOSE. */
    method Close()
      requires m.Valid() && !m.idle
      modifies m
      ensures m.Valid() && Apart(old(m.tasks), m.tasks, m.cur) && OwnOnly(old(m.tasks), m.tasks, m.cur)
      ensures m.cur == old(m.cur) && !m.idle && m.live == old(m.live).(rax := m.live.rax) && Has(old(m.tasks), m.cur)
      ensures m.n == old(m.n) && ClosedFd(old(m.Now()), m.Now(), m.cur, old(m.live).rdi, m.live.rax)
    {
      hide Machine.Inv, OneRuns, Apart, Untouched, Nudged, AfterClose, Closable;
      m.CurRuns();
      m.Sizes();
      m.SysClose(m.live.rdi);
      m.CurRuns();
      m.Sizes();
    }

    /** SYS_PIPE. */
    method MakePipe()
      requires m.Valid() && !m.idle
      modifies m
      ensures m.Valid() && Apart(old(m.tasks), m.tasks, m.cur) && OwnOnly(old(m.tasks), m.tasks, m.cur)
      ensures m.cur == old(m.cur) && !m.idle && m.live == old(m.live).(rax := m.live.rax)
      ensures m.n == old(m.n) && Piped(old(m.Now()), m.Now(), m.cur, old(m.live), m.live.rax)
    {
      hide Machine.Inv, OneRuns, Apart, Untouched, Nudged, PipeMade, MayPipe, Later, Rest, LowestFree;
      m.CurRuns();
      ghost var T := m.tasks;
      var rfd, wfd := m.SysPipe();
      if m.live.rax != 0 {
        m.NudgedAt(T, m.tasks, m.cur);
      }
    }

    /** SYS_RUN. */
    method Launch(a: Args)
      requires m.Valid() && !m.idle
      modifies m
      ensures m.Valid() && Apart(old(m.tasks), m.tasks, m.cur) && OwnOnly(old(m.tasks), m.tasks, m.cur)
      ensures m.cur == old(m.cur) && !m.idle && m.live == old(m.live).(rax := m.live.rax) && Has(old(m.tasks), m.cur)
      ensures old(m.n) <= m.n && Launched(old(m.Now()), m.Now(), m.cur, old(m.live), m.live.rax)
      ensures Started(a, old(m.Now()), m.Now(), m.cur, old(m.live), m.live.rax)
    {
      hide Machine.Inv, OneRuns, Apart, Untouched, Inherits, Nudged, RingsKept, Int32, Source, MayRun, RunAsks, Later,
           Rest, GroupOf;
      m.CurRuns();
      m.SysRun(Int32(m.live.rsi), Int32(m.live.rdx), m.live.rcx % 0x1_0000_0000, a.named, a.loaded, a.entry);
    }

    /** Any other call: it does what it says and no more, and it is answered. */
    method Plain(a: Args)
      requires m.Valid() && !m.idle && !Blocks(m.live.rax) && m.live.rax != SYS_EXIT && m.live.rax != SYS_SIGRETURN
      modifies m
      ensures m.Valid() && Apart(old(m.tasks), m.tasks, m.cur) && OwnOnly(old(m.tasks), m.tasks, m.cur)
      ensures old(m.n) <= m.n
      ensures m.cur == old(m.cur) && !m.idle && m.live == old(m.live).(rax := m.live.rax)
      ensures Told(old(m.Now()), m.Now(), m.cur, old(m.live), m.live.rax)
      ensures old(m.live).rax == SYS_RUN ==> Started(a, old(m.Now()), m.Now(), m.cur, old(m.live), m.live.rax)
      ensures Elsewhere(old(m.live).rax) ==> m.live.rax == a.answer
    {
      hide Machine.Inv, OneRuns, Apart, Untouched, Nudged, Struck, MayUse, Int32, RangeOk, ClosedFd, Piped, Launched,
           Started;
      m.CurRuns();
      m.Handlers();
      if m.live.rax == SYS_RUN {
        Launch(a);
      } else if m.live.rax == SYS_CLOSE {
        Close();
      } else if m.live.rax == SYS_PIPE {
        MakePipe();
      } else if m.live.rax == SYS_SIGNAL {
        m.SysSignal();
      } else if m.live.rax == SYS_KILL {
        m.SysKill();
        StruckOwn(old(m.tasks), m.tasks, m.cur, old(m.live).rdi % 0x1_0000_0000, Int32(old(m.live).rsi));
      } else {
        NudgedSelf(m.tasks);
        JustNudged(m.tasks, m.tasks, m.cur);
        if m.live.rax == SYS_SETFG {
          m.SysSetFg();
        } else {
          m.Arrive(m.live.(rax := a.answer));
        }
      }
    }

    lemma StruckOwn(T: Table, T': Table, c: nat, id: nat, sig: int)
      requires Has(T, c) && T[c].value.state == Running
      requires if Has(T, id) && !IsZombie(T, id) && 0 < sig < MAX_SIGS
               then T' == T[id := Some(Struck(T[id].value, sig))]
               else T' == T
      ensures OwnOnly(T, T', c)
    {
    }

    /** A call that cannot wait, made by a program that stands on none. */
    method Other(a: Args)
      requires m.Valid() && Sound(Snap()) && !m.idle && m.cur !in calls && !Blocks(m.live.rax)
      modifies m, `calls, `asleep
      ensures m.Valid() && Trapped(old(Snap()), Snap()) && Brought(a, old(Snap()), Snap())
    {
      hide Machine.Valid, Machine.Inv, OneRuns, Apart, Untouched, Sound, Framed, RangeOk, Clean, Told, OwnOnly,
           Started, Gone, MayReturn, MustWait;
      ghost var A := Snap();
      Shape();
      Alive(A);
      var c := m.cur;
      if m.live.rax == SYS_EXIT {
        ghost var at := m.TaskExit(m.live.rdi);
        asleep := asleep - {c};
        assert calls - {c} == calls;
        assert Dies(A, Snap(), A.live.rdi);
      } else if m.live.rax == SYS_SIGRETURN {
        GoBack(a.saved);
      } else {
        Plain(a);
        assert Serves(A, Snap());
      }
    }

    lemma Alive(A: Moment)
      requires Sound(A) && !A.idle
      ensures Lives(A.w.tasks, A.cur) && A.w.tasks[A.cur].value.state == Running
    {
    }

    /** SYS_SIGRETURN: the program stands on its call again if it is back where the handler found it. */
    method GoBack(saved: Regs)
      requires m.Valid() && Sound(Snap()) && !m.idle && m.cur !in calls && m.live.rax == SYS_SIGRETURN
      modifies m, `calls, `asleep
      ensures m.Valid()
      ensures if MayReturn(old(Snap()))
              then Returns(old(Snap()), Snap()) && m.live == Restored(saved)
              else Dies(old(Snap()), Snap(), 128 + SIG_SEGV)
    {
      hide Machine.Valid, Machine.Inv, OneRuns, Apart, Untouched, Sound, Framed, RangeOk, Gone;
      ghost var A := Snap();
      Shape();
      Alive(A);
      var c := m.cur;
      var ok := m.SigReturn(saved);
      if ok {
        FlagsTwice(saved.rflags);
        if c in asleep && m.live == Rewound(asleep[c]) {
          calls := calls[c := asleep[c]];
        }
        asleep := asleep - {c};
      } else {
        asleep := asleep - {c};
        assert calls - {c} == calls;
      }
    }

    /** The check for signals on the way out. */
    method Inspect()
      requires m.Valid() && Sound(Snap()) && !m.idle
      modifies m, `calls, `asleep
      ensures m.Valid() && Looked(old(Snap()), Snap())
    {
      hide Machine.Valid, Machine.Inv, OneRuns, Apart, Untouched, Sound, Framed, RangeOk, ContextAt, Enters,
           IsLowest, Delivers, Dies, Gone;
      ghost var A := Snap();
      Shape();
      Alive(A);
      InRing3(A);
      var c := m.cur;
      m.Handlers();
      var o := m.CheckSignals();
      if o == Nothing {
        return;
      }
      ghost var sig := LowestOf(A.w.tasks[c].value.pending);
      if o == Delivered {
        if c in calls {
          asleep := asleep[c := calls[c]];
        }
        calls := calls - {c};
        Handed(A);
      } else {
        calls, asleep := calls - {c}, asleep - {c};
        Fallen(A, Fatal(A, sig));
      }
    }

    lemma LowestOf(pending: set<nat>) returns (sig: nat)
      requires !IsLowest(pending, 0)
      ensures 0 < sig < MAX_SIGS && IsLowest(pending, sig)
    {
      var i :| 1 <= i < MAX_SIGS && i in pending;
      LowestUpTo(pending, i);
      sig :| 0 < sig < MAX_SIGS && IsLowest(pending, sig);
    }

    lemma {:induction false} LowestUpTo(pending: set<nat>, i: nat)
      requires 1 <= i < MAX_SIGS && i in pending
      ensures exists sig :: 0 < sig < MAX_SIGS && IsLowest(pending, sig)
      decreases i
    {
      if j :| 1 <= j < i && j in pending {
        LowestUpTo(pending, j);
      } else {
        assert IsLowest(pending, i);
      }
    }

    lemma Handed(A: Moment)
      requires !A.idle && Has(A.w.tasks, A.cur)
      requires Deliverable(A.w.tasks[A.cur].value)
      requires exists sig :: IsLowest(A.w.tasks[A.cur].value.pending, sig)
                              && Enters(A.w, m.Now(), A.cur, A.live, sig, m.cur, m.idle, m.live)
      requires calls == A.calls - {A.cur} && io == A.io
      requires asleep == if A.cur in A.calls then A.asleep[A.cur := A.calls[A.cur]] else A.asleep
      ensures Delivers(A, Snap())
    {
      hide IsLowest, Enters;
    }

    lemma Fallen(A: Moment, status: nat)
      requires !A.idle && Gone(A.w, m.Now(), A.cur, status, m.cur, m.idle, m.live) && Apart(A.w.tasks, m.tasks, A.cur)
      requires calls == A.calls - {A.cur} && asleep == A.asleep - {A.cur} && io == A.io
      ensures Dies(A, Snap(), status)
    {
      hide Apart, Gone;
    }

    lemma InRing3(A: Moment)
      requires Sound(A) && !A.idle
      ensures A.live.cs % 4 == 3
    {
      EntryUser(A);
    }

    /** A trap, up to the check for signals. */
    method Perform(a: Args)
      requires m.Valid() && Sound(Snap()) && !m.idle && (m.cur !in calls ==> m.live.rip < WORD_MOD)
      modifies m, `calls, `asleep, `io
      ensures m.Valid() && Trapped(old(Snap()), Snap()) && Brought(a, old(Snap()), Snap())
    {
      hide Machine.Valid, Machine.Inv, OneRuns, Sound, Framed, Answers, Fails, Parks, Returns, Serves, Dies, Brought;
      Steady();
      var num := if m.cur in calls then calls[m.cur].rax else m.live.rax;
      if Blocks(num) {
        Conduct(a);
      } else {
        Other(a);
      }
    }

    lemma Steady()
      requires Sound(Snap()) && !m.idle
      ensures m.cur in calls ==> Entry(Snap()).rip < WORD_MOD && Blocks(Entry(Snap()).rax)
    {
      assert SoundAt(Snap(), m.cur);
    }

    method Look()
      requires Good() && !m.idle
      modifies m, `calls, `asleep, `trace
      ensures Good() && trace == old(trace) + [Snap()] && Looked(old(Snap()), Snap())
    {
      hide Machine.Valid, Machine.Inv, OneRuns, Sound, Framed, IsRun, System.Good, Delivers, Dies, Deliverable, Boot;
      Now0();
      Inspect();
      Note();
    }

    /** The program gets as far as its `int`, and the kernel does what the call asks. */
    method Call(r: Regs, a: Args)
      requires Good() && !m.idle
      modifies m, `calls, `asleep, `io, `trace
      ensures var x := Reached(old(Snap()), r);
              && Good() && trace == (if x.cur in x.calls then old(trace) else old(trace) + [x]) + [Snap()]
              && Trapped(x, Snap()) && Brought(a, x, Snap())
    {
      hide Machine.Valid, Machine.Inv, OneRuns, Sound, Framed, IsRun, System.Good, Boot, Trapped, Looked, Next, Played,
           Brought, Typed, Ticked, Resumed, KeyIn, EndIn, BreakIn;
      Now0();
      Reach(r);
      ghost var x := Snap();
      Now0();
      Perform(a);
      EffectNext(Trap(r, a), x, Snap());
      Note();
    }

    /** int 0x50 from ring 3. */
    method OnTrap(r: Regs, a: Args)
      requires Good() && !m.idle
      modifies m, `calls, `asleep, `io, `trace
      ensures Good() && Played(Trap(r, a), old(trace), trace)
    {
      hide Machine.Valid, Machine.Inv, OneRuns, Sound, Framed, IsRun, System.Good, Boot, Trapped, Looked, Next, Played,
           Brought, Typed, Ticked, Resumed, KeyIn, EndIn, BreakIn;
      Now0();
      ghost var x := Reached(Snap(), r);
      Call(r, a);
      Finish(Trap(r, a), old(trace), old(Snap()), x, Snap());
    }

    /** The check for signals, on the way out of a kernel entry that found a program running. */
    method Finish(e: Event, ghost t0: seq<Moment>, ghost a: Moment, ghost x: Moment, ghost b: Moment)
      requires Good() && b == Snap() && t0 != [] && a == t0[|t0| - 1] && !a.idle && !e.Awake? && x == Reached(a, e.r)
      requires Effect(e, x, b)
      requires trace == (if x.cur in x.calls then t0 else t0 + [x]) + [b]
      modifies m, `calls, `asleep, `trace
      ensures Good() && Played(e, t0, trace)
    {
      hide Machine.Valid, Machine.Inv, OneRuns, Sound, Framed, IsRun, System.Good, Boot, Trapped, Looked, Next, Played,
           Effect, Typed, Ticked, Resumed, KeyIn, EndIn, BreakIn;
      if !m.idle {
        Look();
      }
      CoursePlayed(e, t0, a, x, b, Snap());
      assert trace == Course(t0, x, b, Snap());
    }

    /** The timer: the running task is put back and the next one goes on. */
    method Switch()
      requires m.Valid() && Sound(Snap()) && !m.idle
      modifies m
      ensures m.Valid() && !m.idle && Ticked(old(Snap()), Snap())
    {
      hide Machine.Valid, Machine.Inv, OneRuns, Apart, Untouched, Sound, Framed, Clean;
      ghost var A := Snap();
      Shape();
      Alive(A);
      ghost var at := m.Tick();
      PutBack(A, at);
    }

    lemma PutBack(A: Moment, at: Table)
      requires Has(A.w.tasks, A.cur) && A.w.tasks[A.cur].value.state == Running && NextReady(at, m.n, A.cur, m.cur)
      requires m.tasks == at[m.cur := Some(at[m.cur].value.(state := Running))] && m.live == m.tasks[m.cur].value.regs
      requires !m.idle
      requires Has(at, A.cur) && at[A.cur].value == A.w.tasks[A.cur].value.(regs := A.live, state := Ready)
      ensures Picked(A, Snap()) && Has(m.tasks, A.cur)
      ensures m.tasks[A.cur].value == A.w.tasks[A.cur].value.(regs := A.live,
                                                              state := if m.cur == A.cur then Running else Ready)
    {
    }

    /** A timer tick: nothing in the idle loop, else a switch and then the check on whoever now runs. */
    method OnTimer(r: Regs)
      requires Good()
      modifies m, `calls, `asleep, `io, `trace
      ensures Good() && Played(Timer(r), old(trace), trace)
    {
      hide Machine.Valid, Machine.Inv, OneRuns, Sound, Framed, IsRun, System.Good, Boot, Trapped, Looked, Next, Played,
           Typed, Ticked, Resumed, KeyIn, EndIn, BreakIn;
      Now0();
      if m.idle {
        Ignored(Timer(r));
        return;
      }
      Reach(r);
      ghost var x := Snap();
      Now0();
      Switch();
      ghost var b := Snap();
      EffectNext(Timer(r), x, b);
      Note();
      Finish(Timer(r), old(trace), old(Snap()), x, b);
    }

    /** A key, Ctrl-C or Ctrl-D. */
    method Press(e: Event)
      requires m.Valid() && Sound(Snap()) && (e.KeyDown? || e.Interrupt? || e.EndOfInput?)
      modifies m
      ensures m.Valid() && Effect(e, old(Snap()), Snap()) && Typed(old(Snap()), Snap()) && m.idle == old(m.idle)
    {
      hide Machine.Valid, Machine.Inv, OneRuns, Apart, Untouched, Sound, Framed, Nudged, NoWaiter, Struck;
      ghost var T := m.tasks;
      if e.KeyDown? {
        if e.c != 0 {
          m.Key(e.c);
          JustNudged(T, m.tasks, MAX_TASKS);
        }
        assert KeyIn(old(Snap()), Snap(), e.c);
      } else if e.Interrupt? {
        m.CtrlC();
      } else {
        m.CtrlD();
        JustNudged(T, m.tasks, MAX_TASKS);
      }
    }

    method OnKeyboard(e: Event)
      requires Good() && (e.KeyDown? || e.Interrupt? || e.EndOfInput?)
      modifies m, `calls, `asleep, `io, `trace
      ensures Good() && Played(e, old(trace), trace)
    {
      hide Machine.Valid, Machine.Inv, OneRuns, Sound, Framed, IsRun, System.Good, Boot, Trapped, Looked, Next, Played,
           Effect, Typed, Ticked, Resumed, KeyIn, EndIn, BreakIn;
      Now0();
      if m.idle {
        Press(e);
        ghost var b := Snap();
        EffectNext(e, old(Snap()), b);
        Note();
        assert trace == old(trace) + [b] + [];
        IdlePlayed(e, old(trace), old(Snap()), b, b);
        return;
      }
      Reach(e.r);
      ghost var x := Snap();
      Now0();
      Press(e);
      ghost var b := Snap();
      EffectNext(e, x, b);
      Note();
      Finish(e, old(trace), old(Snap()), x, b);
    }

    /** The idle loop looks again. */
    method Stir()
      requires m.Valid() && Sound(Snap()) && m.idle
      modifies m
      ensures m.Valid() && Resumed(old(Snap()), Snap())
    {
      hide Machine.Valid, Machine.Inv, OneRuns, Apart, Untouched, Sound, Framed;
      m.Resume();
    }

    /** The idle loop looks again; `look` says the kernel entry that fell into it ends with a check for signals. */
    method OnAwake(look: bool)
      requires Good()
      modifies m, `calls, `asleep, `io, `trace
      ensures Good() && Played(Awake(look), old(trace), trace)
    {
      hide Machine.Valid, Machine.Inv, OneRuns, Sound, Framed, IsRun, System.Good, Boot, Trapped, Looked, Next, Played,
           Typed, Ticked, Resumed, KeyIn, EndIn, BreakIn;
      Now0();
      if !m.idle {
        Ignored(Awake(look));
        return;
      }
      Stir();
      ghost var b := Snap();
      EffectNext(Awake(look), old(Snap()), b);
      Note();
      if look && !m.idle {
        Look();
      }
      IdlePlayed(Awake(look), old(trace), old(Snap()), b, Snap());
      assert trace == old(trace) + [b] + if look && !b.idle then [Snap()] else [];
    }

    method Step(e: Event)
      requires Good()
      modifies m, `calls, `asleep, `io, `trace
      ensures Good() && Played(e, old(trace), trace)
    {
      hide System.Good, Played;
      match e {
        case Trap(r, a) =>
          if !m.idle {
            OnTrap(r, a);
          } else {
            Ignored(e);
          }
        case Timer(r) => OnTimer(r);
        case Awake(look) => OnAwake(look);
        case _ => OnKeyboard(e);
      }
    }

    lemma Ignored(e: Event)
      requires Good() && if e.Awake? then !m.idle else m.idle && (e.Trap? || e.Timer?)
      ensures Played(e, trace, trace)
    {
      hide IsRun, Machine.Valid, Boot;
    }

    /** Whatever happens, in whatever order: the kernel's invariants hold, what happened is a run from the start in
        which each event had its effect, every live task goes on in ring 3 with interrupts on, and every call pending
        before is pending still with the same frame, or was settled at some step since. */
    method Run(es: seq<Event>)
      requires Good()
      modifies m, `calls, `asleep, `io, `trace
      ensures Good() && Plays(es, old(trace), trace) && old(trace) <= trace
      ensures forall i: nat :: Lives(m.tasks, i) ==> UserFrame(FrameOf(Snap(), i))
      ensures forall i: nat :: Lives(m.tasks, i) ==>
                FrameOf(Snap(), i).cs % 4 == 3 && FrameOf(Snap(), i).rflags / 512 % 2 == 1
      ensures forall i: nat, f :: Pending(old(Snap()), i, f) ==>
                Pending(Snap(), i, f) || exists l: nat :: |old(trace)| - 1 <= l < |trace| - 1 && Settled(trace, l, i, f)
    {
      hide System.Good, Settled, Played;
      ghost var a := Snap();
      Now0();
      var k := 0;
      while k < |es|
        invariant 0 <= k <= |es| && Good() && old(trace) <= trace && Plays(es[..k], old(trace), trace)
      {
        ghost var t := trace;
        Step(es[k]);
        PlaysOn(es, k, old(trace), t, trace);
        k := k + 1;
      }
      assert es[..k] == es;
      AllUser();
      forall i: nat, f | Pending(a, i, f)
        ensures Pending(Snap(), i, f) || exists l: nat :: |old(trace)| - 1 <= l < |trace| - 1 && Settled(trace, l, i, f)
      {
        FateHere(old(trace), a, i, f);
      }
    }

    lemma PlaysOn(es: seq<Event>, k: nat, t0: seq<Moment>, u: seq<Moment>, t: seq<Moment>)
      requires k < |es| && Plays(es[..k], t0, u) && Played(es[k], u, t)
      ensures Plays(es[..k + 1], t0, t) && u <= t
    {
      assert es[..k + 1][..k] == es[..k];
    }

    lemma AllUser()
      requires Good()
      ensures forall i: nat :: Lives(m.tasks, i) ==> UserFrame(FrameOf(Snap(), i))
      ensures forall i: nat :: Lives(m.tasks, i) ==>
                FrameOf(Snap(), i).cs % 4 == 3 && FrameOf(Snap(), i).rflags / 512 % 2 == 1
    {
      hide Sound, UserFrame;
      Now0();
      AllRing3(Snap());
      forall i: nat | Lives(m.tasks, i) ensures UserFrame(FrameOf(Snap(), i)) {
        At(Snap(), i);
      }
    }

    lemma FateHere(tr: seq<Moment>, a: Moment, i: nat, f: Regs)
      requires Good() && tr <= trace && tr != [] && tr[|tr| - 1] == a && Pending(a, i, f)
      ensures Pending(Snap(), i, f) || exists l: nat :: |tr| - 1 <= l < |trace| - 1 && Settled(trace, l, i, f)
    {
      hide Settled, IsRun, Machine.Valid, Boot;
      Fate(trace, |tr| - 1, |trace| - 1, i, f);
    }
  }
}
