/** A run of the process kernel as the sequence of its moments outside the kernel, the steps that may lead from one to
    the next, and what every run keeps. */
module Runs {
  import opened Bytes
  import opened Signals
  import opened Pipes
  import opened Processes
  import opened Machine
  import opened Grants

  /** The calls that may wait. */
  predicate Blocks(num: nat) { num == SYS_READKEY || num == SYS_READ || num == SYS_WRITE || num == SYS_WAIT }

  /** What there is between two kernel entries. `calls` holds, by task, the frame of the call the task stands on and
      makes again when it runs; `asleep` that of a call a signal handler is running on top of; `io` the bytes the last
      call that was answered moved between its caller and the kernel. */
  datatype Moment = Moment(w: World, cur: nat, idle: bool, live: Regs, calls: map<nat, Regs>, asleep: map<nat, Regs>,
                           io: seq<Byte>)

  /** Where task `i` will go on. */
  ghost function FrameOf(a: Moment, i: nat): Regs
    requires Has(a.w.tasks, i)
  {
    if i == a.cur && !a.idle then a.live else a.w.tasks[i].value.regs
  }

  /** The frame a trap of the running task comes in with: a task that stands on its call makes that one. */
  ghost function Entry(a: Moment): Regs { if a.cur in a.calls then a.calls[a.cur] else a.live }

  ghost predicate Flagged(a: Moment, i: nat) { Has(a.w.tasks, i) && a.w.tasks[i].value.interrupted }

  // ---------------------------------------------------------------------------
  // Steps
  // ---------------------------------------------------------------------------

  /** The program runs on, to any frame the processor can leave it with. One that stands on its call gets no further. */
  ghost predicate Ran(a: Moment, b: Moment) {
    !a.idle && a.cur !in a.calls && b == a.(live := b.live) && UserFrame(b.live) && b.live.rip < WORD_MOD
  }

  /** A call that may wait and need not: it happens as one step and is answered. */
  ghost predicate Answers(a: Moment, b: Moment) {
    var c, f := a.cur, Entry(a);
    && !a.idle && Blocks(f.rax) && !MustWait(a.w, c, f) && Apart(a.w.tasks, b.w.tasks, c)
    && b.cur == c && !b.idle && b.calls == a.calls - {c} && b.asleep == a.asleep && b.live == f.(rax := b.live.rax)
    && Served(a.w, b.w, c, f, b.io, b.live.rax)
  }

  /** A call that must wait, by a task whose call a signal cut short: it fails, and nothing else happens. */
  ghost predicate Fails(a: Moment, b: Moment) {
    var c, f := a.cur, Entry(a);
    && !a.idle && Blocks(f.rax) && MustWait(a.w, c, f) && Flagged(a, c)
    && b == a.(w := a.w.(tasks := a.w.tasks[c := Some(a.w.tasks[c].value.(interrupted := false))]),
               live := f.(rax := SYSCALL_ERROR), calls := a.calls - {c})
  }

  /** Any other call that must wait: the caller stands on it, parked. */
  ghost predicate Parks(a: Moment, b: Moment) {
    var c, f := a.cur, Entry(a);
    && !a.idle && Blocks(f.rax) && MustWait(a.w, c, f) && Has(a.w.tasks, c) && !Flagged(a, c) && f.rip < WORD_MOD
    && Held(a.w, b.w, c, f, Reason(a.w, c, f), b.cur, b.idle, b.live) && Apart(a.w.tasks, b.w.tasks, c)
    && b.calls == a.calls[c := f] && b.asleep == a.asleep && b.io == a.io
  }

  /** The running task dies with `status` and gives the processor up. */
  ghost predicate Dies(a: Moment, b: Moment, status: nat) {
    var c := a.cur;
    && !a.idle && Gone(a.w, b.w, c, status, b.cur, b.idle, b.live) && Apart(a.w.tasks, b.w.tasks, c)
    && b.calls == a.calls - {c} && b.asleep == a.asleep - {c} && b.io == a.io
  }

  ghost predicate Slain(a: Moment, b: Moment) { exists status :: Dies(a, b, status) }

  /** A handler is running and its saved frame can be read. */
  ghost predicate MayReturn(a: Moment) {
    Has(a.w.tasks, a.cur) && a.w.tasks[a.cur].value.active && RangeOk(a.w.tasks[a.cur].value.ctx, FRAME_BYTES)
  }

  /** A handler returns. The program stands on the call it was interrupted in if the frame says so. */
  ghost predicate Returns(a: Moment, b: Moment) {
    var c := a.cur;
    && !a.idle && c !in a.calls && a.live.rax == SYS_SIGRETURN && MayReturn(a)
    && b.cur == c && !b.idle && UserFrame(b.live) && b.io == a.io
    && b.w == a.w.(tasks := a.w.tasks[c := Some(a.w.tasks[c].value.(active := false, ctx := 0))])
    && b.asleep == a.asleep - {c}
    && b.calls == if c in a.asleep && b.live == Rewound(a.asleep[c]) then a.calls[c := a.asleep[c]] else a.calls
  }

  /** A call changes nothing of the caller's own record but its descriptors, its handlers, and signals pending. */
  ghost predicate OwnOnly(T: Table, T': Table, c: nat) {
    && Has(T, c) && Has(T', c)
    && var t, t' := T[c].value, T'[c].value;
       t' == t.(fds := t'.fds, handlers := t'.handlers, trampoline := t'.trampoline, pending := t'.pending)
  }

  /** SYS_CLOSE: the file leaves its slot and is closed, or there is none. */
  ghost predicate ClosedFd(w: World, w': World, c: nat, fd: nat, ans: nat)
    requires Has(w.tasks, c)
  {
    var f := SlotAt(w.tasks, c, fd);
    if fd < MAX_FDS && f != 0 then
      && ans == 0 && Closable(w.files, w.pipes, f) && fd < |w.tasks[c].value.fds| && |w'.tasks| == |w.tasks|
      && w' == w.(tasks := w'.tasks, files := w.files - {f}, pipes := AfterClose(w.files, w.pipes, f))
      && w'.tasks[c] == Some(w.tasks[c].value.(fds := w.tasks[c].value.fds[fd := 0]))
      && Nudged(w.tasks[c := w'.tasks[c]], w'.tasks)
    else w' == w && ans == SYSCALL_ERROR
  }

  /** Nothing came of it: at most sleepers were woken, who will find nothing, and memory was asked for. */
  ghost predicate Vain(w: World, w': World) {
    w' == w.(tasks := w'.tasks, grants := w'.grants) && Nudged(w.tasks, w'.tasks) && Later(w.grants, w'.grants)
  }

  /** SYS_PIPE: a fresh pipe with both ends in the two lowest free slots, exactly when there is room for it. */
  ghost predicate Piped(w: World, w': World, c: nat, r: Regs, ans: nat) {
    if MayPipe(w, c, r) then
      && ans == 0 && w' == w.(tasks := w'.tasks, files := w'.files, pipes := w'.pipes, grants := Rest(w.grants, 3))
      && exists rf, wf, rfd, wfd :: && PipeMade(w.files, w'.files, w.pipes, w'.pipes, rf, wf)
                                    && EndsPlaced(w.tasks, w'.tasks, c, rfd, rf, wfd, wf)
    else ans == SYSCALL_ERROR && Vain(w, w')
  }

  /** SYS_RUN: a child with what it was given, or nothing. Whether the program can be read and loaded is not in the
      frame. */
  ghost predicate Launched(w: World, w': World, c: nat, r: Regs, ans: nat)
    requires Has(w.tasks, c)
  {
    var inFd, outFd, req := Int32(r.rsi), Int32(r.rdx), r.rcx % 0x1_0000_0000;
    if ans == SYSCALL_ERROR then Vain(w, w')
    else
      && MayRun(w, c, inFd, outFd, req) && ans == w.n && RingsKept(w.pipes, w'.pipes)
      && w' == w.(tasks := w'.tasks, n := w.n + 1, files := w'.files, pipes := w'.pipes, trees := w'.trees,
                  grants := Rest(w.grants, RunAsks(w, c, inFd, outFd)))
      && (exists e :: Born(w'.tasks, w'.n, w'.trees, w.n, w.trees, c, e, GroupOf(req, w.tasks[c].value.pgid, w.n)))
      && Inherits(w'.tasks[w.n].value, w'.files, w.files, Source(w, c, inFd, false), Source(w, c, outFd, true))
  }

  /** SYS_SIGNAL: a handler and the trampoline, or nothing. */
  ghost predicate Installed(w: World, w': World, c: nat, r: Regs, ans: nat)
    requires Has(w.tasks, c) && |w.tasks[c].value.handlers| == MAX_SIGS
  {
    var t, sig := w.tasks[c].value, Int32(r.rdi);
    if Catchable(sig, r.rsi, r.rdx) then
      var t' := t.(handlers := t.handlers[sig := r.rsi], trampoline := r.rdx);
      w' == w.(tasks := w.tasks[c := Some(t')]) && ans == 0
    else w' == w && ans == SYSCALL_ERROR
  }

  /** SYS_KILL: a live task is struck, or nothing happens. */
  ghost predicate Signalled(w: World, w': World, r: Regs, ans: nat) {
    var id, sig := r.rdi % 0x1_0000_0000, Int32(r.rsi);
    if Lives(w.tasks, id) && 0 < sig < MAX_SIGS
    then w' == w.(tasks := w.tasks[id := Some(Struck(w.tasks[id].value, sig))]) && ans == 0
    else w' == w && ans == SYSCALL_ERROR
  }

  /** What a call that cannot wait does, to the letter; one that has nothing to do with tasks does nothing here. */
  ghost predicate Told(w: World, w': World, c: nat, r: Regs, ans: nat) {
    && Has(w.tasks, c) && |w.tasks[c].value.handlers| == MAX_SIGS
    && if r.rax == SYS_SIGNAL then Installed(w, w', c, r, ans)
       else if r.rax == SYS_KILL then Signalled(w, w', r, ans)
       else if r.rax == SYS_CLOSE then ClosedFd(w, w', c, r.rdi, ans)
       else if r.rax == SYS_PIPE then Piped(w, w', c, r, ans)
       else if r.rax == SYS_RUN then Launched(w, w', c, r, ans)
       else if r.rax != SYS_SETFG then w' == w
       else
         var g := r.rdi % 0x1_0000_0000;
         if MayUse(w.tasks, c, g) then w' == w.(fg := g) && ans == 0 else w' == w && ans == SYSCALL_ERROR
  }

  /** Any other call: it is answered. */
  ghost predicate Serves(a: Moment, b: Moment) {
    var c := a.cur;
    && !a.idle && c !in a.calls && !Blocks(a.live.rax) && a.live.rax != SYS_EXIT && a.live.rax != SYS_SIGRETURN
    && Apart(a.w.tasks, b.w.tasks, c) && OwnOnly(a.w.tasks, b.w.tasks, c)
    && b.cur == c && !b.idle && b.live == a.live.(rax := b.live.rax) && a.w.n <= b.w.n
    && b.calls == a.calls && b.asleep == a.asleep && b.io == a.io && Told(a.w, b.w, c, a.live, b.live.rax)
  }

  /** A trap, up to the check for signals. */
  ghost predicate Trapped(a: Moment, b: Moment) {
    || Answers(a, b) || Fails(a, b) || Parks(a, b) || Returns(a, b) || Serves(a, b)
    || (a.cur !in a.calls && a.live.rax == SYS_EXIT && Dies(a, b, a.live.rdi))
    || (a.cur !in a.calls && a.live.rax == SYS_SIGRETURN && !MayReturn(a) && Dies(a, b, 128 + SIG_SEGV))
  }

  /** Which call a trap is, by its number. */
  lemma ByNumber(a: Moment, b: Moment)
    requires Trapped(a, b)
    ensures Entry(a).rax in {1, 2, 6, 11} ==> Answers(a, b) || Fails(a, b) || Parks(a, b)
    ensures a.cur !in a.calls && a.live.rax == 0 ==> Dies(a, b, a.live.rdi)
    ensures a.cur !in a.calls && a.live.rax == 16 ==>
              if MayReturn(a) then Returns(a, b) else Dies(a, b, 139)
    ensures a.cur !in a.calls && a.live.rax !in {0, 1, 2, 6, 11, 16} ==> Serves(a, b)
    ensures a.cur !in a.calls && a.live.rax !in {0, 1, 2, 4, 6, 11, 12, 13, 14, 15, 16, 17} ==> b.w == a.w
    ensures a.cur !in a.calls && Has(a.w.tasks, a.cur) && a.live.rax in {4, 12, 13, 14, 15, 17} ==>
              var w, w', c, r, ans := a.w, b.w, a.cur, a.live, b.live.rax;
              && (r.rax == 4 ==> Launched(w, w', c, r, ans))
              && (r.rax == 12 ==> ClosedFd(w, w', c, r.rdi, ans))
              && (r.rax == 13 ==> Piped(w, w', c, r, ans))
              && (r.rax == 14 ==> |w.tasks[c].value.handlers| == 32 && Installed(w, w', c, r, ans))
              && (r.rax == 15 ==> Signalled(w, w', r, ans))
              && (r.rax == 17 ==> w' == w.(fg := w'.fg) && (MayUse(w.tasks, c, w'.fg) || w'.fg == w.fg))
  {
    hide Served, Held, Gone, Apart, MustWait, Reason, OwnOnly, Launched, ClosedFd, Piped, Installed, Signalled;
  }

  /** A signal is delivered: a handler runs on top of the call the task stands on, if it stands on one. */
  ghost predicate Delivers(a: Moment, b: Moment) {
    var c := a.cur;
    && !a.idle && Has(a.w.tasks, c) && Deliverable(a.w.tasks[c].value)
    && (exists sig :: IsLowest(a.w.tasks[c].value.pending, sig)
                       && Enters(a.w, b.w, c, a.live, sig, b.cur, b.idle, b.live))
    && b.calls == a.calls - {c} && b.io == a.io
    && b.asleep == if c in a.calls then a.asleep[c := a.calls[c]] else a.asleep
  }

  /** Signal `sig` finds a handler, and a stack that can take the frame to save. */
  ghost predicate Handled(a: Moment, sig: nat) {
    && Has(a.w.tasks, a.cur) && sig < |a.w.tasks[a.cur].value.handlers| && a.w.tasks[a.cur].value.handlers[sig] != 0
    && sig != SIG_KILL && RangeOk(ContextAt(a.live.rsp % WORD_MOD), FRAME_BYTES + 8)
  }

  /** What a signal that is not delivered kills with: its own number, or that of a bad stack. */
  ghost function Fatal(a: Moment, sig: nat): nat {
    if Has(a.w.tasks, a.cur) && sig < |a.w.tasks[a.cur].value.handlers| && a.w.tasks[a.cur].value.handlers[sig] != 0
       && sig != SIG_KILL
    then 128 + SIG_SEGV else 128 + sig
  }

  /** The check for signals on the way out: the lowest pending signal is delivered or kills. */
  ghost predicate Looked(a: Moment, b: Moment) {
    && !a.idle && Has(a.w.tasks, a.cur)
    && if !Deliverable(a.w.tasks[a.cur].value) then b == a
       else exists sig :: && IsLowest(a.w.tasks[a.cur].value.pending, sig)
                          && if Handled(a, sig) then Delivers(a, b) else Dies(a, b, Fatal(a, sig))
  }

  /** The scheduler went round and picked. */
  ghost predicate Picked(a: Moment, b: Moment) {
    !b.idle && PickedFrom(b.w.tasks, b.w.n, a.cur, b.cur) && Has(b.w.tasks, b.cur)
    && b.live == b.w.tasks[b.cur].value.regs
  }

  /** A timer tick. */
  ghost predicate Ticked(a: Moment, b: Moment) {
    var c := a.cur;
    && !a.idle && Picked(a, b) && Apart(a.w.tasks, b.w.tasks, c) && Lives(a.w.tasks, c) && Has(b.w.tasks, c)
    && b.w.tasks[c].value == a.w.tasks[c].value.(regs := a.live, state := if b.cur == c then Running else Ready)
    && b.w == a.w.(tasks := b.w.tasks, trees := b.w.trees) && b.calls == a.calls && b.asleep == a.asleep
    && b.io == a.io
  }

  /** A character, end of input, or Ctrl-C. */
  ghost predicate Typed(a: Moment, b: Moment) { (exists c :: KeyIn(a, b, c)) || EndIn(a, b) || BreakIn(a, b) }

  /** Character `c` goes into the ring, if there is room, and everyone waiting for one is woken; some keys make none. */
  ghost predicate KeyIn(a: Moment, b: Moment, c: Byte) {
    if c == 0 then b == a
    else
      && b == a.(w := b.w) && Apart(a.w.tasks, b.w.tasks, MAX_TASKS)
      && b.w == a.w.(tasks := b.w.tasks, keys := if |a.w.keys| < KBD_ROOM then a.w.keys + [c] else a.w.keys)
      && Nudged(a.w.tasks, b.w.tasks) && NoWaiter(b.w.tasks, WaitKey)
  }

  ghost predicate EndIn(a: Moment, b: Moment) {
    && b == a.(w := b.w) && Apart(a.w.tasks, b.w.tasks, MAX_TASKS) && b.w == a.w.(tasks := b.w.tasks, eof := true)
    && Nudged(a.w.tasks, b.w.tasks) && NoWaiter(b.w.tasks, WaitKey)
  }

  ghost predicate BreakIn(a: Moment, b: Moment) {
    b == a.(w := b.w) && Apart(a.w.tasks, b.w.tasks, MAX_TASKS) && Struckdown(a.w, b.w)
  }

  /** Ctrl-C: the foreground group, and nobody else, is interrupted. */
  ghost predicate Struckdown(w: World, w': World) {
    && w' == w.(tasks := w'.tasks) && |w'.tasks| == |w.tasks|
    && forall i :: 0 <= i < |w.tasks| ==>
         w'.tasks[i] == if Lives(w.tasks, i) && w.tasks[i].value.pgid == w.fg
                        then Some(Struck(w.tasks[i].value, SIG_INT)) else w.tasks[i]
  }

  /** The idle loop looks again. */
  ghost predicate Resumed(a: Moment, b: Moment) {
    && a.idle
    && if b.idle then b == a && forall i :: !IsReady(a.w.tasks, i)
       else Picked(a, b) && IsReady(a.w.tasks, b.cur) && Apart(a.w.tasks, b.w.tasks, MAX_TASKS)
            && b == a.(w := a.w.(tasks := a.w.tasks[b.cur := Some(a.w.tasks[b.cur].value.(state := Running))]),
                       cur := b.cur, idle := false, live := b.live)
  }

  ghost predicate Next(a: Moment, b: Moment) {
    Ran(a, b) || Trapped(a, b) || Looked(a, b) || Ticked(a, b) || Typed(a, b) || Resumed(a, b)
  }

  // ---------------------------------------------------------------------------
  // What every moment has
  // ---------------------------------------------------------------------------

  ghost predicate Framed(a: Moment) {
    && |a.w.tasks| == MAX_TASKS && a.cur < a.w.n <= MAX_TASKS && OneRuns(a.w.tasks, a.cur, a.idle)
    && (a.idle ==> a.w.tasks[a.cur].value.regs == a.live) && (forall i :: Has(a.w.tasks, i) ==> i < a.w.n)
    && forall p :: p in a.w.pipes ==> a.w.pipes[p].Valid()
  }

  /** Task `i` stands on the `int` of the call it made with frame `f`. */
  ghost predicate Sits(a: Moment, i: nat, f: Regs) {
    Lives(a.w.tasks, i) && f.rip < WORD_MOD && Blocks(f.rax) && FrameOf(a, i) == Rewound(f)
  }

  /** A handler of task `i` runs on top of the call it made with frame `f`. */
  ghost predicate Nests(a: Moment, i: nat, f: Regs) {
    Lives(a.w.tasks, i) && a.w.tasks[i].value.active && f.rip < WORD_MOD && Blocks(f.rax) && UserFrame(f)
  }

  /** Everything about task `i`: it stands on the call it is said to stand on, a handler runs on top of the one it is
      said to run on, it has a call if it is parked, and it goes on in ring 3 with interrupts on. */
  ghost predicate SoundAt(a: Moment, i: nat) {
    && (i in a.calls ==> Sits(a, i, a.calls[i])) && (i in a.asleep ==> Nests(a, i, a.asleep[i]))
    && (IsBlocked(a.w.tasks, i) ==> i in a.calls) && (Lives(a.w.tasks, i) ==> UserFrame(FrameOf(a, i)))
  }

  ghost predicate Sound(a: Moment) { Framed(a) && forall i: nat :: SoundAt(a, i) }

  /** Off task `c` nothing about calls changed. */
  ghost predicate Off(m: map<nat, Regs>, m': map<nat, Regs>, c: nat) {
    forall i :: i != c ==> (i in m' <==> i in m) && (i in m ==> m'[i] == m[i])
  }

  /** The others: they go on where they would have. */
  lemma OthersSound(a: Moment, b: Moment, c: nat, i: nat)
    requires Sound(a) && Framed(b) && Apart(a.w.tasks, b.w.tasks, c) && Off(a.calls, b.calls, c)
    requires Off(a.asleep, b.asleep, c) && i != c
    requires if a.idle || c == a.cur then !b.idle && b.cur != c ==> b.live == b.w.tasks[b.cur].value.regs
             else !b.idle && b.cur == a.cur && b.live == a.live
    ensures SoundAt(b, i)
  {
    assert SoundAt(a, i);
    if Lives(a.w.tasks, i) {
      assert Has(b.w.tasks, i) && Alike(a.w.tasks[i].value, b.w.tasks[i].value);
      assert FrameOf(b, i) == FrameOf(a, i);
    } else if Lives(b.w.tasks, i) {
      assert Newborn(b.w.tasks[i].value);
    }
  }

  lemma RewoundUser(f: Regs)
    ensures UserFrame(Rewound(f)) <==> UserFrame(f)
  {
  }

  lemma EntryUser(a: Moment)
    requires Sound(a) && !a.idle
    ensures UserFrame(Entry(a)) && Lives(a.w.tasks, a.cur) && UserFrame(a.live)
  {
    assert SoundAt(a, a.cur);
    if a.cur in a.calls {
      RewoundUser(a.calls[a.cur]);
    }
  }

  /** What any step of a task `c` that is running owes: the others are kept, and `c` itself is as it should be. */
  lemma StepSound(a: Moment, b: Moment)
    requires Sound(a) && Framed(b) && !a.idle && Apart(a.w.tasks, b.w.tasks, a.cur)
    requires Off(a.calls, b.calls, a.cur) && Off(a.asleep, b.asleep, a.cur) && SoundAt(b, a.cur)
    requires !b.idle && b.cur != a.cur ==> b.live == b.w.tasks[b.cur].value.regs
    ensures Sound(b)
  {
    hide Apart, SoundAt, Framed, Sound, Off;
    forall i: nat ensures SoundAt(b, i) {
      if i != a.cur {
        OthersSound(a, b, a.cur, i);
      }
    }
    Whole(b);
  }

  lemma Whole(b: Moment)
    requires Framed(b) && forall i: nat :: SoundAt(b, i)
    ensures Sound(b)
  {
  }

  /** The three ways a call that may wait can go. */
  lemma Concluded(a: Moment, b: Moment)
    requires Framed(a) && Framed(b) && !a.idle && Blocks(Entry(a).rax) && Entry(a).rip < WORD_MOD
    requires Apart(a.w.tasks, b.w.tasks, a.cur) && b.asleep == a.asleep
    requires if MustWait(a.w, a.cur, Entry(a))
             then Held(a.w, b.w, a.cur, Entry(a), Reason(a.w, a.cur, Entry(a)), b.cur, b.idle, b.live) && b.io == a.io
             else Served(a.w, b.w, a.cur, Entry(a), b.io, b.live.rax)
                  && b.cur == a.cur && !b.idle && b.live == Entry(a).(rax := b.live.rax)
    requires b.calls == if IsBlocked(b.w.tasks, a.cur) then a.calls[a.cur := Entry(a)] else a.calls - {a.cur}
    ensures (Answers(a, b) || Fails(a, b) || Parks(a, b)) && Next(a, b)
  {
    hide MustWait, Served, Apart, Reason, Handover, StillParked, Rewound;
  }

  lemma At(a: Moment, i: nat)
    requires Sound(a)
    ensures SoundAt(a, i) && Framed(a)
  {
  }

  /** A call that is answered leaves the caller's own record alone, but for a signal it may bring on itself. */
  lemma AnswerKeeps(a: Moment, b: Moment)
    requires Framed(a) && Answers(a, b)
    ensures OwnOnly(a.w.tasks, b.w.tasks, a.cur) && b.w.n == a.w.n
  {
    hide Apart, MustWait, Opened, NoWaiter, Pipe.Used, Pipe.Contents, BufferOk, StoreOk;
    assert a.w.tasks[a.cur].value.state == Running;
  }

  lemma SoundAnswers(a: Moment, b: Moment)
    requires Sound(a) && Framed(b) && (Answers(a, b) || Serves(a, b))
    ensures Sound(b)
  {
    hide Apart, MustWait, Served, Sound;
    EntryUser(a);
    At(a, a.cur);
    if Answers(a, b) {
      AnswerKeeps(a, b);
    }
    StepSound(a, b);
  }

  lemma SoundFails(a: Moment, b: Moment)
    requires Sound(a) && Framed(b) && Fails(a, b)
    ensures Sound(b)
  {
    hide Apart, MustWait, Sound;
    EntryUser(a);
    At(a, a.cur);
    PutApart(a.w.tasks, a.cur, b.w.tasks[a.cur]);
    StepSound(a, b);
  }

  lemma SoundParks(a: Moment, b: Moment)
    requires Sound(a) && Framed(b) && Parks(a, b)
    ensures Sound(b)
  {
    hide Apart, MustWait, Sound, PickedFrom, StillParked, Reason;
    EntryUser(a);
    At(a, a.cur);
    RewoundUser(Entry(a));
    StepSound(a, b);
  }

  lemma SoundDies(a: Moment, b: Moment)
    requires Sound(a) && Framed(b) && Slain(a, b)
    ensures Sound(b)
  {
    hide Apart, Sound, PickedFrom;
    StepSound(a, b);
  }

  lemma SoundReturns(a: Moment, b: Moment)
    requires Sound(a) && Framed(b) && Returns(a, b)
    ensures Sound(b)
  {
    hide Apart, Sound;
    At(a, a.cur);
    PutApart(a.w.tasks, a.cur, b.w.tasks[a.cur]);
    StepSound(a, b);
  }

  lemma SoundDelivers(a: Moment, b: Moment)
    requires Sound(a) && Framed(b) && Delivers(a, b)
    ensures Sound(b)
  {
    hide Apart, Sound, ContextAt;
    EntryUser(a);
    At(a, a.cur);
    PutApart(a.w.tasks, a.cur, b.w.tasks[a.cur]);
    StepSound(a, b);
  }

  lemma SoundTicked(a: Moment, b: Moment)
    requires Sound(a) && Framed(b) && Ticked(a, b)
    ensures Sound(b)
  {
    hide Apart, Sound, PickedFrom;
    EntryUser(a);
    At(a, a.cur);
    StepSound(a, b);
  }

  lemma SoundAmong(a: Moment, b: Moment)
    requires Sound(a) && Framed(b) && (Typed(a, b) || Resumed(a, b))
    ensures Sound(b)
  {
    hide Sound, PickedFrom, Struckdown, Nudged, NoWaiter, Apart;
    if b != a {
      At(a, a.cur);
      forall i: nat ensures SoundAt(b, i) {
        if i < MAX_TASKS {
          OthersSound(a, b, MAX_TASKS, i);
        } else {
          At(a, i);
        }
      }
      Whole(b);
    }
  }

  /** Every step keeps what every moment has. */
  lemma SoundNext(a: Moment, b: Moment)
    requires Sound(a) && Framed(b) && Next(a, b)
    ensures Sound(b)
    ensures forall i: nat :: Lives(b.w.tasks, i) ==> FrameOf(b, i).cs % 4 == 3 && FrameOf(b, i).rflags / 512 % 2 == 1
  {
    hide Sound, Framed, Answers, Serves, Fails, Parks, Dies, Returns, Delivers, Ticked, Typed, Resumed, Ran,
         Deliverable, Handled, MayReturn, IsLowest;
    if Ran(a, b) {
      SoundRan(a, b);
    } else if Trapped(a, b) {
      if Answers(a, b) || Serves(a, b) {
        SoundAnswers(a, b);
      } else if Fails(a, b) {
        SoundFails(a, b);
      } else if Parks(a, b) {
        SoundParks(a, b);
      } else if Returns(a, b) {
        SoundReturns(a, b);
      } else {
        SoundDies(a, b);
      }
    } else if Looked(a, b) {
      if Delivers(a, b) {
        SoundDelivers(a, b);
      } else if Slain(a, b) {
        SoundDies(a, b);
      }
    } else if Ticked(a, b) {
      SoundTicked(a, b);
    } else {
      SoundAmong(a, b);
    }
    AllRing3(b);
  }

  /** Every live task goes on in ring 3 with the interrupt flag set. */
  lemma AllRing3(a: Moment)
    requires Sound(a)
    ensures forall i: nat :: Lives(a.w.tasks, i) ==> FrameOf(a, i).cs % 4 == 3 && FrameOf(a, i).rflags / 512 % 2 == 1
  {
    hide Framed, UserFrame;
    forall i: nat | Lives(a.w.tasks, i) ensures FrameOf(a, i).cs % 4 == 3 && FrameOf(a, i).rflags / 512 % 2 == 1 {
      At(a, i);
      UserMeans(FrameOf(a, i));
    }
  }

  /** The check for signals, with a handler for the lowest signal pending: the program goes on in the handler, with the
      signal's number as its argument, on a stack right below the saved frame, or it dies of its stack. */
  lemma EntersHandler(a: Moment, b: Moment, sig: nat)
    requires Framed(a) && Looked(a, b) && Deliverable(a.w.tasks[a.cur].value) && sig != 0
    requires IsLowest(a.w.tasks[a.cur].value.pending, sig) && sig < |a.w.tasks[a.cur].value.handlers|
    requires a.w.tasks[a.cur].value.handlers[sig] != 0 && sig != 9
    ensures if 0x40_0130 <= a.live.rsp % WORD_MOD < 0xA0_0080
            then && b.cur == a.cur && !b.idle && Has(b.w.tasks, a.cur)
                 && b.live.rip == a.w.tasks[a.cur].value.handlers[sig] && b.live.rdi == sig
                 && b.live == a.live.(rip := b.live.rip, rdi := b.live.rdi, rsp := b.live.rsp)
                 && b.live.rsp + 8 == b.w.tasks[a.cur].value.ctx
                 && b.w.tasks[a.cur].value.ctx + 304 <= a.live.rsp % WORD_MOD < b.w.tasks[a.cur].value.ctx + 320
            else IsZombie(b.w.tasks, a.cur) && b.w.tasks[a.cur].value.status == 139
  {
    hide ContextAt, RangeOk, Apart, Handover, Framed, Shrunk;
    StackTakes(a.live.rsp % WORD_MOD);
    if RangeOk(ContextAt(a.live.rsp % WORD_MOD), FRAME_BYTES + 8) {
      ContextPlace(a.live.rsp % WORD_MOD);
    }
  }

  lemma SoundRan(a: Moment, b: Moment)
    requires Sound(a) && Framed(b) && Ran(a, b)
    ensures Sound(b)
  {
    forall i: nat ensures SoundAt(b, i) {
      At(a, i);
    }
  }

  // ---------------------------------------------------------------------------
  // What becomes of a call
  // ---------------------------------------------------------------------------

  /** Task `i` still stands on the call it made with frame `f`, or a handler runs on top of it. */
  ghost predicate Pending(a: Moment, i: nat, f: Regs) {
    (i in a.calls && a.calls[i] == f) || (i in a.asleep && a.asleep[i] == f)
  }

  /** The step in which the call of task `i` is answered, as one step, for the frame it was first made with. */
  ghost predicate AnsweredIn(a: Moment, b: Moment, i: nat, f: Regs) { a.cur == i && Entry(a) == f && Answers(a, b) }

  /** The step in which it comes to nothing: it has to wait and a signal was raised on its task while it was parked, or
      its task dies, or the handler on top of it returns to somewhere else. */
  ghost predicate CutIn(a: Moment, b: Moment, i: nat, f: Regs) {
    a.cur == i && ((Entry(a) == f && Fails(a, b)) || Slain(a, b) || (Returns(a, b) && b.live != Rewound(f)))
  }

  lemma FateNext(a: Moment, b: Moment, i: nat, f: Regs)
    requires Sound(a) && Next(a, b) && Pending(a, i, f)
    ensures Pending(b, i, f) || AnsweredIn(a, b, i, f) || CutIn(a, b, i, f)
  {
    hide Apart, MustWait, Served, Held, Handover, Told, PickedFrom, Struckdown, Enters, OwnOnly, Nudged, NoWaiter;
    assert SoundAt(a, i);
  }

  ghost predicate Settled(tr: seq<Moment>, k: nat, i: nat, f: Regs) {
    k + 1 < |tr| && Pending(tr[k], i, f) && (AnsweredIn(tr[k], tr[k + 1], i, f) || CutIn(tr[k], tr[k + 1], i, f))
  }

  ghost predicate Follows(tr: seq<Moment>, k: nat) { 0 < k < |tr| ==> Next(tr[k - 1], tr[k]) }

  /** A run: every moment is sound and every one but the first follows from the one before by a step. */
  ghost predicate IsRun(tr: seq<Moment>) {
    tr != [] && (forall k :: 0 <= k < |tr| ==> Sound(tr[k])) && forall k :: 0 <= k < |tr| ==> Follows(tr, k)
  }

  lemma RunOn(tr: seq<Moment>, b: Moment)
    requires IsRun(tr) && Next(tr[|tr| - 1], b) && Framed(b)
    ensures IsRun(tr + [b])
  {
    hide Next, Sound, Framed;
    SoundNext(tr[|tr| - 1], b);
    var tr' := tr + [b];
    forall k | 0 <= k < |tr'| ensures Follows(tr', k) {
      assert k < |tr| ==> Follows(tr, k);
    }
  }

  lemma StepOf(tr: seq<Moment>, k: nat)
    requires IsRun(tr) && k + 1 < |tr|
    ensures Sound(tr[k]) && Sound(tr[k + 1]) && Next(tr[k], tr[k + 1])
  {
    hide Next, Sound;
    assert Follows(tr, k + 1);
  }

  /** Whatever happens, in whatever order: a call that had to wait is pending still, with the frame it was first made
      with, or at some step since it was answered as one step, or at some step since it was cut short. */
  lemma {:induction false} Fate(tr: seq<Moment>, j: nat, k: nat, i: nat, f: Regs)
    requires IsRun(tr) && j <= k < |tr| && Pending(tr[j], i, f)
    ensures Pending(tr[k], i, f) || exists l :: j <= l < k && Settled(tr, l, i, f)
    decreases k - j
  {
    hide Next, Sound, Pending, AnsweredIn, CutIn, IsRun;
    if j < k {
      StepOf(tr, j);
      FateNext(tr[j], tr[j + 1], i, f);
      if Pending(tr[j + 1], i, f) {
        Fate(tr, j + 1, k, i, f);
      } else {
        assert Settled(tr, j, i, f);
      }
    }
  }

  /** A handler that leaves the saved frame alone brings the program back onto its call. */
  lemma BackOnCall(a: Moment, i: nat)
    requires Sound(a) && i in a.asleep
    ensures Restored(Rewound(a.asleep[i])) == Rewound(a.asleep[i])
  {
    assert SoundAt(a, i);
  }

  // ---------------------------------------------------------------------------
  // The mark of an interrupted call
  // ---------------------------------------------------------------------------

  /** Task `i` carries the mark of a call cut short, and has no call it could belong to. */
  ghost predicate Stale(a: Moment, i: nat) {
    Flagged(a, i) && Lives(a.w.tasks, i) && i !in a.calls && i !in a.asleep
  }

  lemma MarkApart(a: Moment, b: Moment, c: nat, i: nat)
    requires Sound(a) && Apart(a.w.tasks, b.w.tasks, c) && i != c && Off(a.calls, b.calls, c)
    requires Off(a.asleep, b.asleep, c)
    ensures Stale(b, i) <==> Stale(a, i)
  {
    assert SoundAt(a, i);
    if Lives(a.w.tasks, i) {
      assert Has(b.w.tasks, i) && Alike(a.w.tasks[i].value, b.w.tasks[i].value);
    } else if Lives(b.w.tasks, i) {
      assert Newborn(b.w.tasks[i].value);
    }
  }

  /** A step of the running task, not of the world around it. */
  ghost predicate Own(a: Moment, b: Moment) { Ran(a, b) || Trapped(a, b) || Looked(a, b) || Ticked(a, b) }

  lemma OwnOff(a: Moment, b: Moment)
    requires Sound(a) && Own(a, b)
    ensures !a.idle && Apart(a.w.tasks, b.w.tasks, a.cur) && Off(a.calls, b.calls, a.cur)
    ensures Off(a.asleep, b.asleep, a.cur)
  {
    hide Apart, Off, Enters, Sound;
    OwnCalls(a, b);
    OwnApart(a, b);
  }

  lemma OwnCalls(a: Moment, b: Moment)
    requires Own(a, b)
    ensures !a.idle && Off(a.calls, b.calls, a.cur) && Off(a.asleep, b.asleep, a.cur)
  {
    hide Apart, MustWait, Served, Held, Handover, Told, PickedFrom, Deliverable, OwnOnly, Enters, UserFrame, Rewound;
  }

  lemma OwnApart(a: Moment, b: Moment)
    requires Sound(a) && Own(a, b)
    ensures Apart(a.w.tasks, b.w.tasks, a.cur)
  {
    hide Apart, MustWait, Served, Held, Handover, Told, PickedFrom, Deliverable, OwnOnly, ContextAt,
         UserFrame, Rewound;
    At(a, a.cur);
    PutApart(a.w.tasks, a.cur, if a.cur < |b.w.tasks| then b.w.tasks[a.cur] else None);
    assert a.w.tasks[a.cur := a.w.tasks[a.cur]] == a.w.tasks;
  }

  /** What a step of the running task does to its own mark. */
  lemma OwnMark(a: Moment, b: Moment)
    requires Sound(a) && Own(a, b)
    ensures Stale(b, a.cur) <==>
              && Flagged(a, a.cur) && !Fails(a, b) && !Slain(a, b)
              && (|| Stale(a, a.cur) || (Answers(a, b) && a.cur !in a.asleep)
                  || (Returns(a, b) && a.cur in a.asleep && a.cur !in b.calls))
  {
    hide Apart, MustWait, Served, Held, Handover, Told, PickedFrom, ContextAt, IsLowest, Reason, Rewound;
    At(a, a.cur);
    if Answers(a, b) {
      AnswerKeeps(a, b);
    } else if Parks(a, b) {
      ParksUnmarked(a, b);
    }
  }

  lemma ParksUnmarked(a: Moment, b: Moment)
    requires Parks(a, b)
    ensures !Flagged(b, a.cur) && Has(b.w.tasks, a.cur)
  {
  }

  /** The mark goes stale exactly when the call it was put on is answered after all, or is left for good by a handler
      that returns elsewhere. */
  lemma GoesStale(a: Moment, b: Moment, i: nat)
    requires Sound(a) && Next(a, b) && !Stale(a, i)
    ensures Stale(b, i) <==>
              a.cur == i && Flagged(a, i)
              && ((Answers(a, b) && i !in a.asleep) || (Returns(a, b) && i in a.asleep && i !in b.calls))
  {
    hide Sound, Apart, Off, Stale, Ran, Looked, Ticked, Fails, Parks, Dies, Serves, Answers, Returns, Flagged, Resumed,
         Typed;
    if Own(a, b) {
      OwnOff(a, b);
      OwnMark(a, b);
      Excludes(a, b);
      if i != a.cur {
        MarkApart(a, b, a.cur, i);
      }
    } else {
      AmongMark(a, b, i);
    }
  }

  lemma Excludes(a: Moment, b: Moment)
    requires Sound(a)
    ensures Answers(a, b) || Returns(a, b) ==> !Fails(a, b) && !Slain(a, b) && Own(a, b)
  {
    hide Apart, MustWait, Served, Held, Handover, Told, PickedFrom, Deliverable, ContextAt;
    At(a, a.cur);
    if Answers(a, b) {
      AnswerKeeps(a, b);
    }
  }

  lemma AmongMark(a: Moment, b: Moment, i: nat)
    requires Sound(a) && (Typed(a, b) || Resumed(a, b))
    ensures Stale(b, i) <==> Stale(a, i)
  {
    hide Sound, PickedFrom, Struckdown, Nudged, NoWaiter, Apart;
    if b != a {
      At(a, i);
      if i < MAX_TASKS {
        MarkApart(a, b, MAX_TASKS, i);
      } else {
        assert |b.w.tasks| == MAX_TASKS by { SameSize(a.w.tasks, b.w.tasks, MAX_TASKS); }
      }
    }
  }

  lemma SameSize(T: Table, T': Table, c: nat)
    requires Apart(T, T', c)
    ensures |T'| == |T|
  {
  }

  /** A stale mark goes away exactly when the next call of its task that has to wait fails for it, though no signal
      came, or its task dies. */
  lemma StaysStale(a: Moment, b: Moment, i: nat)
    requires Sound(a) && Next(a, b) && Stale(a, i)
    ensures !Stale(b, i) <==> a.cur == i && (Fails(a, b) || Slain(a, b))
  {
    hide Sound, Apart, Off, Ran, Looked, Ticked, Fails, Parks, Dies, Serves, Answers, Returns, Resumed, Typed;
    if Own(a, b) {
      OwnOff(a, b);
      OwnMark(a, b);
      if i != a.cur {
        MarkApart(a, b, a.cur, i);
      }
    } else {
      AmongMark(a, b, i);
      assert Own(a, b) || !(Fails(a, b) || Slain(a, b)) by { Untimely(a, b); }
    }
  }

  lemma Untimely(a: Moment, b: Moment)
    requires Sound(a) && (Typed(a, b) || Resumed(a, b))
    ensures Fails(a, b) ==> Own(a, b)
    ensures !Slain(a, b)
  {
    hide Apart, MustWait, Served, Held, Told, PickedFrom, Deliverable, Struckdown, Nudged, NoWaiter;
    At(a, a.cur);
  }

  // ---------------------------------------------------------------------------
  // Round robin
  // ---------------------------------------------------------------------------

  /** A step that is not a pick leaves the rotation where it is, and task numbers only grow. */
  lemma CurNext(a: Moment, b: Moment)
    requires Sound(a) && Next(a, b)
    ensures a.w.n <= b.w.n && (b.cur == a.cur || Picked(a, b))
  {
    hide Apart, MustWait, PickedFrom, Told, OwnOnly, Deliverable, Struck, Nudged, NoWaiter, StillParked, ContextAt,
         Reason;
    At(a, a.cur);
    if Answers(a, b) {
      AnswerKeeps(a, b);
    }
  }

  lemma MoreTurns(from: nat, i: nat, n: nat, n': nat)
    requires from < n <= n' && i < n
    ensures 1 <= Turns(from, i, n') <= Turns(from, i, n) + n' - n && Turns(from, i, n') <= n'
  {
  }

  /** A pick brings the rotation nearer to whoever stays ready. */
  lemma TurnsNext(a: Moment, b: Moment, i: nat)
    requires Sound(a) && Framed(b) && Next(a, b) && IsReady(a.w.tasks, i) && IsReady(b.w.tasks, i)
    ensures a.w.n <= b.w.n && i < a.w.n && a.cur < a.w.n && b.cur < b.w.n
    ensures Turns(b.cur, i, b.w.n) + (if Picked(a, b) then 1 else 0) <= Turns(a.cur, i, a.w.n) + b.w.n - a.w.n
  {
    hide Next, Sound, Turns;
    At(a, i);
    CurNext(a, b);
    MoreTurns(a.cur, i, a.w.n, b.w.n);
    if Picked(a, b) {
      var at: Table :| NextReady(at, b.w.n, a.cur, b.cur)
                       && b.w.tasks == at[b.cur := Some(at[b.cur].value.(state := Running))];
      assert i != b.cur && IsReady(at, i);
      Nearer(at, b.w.n, a.cur, b.cur, i);
    }
  }

  ghost function Picks(tr: seq<Moment>, j: nat, k: nat): nat
    requires j <= k < |tr|
    decreases k - j
  {
    if j == k then 0 else (if Picked(tr[j], tr[j + 1]) then 1 else 0) + Picks(tr, j + 1, k)
  }

  lemma {:induction false} TurnsOver(tr: seq<Moment>, j: nat, k: nat, i: nat)
    requires IsRun(tr) && j <= k < |tr| && forall l :: j <= l <= k ==> IsReady(tr[l].w.tasks, i)
    ensures i < tr[j].w.n && i < tr[k].w.n && tr[j].cur < tr[j].w.n && tr[k].cur < tr[k].w.n
    ensures Picks(tr, j, k) + Turns(tr[k].cur, i, tr[k].w.n) <= Turns(tr[j].cur, i, tr[j].w.n) + tr[k].w.n - tr[j].w.n
    decreases k - j
  {
    hide Next, Sound, Picked, Turns;
    if j < k {
      StepOf(tr, j);
      At(tr[j + 1], i);
      TurnsNext(tr[j], tr[j + 1], i);
      TurnsOver(tr, j + 1, k, i);
    } else {
      At(tr[j], i);
    }
  }

  /** A task that stays ready runs before the scheduler has picked as often as there are task numbers by then, tasks
      made in between included. */
  lemma RunsWithin(tr: seq<Moment>, j: nat, k: nat, i: nat)
    requires IsRun(tr) && j <= k < |tr| && forall l :: j <= l <= k ==> IsReady(tr[l].w.tasks, i)
    ensures Picks(tr, j, k) < tr[k].w.n
  {
    hide IsRun, Picks;
    TurnsOver(tr, j, k, i);
    MoreTurns(tr[k].cur, i, tr[k].w.n, tr[k].w.n);
    MoreTurns(tr[j].cur, i, tr[j].w.n, tr[j].w.n);
  }

  // ---------------------------------------------------------------------------
  // What goes through a pipe
  // ---------------------------------------------------------------------------

  /** The step answers a transfer through an end of pipe `p`. */
  ghost predicate Moves(a: Moment, b: Moment, p: nat, writable: bool) {
    && Answers(a, b) && Entry(a).rax == (if writable then SYS_WRITE else SYS_READ)
    && Reaches(a.w, a.cur, Entry(a), writable) && p in a.w.pipes
    && a.w.files[Opened(a.w, a.cur, Entry(a).rdi, writable)] == End(p, writable)
  }

  /** The bytes the step puts into pipe `p`: as many of the caller's as it says it took. */
  ghost function Sent(a: Moment, b: Moment, p: nat): seq<Byte> {
    if Moves(a, b, p, true) && a.w.pipes[p].readers > 0 && b.live.rax <= |b.io| then b.io[..b.live.rax] else []
  }

  /** The bytes the step takes out of pipe `p` and hands to the caller. */
  ghost function Got(a: Moment, b: Moment, p: nat): seq<Byte> { if Moves(a, b, p, false) then b.io else [] }

  ghost function Inside(a: Moment, p: nat): seq<Byte>
    requires Framed(a) && p in a.w.pipes
  {
    a.w.pipes[p].Contents()
  }

  lemma SameRing(q: Pipe, q': Pipe)
    requires q.Valid() && q'.Valid() && q'.buf == q.buf && q'.rd == q.rd && q'.wr == q.wr
    ensures q'.Contents() == q.Contents()
  {
  }

  /** The ring of every pipe that is still there is as it was. */
  ghost predicate Still(P: map<nat, Pipe>, P': map<nat, Pipe>) {
    forall p :: p in P && p in P' ==> P'[p].buf == P[p].buf && P'[p].rd == P[p].rd && P'[p].wr == P[p].wr
  }

  lemma StillTold(w: World, w': World, c: nat, r: Regs, ans: nat)
    requires Told(w, w', c, r, ans)
    ensures Still(w.pipes, w'.pipes)
  {
    hide Nudged, MayPipe, MayRun, EndsPlaced, Born, Inherits, Later, Rest, MayUse, Int32, RunAsks, Source;
  }

  /** Only an answered transfer touches what is in a pipe. */
  lemma StillNext(a: Moment, b: Moment)
    requires Sound(a) && Next(a, b) && !Answers(a, b)
    ensures Still(a.w.pipes, b.w.pipes)
  {
    hide Sound, Answers, Serves, Fails, Parks, Returns, Slain, Dies, Looked, Still;
    if Serves(a, b) {
      StillServes(a, b);
    } else if Slain(a, b) {
      StillSlain(a, b);
    } else {
      StillRest(a, b);
    }
  }

  lemma StillServes(a: Moment, b: Moment)
    requires Serves(a, b)
    ensures Still(a.w.pipes, b.w.pipes)
  {
    hide Told, Apart, OwnOnly;
    StillTold(a.w, b.w, a.cur, a.live, b.live.rax);
  }

  lemma StillSlain(a: Moment, b: Moment)
    requires Slain(a, b)
    ensures Still(a.w.pipes, b.w.pipes)
  {
    hide Apart, Handover, FirstFiles;
  }

  lemma StillRest(a: Moment, b: Moment)
    requires Next(a, b) && !Answers(a, b) && !Serves(a, b) && !Slain(a, b)
    ensures Still(a.w.pipes, b.w.pipes)
  {
    hide Apart, MustWait, Handover, PickedFrom, Nudged, NoWaiter, Deliverable, ContextAt, Struck, UserFrame,
         Rewound, Reason, StillParked, Answers, Serves, Dies, MayReturn, Handled, IsLowest;
    assert forall status :: Dies(a, b, status) ==> Slain(a, b);
  }

  /** What was in the pipe and what the step puts in is what it takes out and what is left. */
  lemma FlowNext(a: Moment, b: Moment, p: nat)
    requires Sound(a) && Framed(b) && Next(a, b) && p in a.w.pipes && p in b.w.pipes
    ensures Inside(a, p) + Sent(a, b, p) == Got(a, b, p) + Inside(b, p)
  {
    hide Next, Pipe.Contents, Pipe.Used, Sound;
    At(a, 0);
    if Answers(a, b) {
      FlowAnswers(a, b, p);
    } else {
      StillNext(a, b);
      SameRing(a.w.pipes[p], b.w.pipes[p]);
    }
  }

  lemma FlowAnswers(a: Moment, b: Moment, p: nat)
    requires Framed(a) && Framed(b) && Answers(a, b) && p in a.w.pipes && p in b.w.pipes
    ensures Inside(a, p) + Sent(a, b, p) == Got(a, b, p) + Inside(b, p)
  {
    hide Apart, Nudged, NoWaiter, Pipe.Contents, Pipe.Used, OneRuns, BufferOk, Struck, SlotAt;
    var f := Entry(a);
    if && f.rax == SYS_WRITE && Reaches(a.w, a.cur, f, true)
       && a.w.files[Opened(a.w, a.cur, f.rdi, true)] == End(p, true) {
      assert Moves(a, b, p, true) && !Moves(a, b, p, false);
    } else if f.rax == SYS_READ && Reaches(a.w, a.cur, f, false)
              && a.w.files[Opened(a.w, a.cur, f.rdi, false)] == End(p, false) {
      assert Moves(a, b, p, false) && !Moves(a, b, p, true);
    } else {
      assert !Moves(a, b, p, false) && !Moves(a, b, p, true);
      assert b.w.pipes[p] == a.w.pipes[p];
    }
  }

  ghost function AllSent(tr: seq<Moment>, p: nat, j: nat, k: nat): seq<Byte>
    requires j <= k < |tr|
    decreases k
  {
    if j == k then [] else AllSent(tr, p, j, k - 1) + Sent(tr[k - 1], tr[k], p)
  }

  ghost function AllGot(tr: seq<Moment>, p: nat, j: nat, k: nat): seq<Byte>
    requires j <= k < |tr|
    decreases k
  {
    if j == k then [] else AllGot(tr, p, j, k - 1) + Got(tr[k - 1], tr[k], p)
  }

  /** Over any stretch of any run, with any number of readers, writers, sleeps and signals: what was in a pipe and all
      that was written to it since, in order, is all that was read from it since, in order, and what is in it now. */
  lemma {:induction false} Flow(tr: seq<Moment>, p: nat, j: nat, k: nat)
    requires IsRun(tr) && j <= k < |tr| && forall l :: j <= l <= k ==> p in tr[l].w.pipes
    ensures Framed(tr[j]) && Framed(tr[k])
    ensures Inside(tr[j], p) + AllSent(tr, p, j, k) == AllGot(tr, p, j, k) + Inside(tr[k], p)
    decreases k
  {
    hide Next, Sound, Sent, Got, Inside, IsRun;
    if j == k {
      RunAt(tr, j);
    } else {
      Flow(tr, p, j, k - 1);
      StepOf(tr, k - 1);
      RunAt(tr, k);
      FlowNext(tr[k - 1], tr[k], p);
      var i, s, g := Inside(tr[j], p), AllSent(tr, p, j, k - 1), AllGot(tr, p, j, k - 1);
      var x, y := Sent(tr[k - 1], tr[k], p), Got(tr[k - 1], tr[k], p);
      assert i + (s + x) == (i + s) + x;
      assert g + Inside(tr[k - 1], p) + x == g + (Inside(tr[k - 1], p) + x);
      assert g + (y + Inside(tr[k], p)) == (g + y) + Inside(tr[k], p);
    }
  }

  lemma RunAt(tr: seq<Moment>, k: nat)
    requires IsRun(tr) && k < |tr|
    ensures Sound(tr[k]) && Framed(tr[k])
  {
  }

  /** So from a pipe that starts empty the bytes read are at every moment a prefix of the bytes written, short of
      them by no more than a pipe holds. */
  lemma ReadsArePrefix(tr: seq<Moment>, p: nat, j: nat, k: nat)
    requires IsRun(tr) && j <= k < |tr| && (forall l :: j <= l <= k ==> p in tr[l].w.pipes)
    requires tr[j].w.pipes[p].Valid() && tr[j].w.pipes[p].Contents() == []
    ensures AllGot(tr, p, j, k) <= AllSent(tr, p, j, k)
    ensures |AllSent(tr, p, j, k)| < |AllGot(tr, p, j, k)| + PIPE_SIZE
  {
    hide IsRun, AllGot, AllSent, Pipe.Contents;
    Flow(tr, p, j, k);
    var i := Inside(tr[j], p);
    assert i + AllSent(tr, p, j, k) == AllSent(tr, p, j, k);
    Small(tr[k].w.pipes[p]);
  }

  lemma Small(q: Pipe)
    requires q.Valid()
    ensures |q.Contents()| < PIPE_SIZE
  {
  }
}
