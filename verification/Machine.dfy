/** kernel/scheduler.c, kernel/file.c, kernel/pipe.c, kernel/signal.c and the dispatcher of kernel/syscall.c, as one
    machine whose steps are the kernel's entries. */
module Machine {
  import opened Bytes
  import opened Signals
  import opened Pipes
  import opened Processes
  import opened Grants

  const SYSCALL_ERROR := 0xFFFF_FFFF_FFFF_FFFF
  const INT_LEN := 2            // INT_INSTR_LEN
  const IO_MAX := 4096          // SYSCALL_IO_MAX
  const KBD_ROOM := 127         // KBD_BUFFER_SIZE - 1
  const PGID_INHERIT := 0
  const PGID_NEW := 0xFFFF_FFFF
  const STACK_TOP := 0x80_0000
  const USER_RFLAGS := 0x202

  // ---------------------------------------------------------------------------
  // The rotation
  // ---------------------------------------------------------------------------

  ghost predicate IsReady(T: Table, i: int) { Has(T, i) && T[i].value.state == Ready }

  ghost predicate NoneReady(T: Table) { forall i :: !IsReady(T, i) }

  /** How many steps of the rotation lead from `from` to `i`; a full turn if they are the same. */
  function Turns(from: nat, i: nat, n: nat): nat
    requires from < n && i < n
  {
    if i > from then i - from else i + n - from
  }

  /** `pick` is the first ready task after `from`, going round. */
  ghost predicate NextReady(T: Table, n: nat, from: nat, pick: nat) {
    && from < n && pick < n && IsReady(T, pick)
    && forall i: nat :: i < n && IsReady(T, i) ==> Turns(from, pick, n) <= Turns(from, i, n)
  }

  /** While a task stays ready and is not picked, each pick brings the rotation strictly nearer to it. */
  lemma Nearer(T: Table, n: nat, from: nat, pick: nat, i: nat)
    requires NextReady(T, n, from, pick) && i < n && IsReady(T, i) && i != pick
    ensures Turns(pick, i, n) < Turns(from, i, n)
    ensures Turns(from, i, n) <= n
  {
  }

  /** The scheduler went round from `from` over a table that became `T` and set `to` running. */
  ghost predicate PickedFrom(T: Table, n: nat, from: nat, to: nat) {
    exists at: Table :: NextReady(at, n, from, to) && T == at[to := Some(at[to].value.(state := Running))]
  }

  /** Task `c` gave the processor up: to the next ready task, which goes on with its own frame, or, with none ready, to
      the idle loop. */
  ghost predicate Handover(T: Table, n: nat, c: nat, cur: nat, idle: bool, live: Regs) {
    if idle then cur == c && NoneReady(T) else PickedFrom(T, n, c, cur) && Has(T, cur) && live == T[cur].value.regs
  }

  lemma ModWrap(x: nat, n: nat)
    requires 0 < n && x < n + n
    ensures x % n == if x < n then x else x - n
  {
    ModOf(x, n, if x < n then 0 else 1);
  }

  lemma ModOf(x: nat, n: nat, q: nat)
    requires 0 < n && q <= 1 && (if q == 0 then x < n else n <= x < n + n)
    ensures x % n == x - (if q == 0 then 0 else n)
  {
  }

  // ---------------------------------------------------------------------------
  // What a switch leaves alone
  // ---------------------------------------------------------------------------

  /** Zombies other than `cur` may have lost their tree, and their place if no parent can ask for them; everyone else
      is as before. */
  ghost predicate Swept(T: Table, T': Table, cur: nat) {
    && |T'| == |T|
    && (forall i :: Has(T', i) ==> Has(T, i))
    && (forall i :: Has(T, i) && (i == cur || !IsZombie(T, i)) ==> Has(T', i) && T'[i] == T[i])
    && (forall i :: Has(T', i) && IsZombie(T, i) ==> T'[i].value == T[i].value.(aspace := T'[i].value.aspace))
    && (forall i :: IsZombie(T, i) && ParentAlive(T, T[i].value.parent) ==> Has(T', i))
  }

  /** After a sweep a zombie other than `cur` has no tree and a live parent. */
  ghost predicate Clean(T: Table, cur: nat, upto: int) {
    forall i :: 0 <= i < upto && IsZombie(T, i) && i != cur ==>
                  T[i].value.aspace == 0 && ParentAlive(T, T[i].value.parent)
  }

  lemma SweptSelf(T: Table, cur: nat)
    ensures Swept(T, T, cur)
  {
  }

  lemma SweptOne(T: Table, cur: nat, i: nat, o: Option<Task>)
    requires IsZombie(T, i) && i != cur && (o.Some? ==> o.value == T[i].value.(aspace := o.value.aspace))
    requires o.None? ==> !ParentAlive(T, T[i].value.parent)
    ensures Swept(T, T[i := o], cur)
  {
  }

  lemma SweptJoin(T: Table, T1: Table, T2: Table, cur: nat)
    requires Swept(T, T1, cur) && Swept(T1, T2, cur)
    ensures Swept(T, T2, cur)
  {
    forall i | Has(T, i) && (i == cur || !IsZombie(T, i)) ensures Has(T2, i) && T2[i] == T[i] {
      assert Has(T1, i) && T1[i] == T[i];
    }
    forall i | Has(T2, i) ensures Has(T, i) {
      assert Has(T1, i);
    }
    forall i | Has(T2, i) && IsZombie(T, i) ensures T2[i].value == T[i].value.(aspace := T2[i].value.aspace) {
      assert Has(T1, i) && IsZombie(T1, i);
    }
    forall i | IsZombie(T, i) && ParentAlive(T, T[i].value.parent) ensures Has(T2, i) {
      assert Has(T1, i) && IsZombie(T1, i) && Has(T1, T[i].value.parent);
    }
  }

  lemma CleanStep(T: Table, T': Table, cur: nat, i: nat)
    requires Clean(T, cur, i) && Swept(T, T', cur) && i < |T| && (forall j :: 0 <= j < |T| && j != i ==> T'[j] == T[j])
    requires IsZombie(T', i) && i != cur ==> T'[i].value.aspace == 0 && ParentAlive(T', T'[i].value.parent)
    ensures Clean(T', cur, i + 1)
  {
    forall j | 0 <= j < i + 1 && IsZombie(T', j) && j != cur
      ensures T'[j].value.aspace == 0 && ParentAlive(T', T'[j].value.parent)
    {
      if j < i {
        assert IsZombie(T, j);
        assert Has(T', T[j].value.parent);
      }
    }
  }

  ghost predicate IsBlocked(T: Table, i: int) { Has(T, i) && T[i].value.state == Blocked }

  /** Everyone parked before is parked still, frame and all. */
  ghost predicate StillParked(T: Table, T': Table) {
    |T'| == |T| && forall i :: IsBlocked(T, i) ==> Has(T', i) && T'[i] == T[i]
  }

  ghost predicate NoneRuns(T: Table) { forall i :: Has(T, i) ==> T[i].value.state != Running }

  ghost predicate OnlyRuns(T: Table, cur: nat) { forall i :: Has(T, i) && T[i].value.state == Running ==> i == cur }

  lemma SweptRest(T: Table, T': Table, cur: nat)
    requires Swept(T, T', cur) && Has(T, cur) && OnlyRuns(T, cur)
    ensures Has(T', cur) && T'[cur] == T[cur] && OnlyRuns(T', cur) && StillParked(T, T')
  {
    forall i | Has(T', i) && T'[i].value.state == Running ensures i == cur {
      assert Has(T, i);
    }
  }

  lemma Stopped(T: Table, cur: nat, t: Task)
    requires OnlyRuns(T, cur) && Has(T, cur) && t.state != Running
    ensures NoneRuns(T[cur := Some(t)])
  {
    var T' := T[cur := Some(t)];
    forall i | Has(T', i) ensures T'[i].value.state != Running {
      assert i != cur ==> Has(T, i);
    }
  }

  lemma SavedParked(T0: Table, T: Table, cur: nat, t: Task)
    requires StillParked(T0, T) && Has(T, cur) && (T[cur].value.state == Blocked ==> t == T[cur].value)
    requires T[cur].value.state != Ready && Has(T0, cur) && T0[cur] == T[cur]
    ensures StillParked(T0, T[cur := Some(t)])
  {
  }

  lemma PickParked(T0: Table, T: Table, pick: nat)
    requires StillParked(T0, T) && IsReady(T, pick)
    ensures StillParked(T0, T[pick := Some(T[pick].value.(state := Running))])
  {
  }

  lemma WoodedSwitch(T: Table, trees: set<nat>, loose: set<nat>, cr3: nat, cur: nat, next: nat)
    requires Wooded(T, trees, loose, cr3, cur) && Has(T, next) && T[next].value.state != Zombie
    ensures Wooded(T, trees, loose, Space(T, next), next)
  {
  }

  lemma CleanQuiet(T: Table, T': Table, cur: nat, n: int)
    requires Clean(T, cur, n) && Quiet(T, T') && forall i :: IsZombie(T, i) && i != cur ==> T'[i] == T[i]
    ensures Clean(T', cur, n)
  {
    forall i | 0 <= i < n && IsZombie(T', i) && i != cur
      ensures T'[i].value.aspace == 0 && ParentAlive(T', T'[i].value.parent)
    {
      assert Has(T, i) && IsZombie(T, i);
      assert Has(T, T[i].value.parent) && Has(T', T[i].value.parent);
    }
  }

  /** The task a switch leaves: its frame saved, ready again if it was running. */
  ghost function Saved(t: Task, r: Regs): Task { t.(regs := r, state := if t.state == Running then Ready else t.state) }

  // ---------------------------------------------------------------------------
  // Parking a call
  // ---------------------------------------------------------------------------

  /** The frame a call is parked with: back on its `int` instruction, otherwise as it came in. */
  function Rewound(r: Regs): Regs { r.(rip := (r.rip + WORD_MOD - INT_LEN) % WORD_MOD) }

  /** The frame the processor builds when it executes the `int` the saved frame points at. */
  function Reissued(r: Regs): Regs { r.(rip := (r.rip + INT_LEN) % WORD_MOD) }

  /** A parked call, woken, comes in again exactly as it came in first. */
  lemma Rearmed(r: Regs)
    requires r.rip < WORD_MOD
    ensures Reissued(Rewound(r)) == r
  {
  }

  /** What makes waiting for `y` right for a task with frame `r`. */
  ghost predicate MayPark(T: Table, F: map<nat, File>, P: map<nat, Pipe>, con: Input, i: nat, r: Regs, y: Why) {
    && Has(T, i) && y != WaitNone
    && (y == WaitKey ==> KeyWait(r.rax, con))
    && (y == WaitChild ==> r.rax == SYS_WAIT && (exists c :: ChildOf(T, c, i)) && NoChildDead(T, i))
    && (y == WaitPipeRead ==> ReaderOk(T[i].value.(regs := r), F, P))
    && (y == WaitPipeWrite ==> WriterOk(T[i].value.(regs := r), F, P))
  }

  ghost function ParkedTask(t: Task, r: Regs, y: Why): Task { t.(state := Blocked, why := y, regs := Rewound(r)) }

  lemma ParkShape(T: Table, n: nat, F: map<nat, File>, lf: set<nat>, trees: set<nat>, lt: set<nat>, cr3: nat, cur: nat,
                  r: Regs, y: Why)
    requires Has(T, cur) && T[cur].value.state == Running && y != WaitNone
    requires Shaped(T, n) && Tidy(T) && Slotted(T, F, lf) && Wooded(T, trees, lt, cr3, cur)
    ensures var T' := T[cur := Some(ParkedTask(T[cur].value, r, y))];
            Shaped(T', n) && Tidy(T') && Slotted(T', F, lf) && Wooded(T', trees, lt, cr3, cur)
  {
    hide Slotted, Wooded;
    var T' := T[cur := Some(ParkedTask(T[cur].value, r, y))];
    var T1 := T[cur := Some(T[cur].value.(state := Ready, regs := Rewound(r), why := WaitNone))];
    QuietOne(T, cur, T1[cur].value);
    assert T' == T1[cur := Some(ParkedTask(T[cur].value, r, y))];
    forall j ensures Has(T', j) <==> Has(T, j) {}
    ParkSlots(T, F, lf, cur, ParkedTask(T[cur].value, r, y));
    ParkWooded(T, trees, lt, cr3, cur, ParkedTask(T[cur].value, r, y));
  }

  lemma ParkSlots(T: Table, F: map<nat, File>, lf: set<nat>, i: nat, t: Task)
    requires Slotted(T, F, lf) && Has(T, i) && t.fds == T[i].value.fds
    ensures Slotted(T[i := Some(t)], F, lf)
  {
    var T' := T[i := Some(t)];
    forall j, k ensures SlotAt(T', j, k) == SlotAt(T, j, k) {}
    forall f | f in F && f !in lf ensures Placed(T', f) {
      var j, k :| SlotAt(T, j, k) == f;
      assert SlotAt(T', j, k) == f;
    }
  }

  lemma ParkWooded(T: Table, trees: set<nat>, lt: set<nat>, cr3: nat, cur: nat, t: Task)
    requires Wooded(T, trees, lt, cr3, cur) && t.aspace == T[cur].value.aspace
    ensures Wooded(T[cur := Some(t)], trees, lt, cr3, cur)
  {
    var T' := T[cur := Some(t)];
    forall j ensures Space(T', j) == Space(T, j) {}
    forall h | h in trees && h !in lt ensures exists j :: Space(T', j) == h {
      var j :| Space(T, j) == h;
      assert Space(T', j) == h;
    }
  }

  lemma ParkOk(T: Table, F: map<nat, File>, P: map<nat, Pipe>, con: Input, i: nat, r: Regs, y: Why)
    requires Parked(T, F, P, con) && MayPark(T, F, P, con, i, r, y) && T[i].value.state != Zombie
    ensures Parked(T[i := Some(ParkedTask(T[i].value, r, y))], F, P, con)
  {
    hide ReaderOk, WriterOk, Parked;
    var t := T[i].value;
    RipOnly(t.(regs := r), ParkedTask(t, r, y), F, P);
    ParkedBlock(T, F, P, con, i, ParkedTask(t, r, y));
  }

  lemma RipOnly(t: Task, t': Task, F: map<nat, File>, P: map<nat, Pipe>)
    requires t'.fds == t.fds && t'.regs.rax == t.regs.rax && t'.regs.rdi == t.regs.rdi
    ensures ReaderOk(t, F, P) ==> ReaderOk(t', F, P)
    ensures WriterOk(t, F, P) ==> WriterOk(t', F, P)
  {
    if ReaderOk(t, F, P) {
      var p :| Names(t, F, End(p, false)) && p in P && P[p].Valid() && P[p].Used() == 0 && P[p].writers > 0;
      assert Names(t', F, End(p, false));
    }
    if WriterOk(t, F, P) {
      var p :| Names(t, F, End(p, true)) && p in P && P[p].Valid() && P[p].Used() == PIPE_SIZE - 1 && P[p].readers > 0;
      assert Names(t', F, End(p, true));
    }
  }

  // ---------------------------------------------------------------------------
  // Waking, seen from elsewhere
  // ---------------------------------------------------------------------------

  /** Some parked tasks were made ready; nothing else happened. */
  ghost predicate Nudged(T: Table, T': Table) {
    |T'| == |T|
    && forall i :: 0 <= i < |T| ==>
         T'[i] == T[i] || (IsBlocked(T, i) && T'[i] == Some(T[i].value.(state := Ready, why := WaitNone)))
  }

  lemma NudgedSelf(T: Table)
    ensures Nudged(T, T)
  {
  }

  lemma NudgedJoin(T: Table, T1: Table, T2: Table)
    requires Nudged(T, T1) && Nudged(T1, T2)
    ensures Nudged(T, T2)
  {
    forall i | 0 <= i < |T|
      ensures T2[i] == T[i] || (IsBlocked(T, i) && T2[i] == Some(T[i].value.(state := Ready, why := WaitNone)))
    {
      assert T1[i] == T[i] || IsBlocked(T, i);
      assert T2[i] == T1[i] || IsBlocked(T1, i);
    }
  }

  lemma WokeNudged(T: Table, T': Table, y: Why)
    requires Woke(T, T', y)
    ensures Nudged(T, T')
  {
  }

  lemma NudgedQuiet(T: Table, T': Table)
    requires Nudged(T, T') && Tidy(T)
    ensures Quiet(T, T') && Tidy(T') && forall i :: Space(T', i) == Space(T, i)
  {
    forall i ensures Has(T', i) <==> Has(T, i) {}
    forall i | Has(T, i) ensures QuietTask(T[i].value, T'[i].value) {}
    forall i ensures Space(T', i) == Space(T, i) {}
    forall i | Has(T', i) ensures Has(T, i) {}
  }

  lemma NudgedRuns(T: Table, T': Table, cur: nat, idle: bool)
    requires Nudged(T, T') && OneRuns(T, cur, idle)
    ensures OneRuns(T', cur, idle)
  {
    assert Has(T', cur);
    forall i | Has(T', i) && T'[i].value.state == Running ensures i == cur && !idle {
      assert Has(T, i);
    }
  }

  // ---------------------------------------------------------------------------
  // Everyone but one task
  // ---------------------------------------------------------------------------

  /** A task nobody did more to than wake it, pick it or raise a signal on it; only a signal raised on a parked task
      marks its call as cut short. */
  ghost predicate Alike(t: Task, t': Task) {
    && t' == t.(state := t'.state, why := t'.why, pending := t'.pending, interrupted := t'.interrupted)
    && t.pending <= t'.pending && (t.state != Zombie ==> t'.state != Zombie)
    && (t'.state == Blocked ==> t.state == Blocked)
    && (t.interrupted ==> t'.interrupted) && (t'.interrupted ==> t.interrupted || t.state == Blocked)
  }

  /** A frame that goes on in ring 3 with interrupts on. */
  predicate UserFrame(r: Regs) { r.cs == USER_CS && r.ss == USER_SS && WithFlags(r.rflags) == r.rflags }

  /** That is: ring-3 selectors, and the interrupt flag set. */
  lemma UserMeans(r: Regs)
    ensures UserFrame(r) <==> r.cs == 0x1B && r.ss == 0x23 && r.rflags / 512 % 2 == 1 && r.rflags / 2 % 2 == 1
    ensures UserFrame(r) ==> r.cs % 4 == 3
  {
    FlagBits(r.rflags, 1);
  }

  /** A task that was not there before starts in ring 3, with no signal on its record. */
  ghost predicate Newborn(t: Task) { UserFrame(t.regs) && !t.interrupted && !t.active }

  /** A dead task whose status a parent other than `c` may still ask for. */
  ghost predicate Owed(T: Table, i: int, c: nat) {
    i != c && IsZombie(T, i) && ParentAlive(T, T[i].value.parent) && T[i].value.parent != c
  }

  ghost predicate Lives(T: Table, i: int) { Has(T, i) && T[i].value.state != Zombie }

  /** Every live task but `c` kept its frame, its descriptors and its tree, nobody but `c` was parked, no status owed to
      a parent other than `c` was lost, and whoever was not alive before starts from scratch. */
  ghost predicate Apart(T: Table, T': Table, c: nat) {
    && |T'| == |T|
    && (forall i :: i != c && Has(T, i) && !IsZombie(T, i) ==> Has(T', i) && Alike(T[i].value, T'[i].value))
    && (forall i :: i != c && IsBlocked(T', i) ==> IsBlocked(T, i))
    && (forall i :: Owed(T, i, c) ==> Has(T', i) && T'[i].value == T[i].value.(aspace := T'[i].value.aspace))
    && (forall i :: i != c && Lives(T', i) && !Lives(T, i) ==> Newborn(T'[i].value))
  }

  /** What everyone but `c` is, apart from being woken, picked or swept, is what it was: no signal was raised, delivered
      or forgotten. */
  ghost predicate Untouched(T: Table, T': Table, c: nat) {
    && |T'| == |T|
    && forall i :: i != c && Has(T', i) ==>
         Has(T, i)
         && T'[i].value == T[i].value.(state := T'[i].value.state, why := T'[i].value.why, aspace := T'[i].value.aspace)
  }

  lemma UntouchedJoin(T: Table, T1: Table, T2: Table, c: nat)
    requires Untouched(T, T1, c) && Untouched(T1, T2, c)
    ensures Untouched(T, T2, c)
  {
    forall i | i != c && Has(T2, i)
      ensures Has(T, i)
      ensures T2[i].value == T[i].value.(state := T2[i].value.state, why := T2[i].value.why,
                                         aspace := T2[i].value.aspace)
    {
      assert Has(T1, i);
    }
  }

  lemma PickUntouched(T: Table, pick: nat, c: nat)
    requires IsReady(T, pick)
    ensures Untouched(T, T[pick := Some(T[pick].value.(state := Running))], c)
  {
  }

  lemma ApartJoin(T: Table, T1: Table, T2: Table, c: nat)
    requires Apart(T, T1, c) && Apart(T1, T2, c)
    ensures Apart(T, T2, c)
  {
    forall i | i != c && Has(T, i) && !IsZombie(T, i) ensures Has(T2, i) && Alike(T[i].value, T2[i].value) {
      assert Has(T1, i) && !IsZombie(T1, i);
    }
    forall i | i != c && IsBlocked(T2, i) ensures IsBlocked(T, i) {
      assert IsBlocked(T1, i);
    }
    forall i | Owed(T, i, c) ensures Has(T2, i) && T2[i].value == T[i].value.(aspace := T2[i].value.aspace) {
      assert Has(T1, T[i].value.parent) && Owed(T1, i, c);
    }
    forall i | i != c && Lives(T2, i) && !Lives(T, i) ensures Newborn(T2[i].value) {
      if Lives(T1, i) {
        assert !IsBlocked(T1, i);
        assert Has(T1, i) && !IsZombie(T1, i) && Alike(T1[i].value, T2[i].value);
      }
    }
  }

  lemma PutApart(T: Table, c: nat, o: Option<Task>)
    requires c < |T|
    ensures Apart(T, T[c := o], c) && Untouched(T, T[c := o], c)
  {
    var T' := T[c := o];
    forall i | i != c && Has(T, i) && !IsZombie(T, i) ensures Has(T', i) && Alike(T[i].value, T'[i].value) {}
    forall i | i != c && IsBlocked(T', i) ensures IsBlocked(T, i) {}
    forall i | i != c && Lives(T', i) ensures Lives(T, i) {}
    forall i | i != c && Has(T', i) ensures Has(T, i) && T'[i] == T[i] {}
  }

  /** One more task changed, in ways that do not count. */
  lemma OtherApart(T: Table, i: nat, o: Option<Task>, c: nat)
    requires i < |T| && (o.Some? && o.value.state == Blocked ==> IsBlocked(T, i))
    requires Has(T, i) && !IsZombie(T, i) ==> o.Some? && Alike(T[i].value, o.value)
    requires o.Some? && o.value.state != Zombie && !Lives(T, i) ==> Newborn(o.value)
    requires !Owed(T, i, c)
    ensures Apart(T, T[i := o], c)
  {
    var T' := T[i := o];
    forall j | j != c && Has(T, j) && !IsZombie(T, j) ensures Has(T', j) && Alike(T[j].value, T'[j].value) {}
    forall j | j != c && IsBlocked(T', j) ensures IsBlocked(T, j) {}
    forall j | j != c && Lives(T', j) && !Lives(T, j) ensures Newborn(T'[j].value) {}
  }

  lemma NudgedApart(T: Table, T': Table, c: nat)
    requires c < |T| && |T'| == |T| && Nudged(T[c := T'[c]], T')
    ensures Apart(T, T', c) && Untouched(T, T', c)
  {
    var U := T[c := T'[c]];
    forall i | i != c && Has(T, i) && !IsZombie(T, i) ensures Has(T', i) && Alike(T[i].value, T'[i].value) {
      assert U[i] == T[i] && (T'[i] == U[i] || IsBlocked(U, i));
    }
    forall i | i != c && IsBlocked(T', i) ensures IsBlocked(T, i) {
      assert U[i] == T[i] && (T'[i] == U[i] || IsBlocked(U, i));
    }
    forall i | i != c && Has(T', i) ensures Has(T, i) && (Lives(T', i) ==> Lives(T, i))
                                            && (|| T'[i] == T[i]
                                                || T'[i] == Some(T[i].value.(state := Ready, why := WaitNone))) {
      assert U[i] == T[i] && (T'[i] == U[i] || IsBlocked(U, i));
    }
  }

  lemma JustNudged(T: Table, T': Table, c: nat)
    requires Nudged(T, T')
    ensures Apart(T, T', c) && Untouched(T, T', c)
  {
    forall i | i != c && Has(T, i) && !IsZombie(T, i) ensures Has(T', i) && Alike(T[i].value, T'[i].value) {
      assert T'[i] == T[i] || IsBlocked(T, i);
    }
    forall i | i != c && IsBlocked(T', i) ensures IsBlocked(T, i) {
      assert T'[i] == T[i] || IsBlocked(T, i);
    }
    forall i | Has(T', i) ensures Has(T, i) && (Lives(T', i) ==> Lives(T, i))
                                  && (T'[i] == T[i] || T'[i] == Some(T[i].value.(state := Ready, why := WaitNone))) {
      assert T'[i] == T[i] || IsBlocked(T, i);
    }
  }

  lemma SweptApart(T: Table, T': Table, c: nat)
    requires Swept(T, T', c)
    ensures Apart(T, T', c) && Untouched(T, T', c)
  {
    forall i | i != c && Has(T, i) && !IsZombie(T, i) ensures Has(T', i) && Alike(T[i].value, T'[i].value) {}
    forall i | i != c && IsBlocked(T', i) ensures IsBlocked(T, i) {
      assert Has(T, i) && (IsZombie(T, i) || T'[i] == T[i]);
    }
    forall i | i != c && Has(T', i) ensures Has(T, i) && (Lives(T', i) ==> Lives(T, i)) {
      assert Has(T, i) && (IsZombie(T, i) || T'[i] == T[i]);
    }
  }

  lemma DeathApart(T: Table, c: nat, status: nat)
    requires Has(T, c)
    ensures Apart(T, AfterDeath(T, c, status), c) && Untouched(T, AfterDeath(T, c, status), c)
  {
    var T' := AfterDeath(T, c, status);
    forall i | i != c && Has(T, i) && !IsZombie(T, i) ensures Has(T', i) && Alike(T[i].value, T'[i].value) {}
    forall i | i != c && IsBlocked(T', i) ensures IsBlocked(T, i) {}
    forall i | i != c && Has(T', i) ensures Has(T, i) && (Lives(T', i) ==> Lives(T, i)) {}
  }

  // ---------------------------------------------------------------------------
  // A call that may wait, as one step
  // ---------------------------------------------------------------------------

  /** What a call can see and change. */
  datatype World = World(tasks: Table, n: nat, files: map<nat, File>, pipes: map<nat, Pipe>, keys: seq<Byte>, eof: bool,
                         fg: nat, trees: set<nat>, grants: seq<bool>)

  /** The file behind descriptor `fd` of task `i` if it is open and faces the right way, else 0. */
  ghost function Opened(w: World, i: nat, fd: nat, writable: bool): nat {
    var f := SlotAt(w.tasks, i, fd);
    if fd < MAX_FDS && f != 0 && f in w.files && w.files[f].writable == writable then f else 0
  }

  /** The buffer a transfer names, of which one call takes at most 4096 bytes, lies in the ring-3 region. */
  predicate BufferOk(r: Regs) { RangeOk(r.rsi, Least(r.rdx, IO_MAX)) }

  /** A transfer that gets as far as the file: open, of some bytes, and with a good buffer. */
  ghost predicate Reaches(w: World, i: nat, r: Regs, writable: bool) {
    Opened(w, i, r.rdi, writable) != 0 && r.rdx != 0 && BufferOk(r)
  }

  /** A transfer of more than a page is one of a page. */
  lemma BufferMeans(r: Regs)
    ensures BufferOk(r) <==>
              && 0x40_0000 <= r.rsi < 0xA0_0000
              && r.rsi + (if r.rdx < 4096 then r.rdx else 4096) <= 0xA0_0000
  {
  }

  /** SYS_WAIT stores the child's number through a pointer only if it is given one, and then it must be good. */
  predicate StoreOk(r: Regs) { r.rdi == 0 || RangeOk(r.rdi, 8) }

  lemma StoreMeans(r: Regs)
    ensures StoreOk(r) <==> r.rdi == 0 || 0x40_0000 <= r.rdi <= 0xA0_0000 - 8
  {
  }

  /** The eight bytes SYS_WAIT stores. */
  function IdBytes(z: Byte): (b: seq<Byte>)
    ensures |b| == 8 && Word(b, 0) == z
  {
    [z, 0, 0, 0, 0, 0, 0, 0]
  }

  ghost predicate NoChildDead(T: Table, i: nat) { forall c :: ChildOf(T, c, i) ==> !IsZombie(T, c) }

  /** The call with frame `r` has nothing to answer with yet. */
  ghost predicate MustWait(w: World, i: nat, r: Regs) {
    if r.rax == SYS_READKEY then w.keys == []
    else if r.rax == SYS_READ then
      Reaches(w, i, r, false) && match w.files[Opened(w, i, r.rdi, false)]
      case Console(_) => w.keys == [] && !w.eof
      case End(p, _) => p in w.pipes && w.pipes[p].Valid() && w.pipes[p].Used() == 0 && w.pipes[p].writers > 0
    else if r.rax == SYS_WRITE then
      Reaches(w, i, r, true) && match w.files[Opened(w, i, r.rdi, true)]
      case Console(_) => false
      case End(p, _) =>
        p in w.pipes && w.pipes[p].Valid() && w.pipes[p].Used() == PIPE_SIZE - 1 && w.pipes[p].readers > 0
    else r.rax == SYS_WAIT && StoreOk(r) && (exists c :: ChildOf(w.tasks, c, i)) && NoChildDead(w.tasks, i)
  }

  function Least(a: nat, b: nat): nat { if a < b then a else b }

  /** The effect of a read that need not wait: the bytes it hands over and the number it answers. */
  ghost predicate ReadServed(w: World, w': World, i: nat, r: Regs, out: seq<Byte>, ans: nat) {
    var f, len := Opened(w, i, r.rdi, false), Least(r.rdx, IO_MAX);
    if f == 0 then w' == w && out == [] && ans == SYSCALL_ERROR
    else if r.rdx == 0 then w' == w && out == [] && ans == 0
    else if !BufferOk(r) then w' == w && out == [] && ans == SYSCALL_ERROR
    else match w.files[f]
      case Console(_) =>
        if w.keys == [] then w' == w.(eof := false) && out == [] && ans == 0
        else w' == w.(keys := w.keys[Least(|w.keys|, len)..]) && out == w.keys[..Least(|w.keys|, len)] && ans == |out|
      case End(p, _) =>
        && p in w.pipes && w.pipes[p].Valid()
        && if w.pipes[p].Used() == 0 then w' == w && out == [] && ans == 0
           else
             && p in w'.pipes && w'.pipes[p].Valid() && w' == w.(tasks := w'.tasks, pipes := w.pipes[p := w'.pipes[p]])
             && ans == |out| == Least(w.pipes[p].Used(), len) && out + w'.pipes[p].Contents() == w.pipes[p].Contents()
             && Nudged(w.tasks, w'.tasks) && NoWaiter(w'.tasks, WaitPipeWrite)
  }

  /** The effect of a write that need not wait. */
  ghost predicate WriteServed(w: World, w': World, i: nat, r: Regs, buffer: seq<Byte>, ans: nat) {
    var f := Opened(w, i, r.rdi, true);
    if f == 0 then w' == w && ans == SYSCALL_ERROR
    else if r.rdx == 0 then w' == w && ans == 0
    else if !BufferOk(r) then w' == w && ans == SYSCALL_ERROR
    else match w.files[f]
      case Console(_) => w' == w && ans == |buffer|
      case End(p, _) =>
        && p in w.pipes && w.pipes[p].Valid() && Has(w.tasks, i)
        && if w.pipes[p].readers == 0
           then w' == w.(tasks := w.tasks[i := Some(Struck(w.tasks[i].value, SIG_PIPE))]) && ans == SYSCALL_ERROR
           else
             && p in w'.pipes && w'.pipes[p].Valid() && w' == w.(tasks := w'.tasks, pipes := w.pipes[p := w'.pipes[p]])
             && ans == Least(w.pipes[p].Space(), |buffer|)
             && w'.pipes[p].Contents() == w.pipes[p].Contents() + buffer[..ans]
             && Nudged(w.tasks, w'.tasks) && NoWaiter(w'.tasks, WaitPipeRead)
  }

  /** A read of a pipe takes the oldest bytes there are, up to what was asked for and to a page; one of the console the
      oldest keys. */
  lemma ReadMeans(w: World, w': World, i: nat, r: Regs, out: seq<Byte>, ans: nat)
    requires ReadServed(w, w', i, r, out, ans) && Reaches(w, i, r, false)
    ensures ans == |out|
    ensures var want, f := if r.rdx < 4096 then r.rdx else 4096, w.files[Opened(w, i, r.rdi, false)];
            match f
            case Console(_) => && out == w.keys[..if |w.keys| < want then |w.keys| else want]
                               && out + w'.keys == w.keys
            case End(p, _) => && p in w.pipes && w.pipes[p].Valid() && p in w'.pipes && w'.pipes[p].Valid()
                              && var all := w.pipes[p].Contents();
                                 && out == all[..if |all| < want then |all| else want]
                                 && out + w'.pipes[p].Contents() == all
  {
    hide Pipe.Contents, Pipe.Used, Nudged, NoWaiter, BufferOk;
    match w.files[Opened(w, i, r.rdi, false)]
    case Console(_) =>
    case End(p, _) =>
      assert out == (out + w'.pipes[p].Contents())[..|out|];
  }

  /** A write to a pipe someone may read puts in the first of the bytes brought, as many as fit into 4095; to a pipe
      nobody may read it puts in none, and raises SIGPIPE on the writer. */
  lemma WriteMeans(w: World, w': World, i: nat, r: Regs, buffer: seq<Byte>, ans: nat)
    requires WriteServed(w, w', i, r, buffer, ans) && Reaches(w, i, r, true)
    ensures match w.files[Opened(w, i, r.rdi, true)]
            case Console(_) => w' == w && ans == |buffer|
            case End(p, _) =>
              && p in w.pipes && w.pipes[p].Valid() && p in w'.pipes && w'.pipes[p].Valid()
              && var all, now := w.pipes[p].Contents(), w'.pipes[p].Contents();
                 if w.pipes[p].readers == 0
                 then now == all && ans == 0xFFFF_FFFF_FFFF_FFFF && Has(w'.tasks, i) && 13 in w'.tasks[i].value.pending
                 else && |all| <= 4095 && ans == (if 4095 - |all| < |buffer| then 4095 - |all| else |buffer|)
                      && now == all + buffer[..ans]
  {
    hide Pipe.Contents, Nudged, NoWaiter, BufferOk;
  }

  /** The effect of a wait that need not wait: a bad pointer, no child, or the first dead one buried, its number stored
      if the caller asked for it. */
  ghost predicate WaitServed(w: World, w': World, i: nat, r: Regs, out: seq<Byte>, ans: nat) {
    if !StoreOk(r) || forall c :: !ChildOf(w.tasks, c, i) then w' == w && out == [] && ans == SYSCALL_ERROR
    else exists z :: FirstDead(w.tasks, z, i) && ans == w.tasks[z].value.status && z < 256
                     && out == (if r.rdi == 0 then [] else IdBytes(z))
                     && w' == w.(tasks := w.tasks[z := None], trees := w.trees - {w.tasks[z].value.aspace})
  }

  /** The effect of a call that need not wait; `bytes` are those a write brings or the call stores in the caller's
      memory. */
  ghost predicate Served(w: World, w': World, i: nat, r: Regs, bytes: seq<Byte>, ans: nat) {
    if r.rax == SYS_READKEY then w.keys != [] && w' == w.(keys := w.keys[1..]) && bytes == [] && ans == w.keys[0]
    else if r.rax == SYS_READ then ReadServed(w, w', i, r, bytes, ans)
    else if r.rax == SYS_WRITE then WriteServed(w, w', i, r, bytes, ans)
    else r.rax == SYS_WAIT && WaitServed(w, w', i, r, bytes, ans)
  }

  /** What the call would wait for. */
  ghost function Reason(w: World, i: nat, r: Regs): Why {
    if r.rax == SYS_READKEY then WaitKey
    else if r.rax == SYS_WAIT then WaitChild
    else if r.rax == SYS_WRITE then WaitPipeWrite
    else if Opened(w, i, r.rdi, false) in w.files && w.files[Opened(w, i, r.rdi, false)].Console? then WaitKey
    else WaitPipeRead
  }

  /** A call that had to wait changed nothing shared: it is parked, or, cut short by a signal, it fails. */
  ghost predicate Held(w: World, w': World, i: nat, r: Regs, y: Why, cur: nat, idle: bool, live: Regs) {
    && w'.files == w.files && w'.pipes == w.pipes && w'.keys == w.keys && w'.eof == w.eof && Has(w.tasks, i)
    && if w.tasks[i].value.interrupted
       then w' == w.(tasks := w.tasks[i := Some(w.tasks[i].value.(interrupted := false))]) && cur == i && !idle
            && live == r.(rax := SYSCALL_ERROR)
       else Has(w'.tasks, i) && w'.tasks[i] == Some(ParkedTask(w.tasks[i].value, r, y))
            && StillParked(w.tasks, w'.tasks)
            && w'.n == w.n && w'.fg == w.fg && Handover(w'.tasks, w'.n, i, cur, idle, live) && (!idle ==> cur != i)
  }

  class Machine {
    var tasks: Table
    var n: nat                    // num_tasks
    var cur: nat                  // current
    var idle: bool                // scheduler_idling
    var files: map<nat, File>
    var pipes: map<nat, Pipe>
    var keys: seq<Byte>           // the keyboard ring
    var eof: bool                 // console_eof
    var fg: nat                   // foreground_pgid
    var trees: set<nat>           // address spaces not destroyed yet
    var cr3: nat
    var live: Regs                // the frame the kernel will return through
    var grants: seq<bool>         // how the requests for memory to come are answered

    /** Everything that must hold inside the kernel too, while some files, pipes and trees are in hand. */
    ghost predicate Inv(lf: set<nat>, bp: set<nat>, lt: set<nat>)
      reads this
    {
      && Shaped(tasks, n) && Tidy(tasks)
      && Slotted(tasks, files, lf) && Counted(files, pipes, bp)
      && Parked(tasks, files, pipes, Input(keys, eof))
      && Wooded(tasks, trees, lt, cr3, cur)
    }

    /** What holds between kernel entries. */
    ghost predicate Valid()
      reads this
    {
      Inv({}, {}, {}) && OneRuns(tasks, cur, idle) && (idle ==> tasks[cur].value.regs == live)
    }

    /** Nobody but the current task is marked running. */
    ghost predicate Alone()
      reads this
    {
      Has(tasks, cur) && OnlyRuns(tasks, cur)
    }

    ghost function Now(): World
      reads this
    {
      World(tasks, n, files, pipes, keys, eof, fg, trees, grants)
    }

    /** scheduler_wake */
    method Wake(y: Why)
      requires Shaped(tasks, n)
      modifies `tasks
      ensures Woke(old(tasks), tasks, y)
    {
      var i := 0;
      while i < n
        invariant 0 <= i <= n && |tasks| == MAX_TASKS
        invariant forall j :: 0 <= j < i ==> tasks[j] == WakeOne(old(tasks)[j], y)
        invariant forall j :: i <= j < MAX_TASKS ==> tasks[j] == old(tasks)[j]
      {
        if tasks[i].Some? {
          if tasks[i].value.state == Blocked && tasks[i].value.why == y {
            tasks := tasks[i := Some(tasks[i].value.(state := Ready, why := WaitNone))];
          }
        }
        i := i + 1;
      }
    }

    /** find_next_ready */
    method FindNextReady(from: nat) returns (pick: int)
      requires Shaped(tasks, n) && from < n
      ensures pick < 0 <==> forall i :: !IsReady(tasks, i)
      ensures pick >= 0 ==> NextReady(tasks, n, from, pick)
      ensures pick > from ==> forall j :: from < j < pick ==> !IsReady(tasks, j)
      ensures 0 <= pick <= from ==> forall j :: from < j < n || 0 <= j < pick ==> !IsReady(tasks, j)
    {
      var i := 1;
      while i <= n
        invariant 1 <= i <= n + 1
        invariant forall j: nat :: j < n && Turns(from, j, n) < i ==> !IsReady(tasks, j)
      {
        var cand := (from + i) % n;
        CandTurns(from, i);
        if tasks[cand].Some? {
          if tasks[cand].value.state == Ready {
            assert IsReady(tasks, cand);
            return cand;
          }
        }
        i := i + 1;
      }
      forall j ensures !IsReady(tasks, j) {
        if 0 <= j < n {
          assert Turns(from, j, n) <= n;
        }
      }
      pick := -1;
    }

    lemma CandTurns(from: nat, i: nat)
      requires 0 < n && from < n && 1 <= i <= n
      ensures var cand := (from + i) % n;
              cand < n && Turns(from, cand, n) == i && forall j: nat :: j < n && Turns(from, j, n) == i ==> j == cand
    {
      ModWrap(from + i, n);
    }

    /** parent_alive */
    method IsParentAlive(p: nat) returns (b: bool)
      requires Shaped(tasks, n)
      ensures b == ParentAlive(tasks, p)
    {
      if p == NO_PARENT {
        return false;
      }
      if p >= n {
        return false;
      }
      if tasks[p].None? {
        return false;
      }
      b := tasks[p].value.state != Zombie;
    }

    /** paging_destroy_address_space, as the scheduler may call it: never on the tree in CR3, never twice. */
    method FellTree(h: nat)
      requires h in trees && h != cr3
      modifies `trees
      ensures trees == old(trees) - {h}
    {
      trees := trees - {h};
    }

    /** One task of the sweep. */
    method SweepOne(i: nat)
      requires Inv({}, {}, {}) && i < n
      modifies `tasks, `trees
      ensures Inv({}, {}, {}) && Swept(old(tasks), tasks, cur)
      ensures forall j :: 0 <= j < |tasks| && j != i ==> tasks[j] == old(tasks)[j]
      ensures IsZombie(tasks, i) && i != cur ==> tasks[i].value.aspace == 0 && ParentAlive(tasks, tasks[i].value.parent)
    {
      hide Slotted, Counted, Parked, Wooded, Tidy, Swept, ParentAlive;
      ghost var T := tasks;
      SweptSelf(tasks, cur);
      if tasks[i].None? || tasks[i].value.state != Zombie {
        return;
      }
      if i == cur {
        return;
      }
      if tasks[i].value.aspace != 0 {
        Fell(i);
        SweptOne(T, cur, i, tasks[i]);
      }
      var alive := IsParentAlive(tasks[i].value.parent);
      if !alive {
        ghost var T1 := tasks;
        SweptOne(T1, cur, i, None);
        Bury(i);
        SweptJoin(T, T1, tasks, cur);
      }
    }

    lemma Zombied(i: nat)
      requires Inv({}, {}, {}) && IsZombie(tasks, i)
      ensures tasks[i].value.why == WaitNone && Has(tasks, cur)
    {
    }

    /** A zombie's tree is destroyed and forgotten in one step. */
    method Fell(i: nat)
      requires Inv({}, {}, {}) && IsZombie(tasks, i) && i != cur && tasks[i].value.aspace != 0
      modifies `tasks, `trees
      ensures Inv({}, {}, {}) && tasks == old(tasks)[i := Some(old(tasks)[i].value.(aspace := 0))]
      ensures trees == old(trees) - {old(tasks)[i].value.aspace}
    {
      hide Slotted, Counted, Parked, Wooded, Shaped, Tidy, Quiet;
      ghost var T := tasks;
      Zombied(i);
      FelledWooded(T, trees, cr3, cur, i);
      FelledQuiet(T, i);
      ghost var T' := T[i := Some(T[i].value.(aspace := 0))];
      QuietShape(T, T', n);
      QuietSlots(T, T', files, {});
      QuietParked(T, T', files, pipes, Input(keys, eof));
      FelledTidy(T, i);
      FellTree(tasks[i].value.aspace);
      tasks := tasks[i := Some(tasks[i].value.(aspace := 0))];
    }

    lemma FelledTidy(T: Table, i: nat)
      requires Tidy(T) && Has(T, i)
      ensures Tidy(T[i := Some(T[i].value.(aspace := 0))])
    {
      var T' := T[i := Some(T[i].value.(aspace := 0))];
      forall j | Has(T', j) ensures Has(T, j) {}
    }

    /** A zombie nobody can wait for, or somebody just did, leaves the table. */
    method Bury(i: nat)
      requires Inv({}, {}, {}) && IsZombie(tasks, i) && i != cur && tasks[i].value.aspace == 0
      modifies `tasks
      ensures Inv({}, {}, {}) && tasks == old(tasks)[i := None]
    {
      hide Slotted, Counted, Parked, Wooded, Shaped, Tidy;
      BuriedShape(tasks, n, i);
      BuriedSlots(tasks, files, {}, i);
      BuriedParked(tasks, files, pipes, Input(keys, eof), i);
      BuriedWooded(tasks, trees, cr3, cur, i);
      tasks := tasks[i := None];
    }

    /** reap_sweep */
    method ReapSweep()
      requires Inv({}, {}, {})
      modifies `tasks, `trees
      ensures Inv({}, {}, {}) && Swept(old(tasks), tasks, cur) && Clean(tasks, cur, n)
    {
      hide Machine.Inv, Swept, Clean;
      var i := 0;
      SweptSelf(tasks, cur);
      CleanNone(tasks, cur);
      while i < n
        invariant 0 <= i <= n && Inv({}, {}, {}) && Swept(old(tasks), tasks, cur) && Clean(tasks, cur, i)
      {
        ghost var T := tasks;
        InTable(i);
        SweepOne(i);
        SweptJoin(old(tasks), T, tasks, cur);
        InTable(i);
        CleanStep(T, tasks, cur, i);
        i := i + 1;
      }
    }

    lemma CleanNone(T: Table, c: nat)
      ensures Clean(T, c, 0)
    {
    }

    lemma InTable(i: nat)
      requires Inv({}, {}, {}) && i < n
      ensures i < |tasks| && |tasks| == MAX_TASKS
    {
    }

    /** A change to one task that others cannot see. */
    lemma QuietInv(i: nat, t: Task, lf: set<nat>, bp: set<nat>, lt: set<nat>)
      requires Inv(lf, bp, lt) && Has(tasks, i) && QuietTask(tasks[i].value, t) && t.aspace == tasks[i].value.aspace
      requires t.state == Blocked <==> t.why != WaitNone
      ensures var T' := tasks[i := Some(t)];
              Quiet(tasks, T') && Shaped(T', n) && Tidy(T') && Slotted(T', files, lf)
              && Parked(T', files, pipes, Input(keys, eof))
              && Wooded(T', trees, lt, cr3, cur)
    {
      hide Slotted, Counted, Parked, Wooded, Shaped;
      var T' := tasks[i := Some(t)];
      QuietOne(tasks, i, t);
      QuietShape(tasks, T', n);
      QuietSlots(tasks, T', files, lf);
      QuietParked(tasks, T', files, pipes, Input(keys, eof));
      forall j ensures Space(T', j) == Space(tasks, j) {}
      QuietWooded(tasks, T', trees, lt, cr3, cur);
      forall j | Has(T', j) ensures Has(tasks, j) {}
    }

    /** The second half of a switch: task `next` runs, on its own frame and its own tree. */
    method Dispatch(next: nat)
      requires Inv({}, {}, {}) && NoneRuns(tasks) && IsReady(tasks, next) && !idle && tasks[next].value.aspace != 0
      requires next == cur ==> live == tasks[next].value.regs
      modifies `tasks, `cur, `live, `cr3
      ensures Valid() && cur == next && live == tasks[cur].value.regs && cr3 == tasks[cur].value.aspace
      ensures tasks == old(tasks)[next := Some(old(tasks)[next].value.(state := Running))]
      ensures Quiet(old(tasks), tasks)
    {
      hide Slotted, Counted, Parked, Wooded, Shaped, Tidy;
      TidyAt(next);
      QuietInv(next, tasks[next].value.(state := Running), {}, {}, {});
      tasks := tasks[next := Some(tasks[next].value.(state := Running))];
      NowRuns(old(tasks), next);
      WoodedSwitch(tasks, trees, {}, cr3, cur, next);
      Loaded(cr3, cur);
      if next == cur {
        return;
      }
      cur := next;
      live := tasks[next].value.regs;
      cr3 := tasks[next].value.aspace;
    }

    lemma Loaded(c: nat, k: nat)
      requires Wooded(tasks, trees, {}, c, k)
      ensures Has(tasks, k) && c == tasks[k].value.aspace
    {
    }

    lemma NowRuns(T: Table, next: nat)
      requires NoneRuns(T) && IsReady(T, next)
      ensures OneRuns(T[next := Some(T[next].value.(state := Running))], next, false)
    {
      var T' := T[next := Some(T[next].value.(state := Running))];
      forall i | Has(T', i) && T'[i].value.state == Running ensures i == next {
        assert i != next ==> Has(T, i);
      }
    }

    lemma TidyAt(i: nat)
      requires Tidy(tasks) && Has(tasks, i)
      ensures tasks[i].value.state == Blocked <==> tasks[i].value.why != WaitNone
    {
    }

    lemma CurBelow()
      requires Shaped(tasks, n) && Has(tasks, cur)
      ensures cur < n
    {
    }

    lemma Spacious(i: nat)
      requires Wooded(tasks, trees, {}, cr3, cur) && IsReady(tasks, i)
      ensures tasks[i].value.aspace != 0
    {
    }

    /** The first half of a switch: the dead are swept and the current task's frame is saved. */
    method PutAway()
      requires Inv({}, {}, {}) && Alone() && !idle && tasks[cur].value.state != Ready
      requires tasks[cur].value.state == Blocked ==> tasks[cur].value.regs == live
      modifies `tasks, `trees
      ensures Inv({}, {}, {}) && NoneRuns(tasks) && StillParked(old(tasks), tasks) && Clean(tasks, cur, n)
      ensures Has(tasks, cur) && tasks[cur].value == Saved(old(tasks)[cur].value, live)
      ensures Apart(old(tasks), tasks, cur) && Untouched(old(tasks), tasks, cur)
    {
      hide Slotted, Counted, Parked, Wooded, Tidy, Swept, Clean, Quiet, Apart, Untouched, StillParked;
      ReapSweep();
      SweptRest(old(tasks), tasks, cur);
      SweptApart(old(tasks), tasks, cur);
      ghost var T := tasks;
      var t := tasks[cur].value.(regs := live);
      if t.state == Running {
        t := t.(state := Ready);
      }
      TidyAt(cur);
      QuietInv(cur, t, {}, {}, {});
      tasks := tasks[cur := Some(t)];
      CleanQuiet(T, tasks, cur, n);
      Stopped(T, cur, t);
      SavedParked(old(tasks), T, cur, t);
      PutApart(T, cur, Some(t));
      ApartJoin(old(tasks), T, tasks, cur);
      UntouchedJoin(old(tasks), T, tasks, cur);
    }

    /** schedule: sweep, save the frame, go round to the next ready task; with none, park in the idle loop. */
    method Schedule() returns (ghost at: Table)
      requires Inv({}, {}, {}) && Alone() && !idle && tasks[cur].value.state != Ready
      requires tasks[cur].value.state == Blocked ==> tasks[cur].value.regs == live
      modifies `tasks, `trees, `cur, `idle, `live, `cr3
      ensures Valid() && StillParked(old(tasks), tasks) && Clean(tasks, old(cur), n)
      ensures idle <==> forall i :: !IsReady(at, i)
      ensures idle ==> cur == old(cur) && live == old(live) && cr3 == old(cr3) && tasks == at
      ensures !idle ==> NextReady(at, n, old(cur), cur) && live == tasks[cur].value.regs
                        && tasks == at[cur := Some(at[cur].value.(state := Running))]
      ensures Has(at, old(cur)) && at[old(cur)].value == Saved(old(tasks)[old(cur)].value, old(live))
      ensures Apart(old(tasks), tasks, old(cur)) && Untouched(old(tasks), tasks, old(cur))
      ensures Handover(tasks, n, old(cur), cur, idle, live)
    {
      hide Slotted, Counted, Parked, Wooded, Tidy, Clean, Quiet, Apart, Untouched, StillParked;
      PutAway();
      at := tasks;
      CurBelow();
      var pick := FindNextReady(cur);
      if pick < 0 {
        idle := true;
        return;
      }
      Spacious(pick);
      ghost var c := cur;
      Dispatch(pick);
      CleanQuiet(at, tasks, c, n);
      PickParked(old(tasks), at, pick);
      OtherApart(at, pick, tasks[pick], c);
      PickUntouched(at, pick, c);
      ApartJoin(old(tasks), at, tasks, c);
      UntouchedJoin(old(tasks), at, tasks, c);
    }

    /** task_block: a call cut short by a signal is told so; any other is parked, with the frame it came in with
        moved back onto its `int`, and another task runs. No file, pipe or key is touched. */
    method TaskBlock(y: Why) returns (interrupted: bool)
      requires Valid() && !idle && MayPark(tasks, files, pipes, Input(keys, eof), cur, live, y)
      modifies `tasks, `trees, `cur, `idle, `live, `cr3
      ensures Valid() && interrupted == old(tasks)[old(cur)].value.interrupted && Apart(old(tasks), tasks, old(cur))
      ensures interrupted ==>
                cur == old(cur) && tasks == old(tasks)[cur := Some(old(tasks)[cur].value.(interrupted := false))]
                              && trees == old(trees) && !idle && live == old(live) && cr3 == old(cr3)
      ensures !interrupted ==>
                Has(tasks, old(cur)) && tasks[old(cur)] == Some(ParkedTask(old(tasks)[old(cur)].value, old(live), y))
                               && StillParked(old(tasks), tasks) && Handover(tasks, n, old(cur), cur, idle, live)
      ensures !interrupted ==>
                var t := tasks[old(cur)].value;
                && t.state == Blocked && t.why == y
                && t.regs == old(live).(rip := (old(live).rip + WORD_MOD - 2) % WORD_MOD)
                && t == old(tasks)[old(cur)].value.(state := t.state, why := t.why, regs := t.regs)
    {
      hide Slotted, Counted, Parked, Wooded, Tidy, MayPark, Clean, Apart, Untouched, PickedFrom;
      CurRuns();
      MeantIt(y);
      if tasks[cur].value.interrupted {
        QuietInv(cur, tasks[cur].value.(interrupted := false), {}, {}, {});
        tasks := tasks[cur := Some(tasks[cur].value.(interrupted := false))];
        StillRuns(old(tasks), cur, tasks[cur].value);
        PutApart(old(tasks), cur, tasks[cur]);
        return true;
      }
      ParkShape(tasks, n, files, {}, trees, {}, cr3, cur, live, y);
      ParkOk(tasks, files, pipes, Input(keys, eof), cur, live, y);
      ParkAlone(tasks, cur, ParkedTask(tasks[cur].value, live, y));
      live := Rewound(live);
      tasks := tasks[cur := Some(tasks[cur].value.(state := Blocked, why := y, regs := live))];
      ghost var T := tasks;
      PutApart(old(tasks), cur, tasks[cur]);
      ghost var at := Schedule();
      ParkJoin(old(tasks), T, tasks, old(cur));
      ApartJoin(old(tasks), T, tasks, old(cur));
      interrupted := false;
    }

    /** The tail of every call that must wait. */
    method Sleep(y: Why)
      requires Valid() && !idle && MayPark(tasks, files, pipes, Input(keys, eof), cur, live, y)
      modifies `tasks, `trees, `cur, `idle, `live, `cr3
      ensures Valid() && Held(old(Now()), Now(), old(cur), old(live), y, cur, idle, live)
      ensures Apart(old(tasks), tasks, old(cur))
    {
      hide Slotted, Counted, Parked, Wooded, Tidy, MayPark, Apart, StillParked, Shaped, PickedFrom;
      var interrupted := TaskBlock(y);
      if interrupted {
        Answer(SYSCALL_ERROR);
      }
    }

    lemma CurRuns()
      requires Valid() && !idle
      ensures Has(tasks, cur) && tasks[cur].value.state == Running && tasks[cur].value.why == WaitNone && cur < n
      ensures OnlyRuns(tasks, cur)
    {
    }

    lemma MeantIt(y: Why)
      requires MayPark(tasks, files, pipes, Input(keys, eof), cur, live, y)
      ensures y != WaitNone
    {
    }

    // -------------------------------------------------------------------------
    // Files
    // -------------------------------------------------------------------------

    /** kmalloc of a file_t or a pipe_t: some address not in use, or 0 if the request is refused. */
    method Kmalloc() returns (a: nat)
      modifies `grants
      ensures grants == Rest(old(grants), 1) && (a != 0 <==> Yes(old(grants)))
      ensures a != 0 ==> a !in files && a !in pipes
    {
      var yes := Yes(grants);
      grants := Rest(grants, 1);
      a := 0;
      if yes {
        Unused(files.Keys + pipes.Keys);
        var spot: nat :| spot != 0 && spot !in files.Keys + pipes.Keys;
        a := spot;
      }
    }

    /** A wake, with what it keeps. */
    method WakeAll(y: Why, ghost lf: set<nat>, ghost bp: set<nat>, ghost lt: set<nat>)
      requires Inv(lf, bp, lt) && y != WaitNone
      modifies `tasks
      ensures Inv(lf, bp, lt) && NoWaiter(tasks, y) && Nudged(old(tasks), tasks)
    {
      hide Slotted, Counted, Parked, Wooded, Tidy, Shaped, Woke, Quiet;
      Wake(y);
      ghost var T := old(tasks);
      WokeQuiet(T, tasks, y);
      WokeNudged(T, tasks, y);
      NudgedQuiet(T, tasks);
      QuietShape(T, tasks, n);
      QuietSlots(T, tasks, files, lf);
      QuietParked(T, tasks, files, pipes, Input(keys, eof));
      QuietWooded(T, tasks, trees, lt, cr3, cur);
    }

    /** file_close on a file in no slot: the end is uncounted, whoever waited on its kind is woken if it was the
        last, and a pipe with no ends left is freed. */
    method FileClose(f: nat, ghost lf: set<nat>, ghost lt: set<nat>)
      requires Inv(lf, {}, lt) && f in lf && f in files
      modifies `tasks, `files, `pipes
      ensures Inv(lf - {f}, {}, lt) && Nudged(old(tasks), tasks) && files == old(files) - {f}
      ensures old(files)[f].Console? ==> pipes == old(pipes) && tasks == old(tasks)
      ensures Closable(old(files), old(pipes), f) && pipes == AfterClose(old(files), old(pipes), f)
    {
      hide Slotted, Counted, Parked, Wooded, Tidy, Shaped, NoWaiter, Nudged;
      CloseCounted(files, pipes, f);
      NudgedSelf(tasks);
      if files[f].End? {
        var p := files[f].pipe;
        var q := WithoutEnd(pipes[p], files[f].writable);
        if files[f].writable {
          if q.writers == 0 {
            WakeAll(WaitPipeRead, lf, {}, lt);
          }
        } else {
          if q.readers == 0 {
            WakeAll(WaitPipeWrite, lf, {}, lt);
          }
        }
        CloseParks(lf, f);
        CloseSlots(tasks, files, lf, f);
        pipes := if q.readers == 0 && q.writers == 0 then pipes - {p} else pipes[p := q];
      } else {
        CloseParks(lf, f);
        CloseSlots(tasks, files, lf, f);
      }
      files := files - {f};
    }

    lemma CloseParks(lf: set<nat>, f: nat)
      requires Slotted(tasks, files, lf) && f in lf && f in files && Counted(files, pipes, {})
      requires Parked(tasks, files, pipes, Input(keys, eof))
      requires files[f].End? ==>
                files[f].pipe in pipes
                && if files[f].writable then pipes[files[f].pipe].writers > 0 else pipes[files[f].pipe].readers > 0
      requires files[f].End? && files[f].writable && pipes[files[f].pipe].writers == 1 ==> NoWaiter(tasks, WaitPipeRead)
      requires files[f].End? && !files[f].writable && pipes[files[f].pipe].readers == 1 ==>
                NoWaiter(tasks, WaitPipeWrite)
      ensures Parked(tasks, files - {f}, AfterClose(files, pipes, f), Input(keys, eof))
    {
      hide Slotted, Counted, NoWaiter, ReadersOk, WritersOk, AfterClose;
      CloseReaders(tasks, files, pipes, lf, f);
      CloseWriters(tasks, files, pipes, lf, f);
    }

    /** close_fd: the slot is cleared before the file is closed. */
    method CloseFd(i: nat, k: nat, ghost lf: set<nat>, ghost lt: set<nat>)
      requires Inv(lf, {}, lt) && Has(tasks, i) && tasks[i].value.state != Blocked && k < MAX_FDS
      modifies `tasks, `files, `pipes
      ensures Inv(lf, {}, lt) && Has(tasks, i) && |old(tasks)| == |tasks|
      ensures tasks[i].value == old(tasks)[i].value.(fds := tasks[i].value.fds)
      ensures tasks[i].value.fds == old(tasks)[i].value.fds[k := 0]
      ensures Nudged(old(tasks)[i := tasks[i]], tasks)
      ensures old(tasks)[i].value.fds[k] == 0 ==> tasks == old(tasks) && files == old(files) && pipes == old(pipes)
      ensures old(tasks)[i].value.fds[k] != 0 ==> var f := old(tasks)[i].value.fds[k];
                files == old(files) - {f} && Closable(old(files), old(pipes), f)
                && pipes == AfterClose(old(files), old(pipes), f)
    {
      hide Slotted, Counted, Parked, Wooded, Tidy, Nudged;
      NudgedSelf(tasks);
      TidyAt(i);
      var f := tasks[i].value.fds[k];
      if f == 0 {
        assert tasks[i].value.fds[k := 0] == tasks[i].value.fds && tasks[i := tasks[i]] == tasks;
        return;
      }
      SlotFile(lf, i, k);
      ClearInv(i, k, lf, lt);
      tasks := tasks[i := Some(tasks[i].value.(fds := tasks[i].value.fds[k := 0]))];
      ghost var T := tasks;
      assert lf + {f} - {f} == lf;
      FileClose(f, lf + {f}, lt);
      NudgedAt(T, tasks, i);
      assert T == old(tasks)[i := tasks[i]];
    }

    lemma SlotFile(lf: set<nat>, i: nat, k: nat)
      requires Slotted(tasks, files, lf) && Has(tasks, i) && k < |tasks[i].value.fds| && tasks[i].value.fds[k] != 0
      ensures tasks[i].value.fds[k] in files && tasks[i].value.fds[k] !in lf
    {
      assert SlotAt(tasks, i, k) == tasks[i].value.fds[k];
    }

    lemma NudgedAt(T: Table, T': Table, i: nat)
      requires Nudged(T, T') && Has(T, i) && T[i].value.state != Blocked
      ensures Has(T', i) && T'[i] == T[i]
    {
    }

    /** Clearing a slot of a task that is not parked. */
    lemma ClearInv(i: nat, k: nat, lf: set<nat>, lt: set<nat>)
      requires Inv(lf, {}, lt) && Has(tasks, i) && tasks[i].value.why == WaitNone && k < MAX_FDS
      requires tasks[i].value.fds[k] != 0
      ensures var t := tasks[i].value;
              var T' := tasks[i := Some(t.(fds := t.fds[k := 0]))];
              Shaped(T', n) && Tidy(T') && Slotted(T', files, lf + {t.fds[k]})
              && Parked(T', files, pipes, Input(keys, eof)) && Wooded(T', trees, lt, cr3, cur)
    {
      hide Slotted, Counted, Parked, Wooded;
      var t := tasks[i].value;
      ClearSlots(tasks, files, lf, i, k);
      FdsParked(tasks, files, pipes, Input(keys, eof), i, t.fds[k := 0]);
      FdsWooded(tasks, trees, lt, cr3, cur, i, t.fds[k := 0]);
      FdsShape(tasks, n, i, t.fds[k := 0]);
    }

    /** file_alloc_console */
    method FileAllocConsole(w: bool, ghost lf: set<nat>, ghost lt: set<nat>) returns (f: nat)
      requires Inv(lf, {}, lt)
      modifies `files, `grants
      ensures grants == Rest(old(grants), 1) && (f != 0 <==> Yes(old(grants)))
      ensures f == 0 ==> files == old(files) && Inv(lf, {}, lt)
      ensures f != 0 ==> f !in old(files) && files == old(files)[f := Console(w)] && Inv(lf + {f}, {}, lt)
    {
      hide Slotted, Counted, Parked, Wooded, Tidy, Shaped;
      f := Kmalloc();
      if f == 0 {
        return;
      }
      OpenSlots(tasks, files, lf, f, Console(w));
      ConsoleCounted(files, pipes, {}, f, w);
      OpenParks(pipes, f, Console(w));
      files := files[f := Console(w)];
    }

    lemma OpenParks(P': map<nat, Pipe>, f: nat, e: File)
      requires Parked(tasks, files, pipes, Input(keys, eof)) && f !in files
      requires forall p :: p in pipes ==>
                p in P' && (pipes[p].Valid() ==> P'[p].Valid() && P'[p].Used() == pipes[p].Used())
                                          && P'[p].writers >= pipes[p].writers && P'[p].readers >= pipes[p].readers
      ensures Parked(tasks, files[f := e], P', Input(keys, eof))
    {
      hide ReadersOk, WritersOk;
      OpenParked(tasks, files, pipes, P', f, e);
    }

    /** file_alloc_pipe: a new end exists and is counted in the same breath. */
    method FileAllocPipe(p: nat, w: bool, ghost lf: set<nat>, ghost bp: set<nat>, ghost lt: set<nat>) returns (f: nat)
      requires Inv(lf, bp, lt) && p in pipes
      modifies `files, `pipes, `grants
      ensures grants == Rest(old(grants), 1) && (f != 0 <==> Yes(old(grants)))
      ensures f == 0 ==> files == old(files) && pipes == old(pipes) && Inv(lf, bp, lt)
      ensures f != 0 ==>
                f !in old(files) && files == old(files)[f := End(p, w)]
                && pipes == old(pipes)[p := WithEnd(old(pipes)[p], w)]
                         && Inv(lf + {f}, bp - {p}, lt)
    {
      hide Slotted, Counted, Parked, Wooded, Tidy, Shaped, Pipe.Used;
      f := Kmalloc();
      if f == 0 {
        return;
      }
      OpenSlots(tasks, files, lf, f, End(p, w));
      OpenCounted(files, pipes, bp, f, p, w);
      PipeIsValid(bp, p);
      WithEndUsed(pipes[p], w);
      OpenParks(pipes[p := WithEnd(pipes[p], w)], f, End(p, w));
      files := files[f := End(p, w)];
      pipes := pipes[p := WithEnd(pipes[p], w)];
    }

    lemma PipeIsValid(bp: set<nat>, p: nat)
      requires Counted(files, pipes, bp) && p in pipes
      ensures pipes[p].Valid()
    {
    }

    /** file_dup: a copy of a descriptor is an end of its own. */
    method FileDup(src: nat, ghost lf: set<nat>, ghost lt: set<nat>) returns (f: nat)
      requires Inv(lf, {}, lt) && src in files
      modifies `files, `pipes, `grants
      ensures grants == Rest(old(grants), 1) && (f != 0 <==> Yes(old(grants)))
      ensures f == 0 ==> files == old(files) && pipes == old(pipes) && Inv(lf, {}, lt)
      ensures f != 0 ==> f !in old(files) && files == old(files)[f := old(files)[src]] && Inv(lf + {f}, {}, lt)
                         && Duplicated(old(files), old(pipes), src, pipes)
    {
      hide Slotted, Counted, Parked, Wooded, Tidy, Shaped;
      if files[src].Console? {
        f := FileAllocConsole(files[src].writable, lf, lt);
      } else {
        NamesPipe(src);
        f := FileAllocPipe(files[src].pipe, files[src].writable, lf, {}, lt);
        assert {} - {old(files)[src].pipe} == {};
      }
    }

    lemma NamesPipe(f: nat)
      requires Counted(files, pipes, {}) && f in files && files[f].End?
      ensures files[f].pipe in pipes
    {
    }

    /** alloc_fd: the lowest free slot. */
    method AllocFd(i: nat) returns (fd: int)
      requires Has(tasks, i) && |tasks[i].value.fds| == MAX_FDS
      ensures fd < 0 <==> forall k :: 0 <= k < MAX_FDS ==> tasks[i].value.fds[k] != 0
      ensures fd >= 0 ==>
                fd < MAX_FDS && tasks[i].value.fds[fd] == 0 && forall k :: 0 <= k < fd ==> tasks[i].value.fds[k] != 0
    {
      var k := 0;
      while k < MAX_FDS
        invariant 0 <= k <= MAX_FDS && forall j :: 0 <= j < k ==> tasks[i].value.fds[j] != 0
      {
        if tasks[i].value.fds[k] == 0 {
          return k;
        }
        k := k + 1;
      }
      fd := -1;
    }

    /** A loose file goes into an empty slot of a live task. */
    method Install(i: nat, k: nat, f: nat, ghost lf: set<nat>, ghost bp: set<nat>, ghost lt: set<nat>)
      requires Inv(lf, bp, lt) && Has(tasks, i) && tasks[i].value.state != Blocked && tasks[i].value.state != Zombie
      requires k < MAX_FDS && tasks[i].value.fds[k] == 0 && f in lf
      modifies `tasks
      ensures Inv(lf - {f}, bp, lt)
      ensures tasks == old(tasks)[i := Some(old(tasks)[i].value.(fds := old(tasks)[i].value.fds[k := f]))]
    {
      hide Slotted, Counted, Parked, Wooded, Tidy;
      TidyAt(i);
      var t := tasks[i].value;
      PlaceSlots(tasks, files, lf, i, k, f);
      FdsParked(tasks, files, pipes, Input(keys, eof), i, t.fds[k := f]);
      FdsWooded(tasks, trees, lt, cr3, cur, i, t.fds[k := f]);
      FdsShape(tasks, n, i, t.fds[k := f]);
      tasks := tasks[i := Some(t.(fds := t.fds[k := f]))];
    }

    // -------------------------------------------------------------------------
    // SYS_CLOSE and SYS_PIPE
    // -------------------------------------------------------------------------

    /** The running program has got as far as frame `r`. */
    method Arrive(r: Regs)
      requires Valid() && !idle
      modifies `live
      ensures Valid() && live == r
    {
      hide Slotted, Counted, Parked, Wooded, Tidy, Shaped;
      live := r;
    }

    method Answer(v: nat)
      modifies `live
      ensures live == old(live).(rax := v)
    {
      live := live.(rax := v);
    }

    /** SYS_CLOSE */
    method SysClose(fd: nat)
      requires Valid() && !idle
      modifies `tasks, `files, `pipes, `live
      ensures Valid() && !idle
      ensures live == old(live).(rax := if fd < MAX_FDS && SlotAt(old(tasks), cur, fd) != 0 then 0 else SYSCALL_ERROR)
      ensures live.rax != 0 ==> tasks == old(tasks) && files == old(files) && pipes == old(pipes)
      ensures live.rax == 0 ==> var f := SlotAt(old(tasks), cur, fd);
                files == old(files) - {f} && Closable(old(files), old(pipes), f)
                && pipes == AfterClose(old(files), old(pipes), f)
                && Has(old(tasks), cur) && fd < |old(tasks)[cur].value.fds|
                && tasks[cur] == Some(old(tasks)[cur].value.(fds := old(tasks)[cur].value.fds[fd := 0]))
                && Nudged(old(tasks)[cur := tasks[cur]], tasks)
      ensures Apart(old(tasks), tasks, cur)
    {
      hide Slotted, Counted, Parked, Wooded, Tidy, Nudged, Apart, AfterClose, Closable;
      CurRuns();
      PutApart(tasks, cur, tasks[cur]);
      assert tasks[cur := tasks[cur]] == tasks;
      if fd >= MAX_FDS || tasks[cur].value.fds[fd] == 0 {
        Answer(SYSCALL_ERROR);
        return;
      }
      CloseFd(cur, fd, {}, {});
      SameRunner(old(tasks), tasks, cur);
      NudgedApart(old(tasks), tasks, cur);
      Answer(0);
    }

    /** A new end of pipe `p` in the lowest free slot of the running task, or nothing taken. */
    method AddEnd(p: nat, w: bool, ghost bp: set<nat>) returns (fd: nat, f: nat)
      requires Inv({}, bp, {}) && OneRuns(tasks, cur, false) && p in pipes && bp <= {p}
      modifies `tasks, `files, `pipes, `grants
      ensures grants == Rest(old(grants), if HasFree(old(tasks)[cur].value.fds) then 1 else 0)
      ensures f != 0 <==> HasFree(old(tasks)[cur].value.fds) && Yes(old(grants))
      ensures f == 0 ==> tasks == old(tasks) && files == old(files) && pipes == old(pipes) && Inv({}, bp, {})
      ensures f != 0 ==>
                f !in old(files) && files == old(files)[f := End(p, w)]
                && pipes == old(pipes)[p := WithEnd(old(pipes)[p], w)]
                         && Inv({}, {}, {}) && OneRuns(tasks, cur, false) && LowestFree(old(tasks)[cur].value.fds, fd)
                         && tasks == PutFd(old(tasks), cur, fd, f)
    {
      hide Slotted, Counted, Parked, Wooded, Tidy;
      fd, f := 0, 0;
      var k := AllocFd(cur);
      if k < 0 {
        return;
      }
      f := FileAllocPipe(p, w, {}, bp, {});
      if f == 0 {
        return;
      }
      fd := k;
      assert {} + {f} == {f} && bp - {p} == {} && {f} - {f} == {};
      Install(cur, fd, f, {f}, {}, {});
      StillRuns(old(tasks), cur, tasks[cur].value);
    }

    /** The pipe and its read end: both there and counted, or neither. */
    method FirstEnd() returns (p: nat, rfd: nat, r: nat)
      requires Valid() && !idle
      modifies `tasks, `files, `pipes, `grants
      ensures Valid() && !idle
      ensures r != 0 <==> Granted(old(grants), 2) && HasFree(old(tasks)[cur].value.fds)
      ensures (r != 0 ==> grants == Rest(old(grants), 2)) && Later(old(grants), grants)
      ensures r == 0 ==> tasks == old(tasks) && files == old(files) && pipes == old(pipes)
      ensures r != 0 ==> p !in old(pipes) && r !in old(files)
                         && files == old(files)[r := End(p, false)] && pipes == old(pipes)[p := Fresh().(readers := 1)]
                         && Has(old(tasks), cur) && LowestFree(old(tasks)[cur].value.fds, rfd)
                         && tasks == PutFd(old(tasks), cur, rfd, r)
    {
      hide Slotted, Counted, Parked, Wooded, Tidy, Shaped, LowestFree, Granted, Later, Rest, HasFree;
      CurRuns();
      rfd, r := 0, 0;
      LaterBy(grants, 1);
      LaterBy(grants, 2);
      InTurn(grants, 1, 1);
      InTurn(grants, 1, 0);
      OneRequest(grants);
      OneRequest(Rest(grants, 1));
      p := Kmalloc();
      if p == 0 {
        return;
      }
      NewPipeInv(p);
      pipes := pipes[p := Fresh()];
      rfd, r := AddEnd(p, false, {p});
      if r == 0 {
        FreePipeInv(p);
        pipes := pipes - {p};
        assert pipes == old(pipes);
        return;
      }
      assert pipes == old(pipes)[p := Fresh().(readers := 1)];
    }

    lemma NewPipeInv(p: nat)
      requires Inv({}, {}, {}) && p !in pipes
      ensures Counted(files, pipes[p := Fresh()], {p}) && Parked(tasks, files, pipes[p := Fresh()], Input(keys, eof))
    {
      hide ReadersOk, WritersOk, Counted;
      NewPipeCounted(files, pipes, p);
      NewPipeParked(tasks, files, pipes, p, Fresh());
    }

    lemma FreePipeInv(p: nat)
      requires Inv({}, {p}, {}) && p in pipes && pipes[p].readers == 0 && pipes[p].writers == 0
      ensures Counted(files, pipes - {p}, {}) && Parked(tasks, files, pipes - {p}, Input(keys, eof))
    {
      hide ReadersOk, WritersOk, Counted;
      FreePipeCounted(files, pipes, p);
      FreePipeParked(tasks, files, pipes, p);
    }

    /** SYS_PIPE: two fresh ends of a fresh pipe in the caller's two lowest free slots, or nothing taken. */
    method SysPipe() returns (rfd: nat, wfd: nat)
      requires Valid() && !idle
      modifies `tasks, `files, `pipes, `live, `grants
      ensures Valid() && !idle && (live == old(live).(rax := 0) || live == old(live).(rax := SYSCALL_ERROR))
      ensures Apart(old(tasks), tasks, cur)
      ensures Has(old(tasks), cur) && (live.rax == 0 <==> MayPipe(old(Now()), cur, old(live)))
      ensures (live.rax == 0 ==> grants == Rest(old(grants), 3)) && Later(old(grants), grants)
      ensures live.rax != 0 ==> files == old(files) && pipes == old(pipes) && Nudged(old(tasks), tasks)
      ensures live.rax == 0 ==>
                exists r, w :: && PipeMade(old(files), files, old(pipes), pipes, r, w)
                               && EndsPlaced(old(tasks), tasks, cur, rfd, r, wfd, w)
    {
      hide Slotted, Counted, Parked, Wooded, Tidy, Nudged, Shaped, PipeMade, Apart, Untouched, Granted, Later, Rest,
           TwoFree, EndsPlaced, RangeOk;
      rfd, wfd := 0, 0;
      NudgedSelf(tasks);
      JustNudged(tasks, tasks, cur);
      CurRuns();
      LaterBy(grants, 0);
      if !RangeOk(live.rdi, 8) {
        Answer(SYSCALL_ERROR);
        return;
      }
      var ok;
      ok, rfd, wfd := MakePipe();
      Answer(if ok then 0 else SYSCALL_ERROR);
    }

    /** Both ends, or neither. */
    method MakePipe() returns (ok: bool, rfd: nat, wfd: nat)
      requires Valid() && !idle
      modifies `tasks, `files, `pipes, `grants
      ensures Valid() && !idle && Apart(old(tasks), tasks, cur)
      ensures Has(old(tasks), cur) && (ok <==> TwoFree(old(tasks)[cur].value.fds) && Granted(old(grants), 3))
      ensures (ok ==> grants == Rest(old(grants), 3)) && Later(old(grants), grants)
      ensures !ok ==> files == old(files) && pipes == old(pipes) && Nudged(old(tasks), tasks)
      ensures ok ==> exists r, w :: && PipeMade(old(files), files, old(pipes), pipes, r, w)
                                    && EndsPlaced(old(tasks), tasks, cur, rfd, r, wfd, w)
    {
      hide Slotted, Counted, Parked, Wooded, Tidy, Nudged, Shaped, PipeMade, Apart, Untouched, Granted, Later, Rest,
           HasFree, TwoFree;
      ok, wfd := false, 0;
      NudgedSelf(tasks);
      JustNudged(tasks, tasks, cur);
      CurRuns();
      FreeOfTwo(tasks[cur].value.fds);
      PipeGrants(grants);
      var p, r;
      p, rfd, r := FirstEnd();
      if r == 0 {
        return;
      }
      var w;
      ghost var g := grants;
      TwoFreeMeans(old(tasks)[cur].value.fds, rfd, r);
      wfd, w := AddEnd(p, true, {});
      LaterBy(g, if HasFree(old(tasks)[cur].value.fds[rfd := r]) then 1 else 0);
      LaterJoin(old(grants), g, grants);
      if w == 0 {
        SlotCount(old(tasks)[cur].value);
        UndoFirst(p, rfd, r, old(tasks), old(files), old(pipes));
        JustNudged(old(tasks), tasks, cur);
        return;
      }
      PipeIsMade(old(files), old(pipes), p, r, w);
      PutApart(old(tasks), cur, tasks[cur]);
      assert tasks == old(tasks)[cur := tasks[cur]];
      ok := true;
    }

    /** The read end goes back through close_fd, and the pipe with it. */
    method UndoFirst(p: nat, rfd: nat, r: nat, ghost T0: Table, ghost F0: map<nat, File>, ghost P0: map<nat, Pipe>)
      requires Valid() && !idle && Has(T0, cur) && rfd < MAX_FDS && |T0[cur].value.fds| == MAX_FDS
      requires T0[cur].value.fds[rfd] == 0 && r != 0
      requires tasks == T0[cur := Some(T0[cur].value.(fds := T0[cur].value.fds[rfd := r]))]
      requires r !in F0 && files == F0[r := End(p, false)] && p !in P0 && pipes == P0[p := Fresh().(readers := 1)]
      modifies `tasks, `files, `pipes
      ensures Valid() && !idle && files == F0 && pipes == P0 && Nudged(T0, tasks)
    {
      hide Slotted, Counted, Parked, Wooded, Tidy, Nudged;
      CurRuns();
      CloseFd(cur, rfd, {}, {});
      SameRunner(old(tasks), tasks, cur);
      assert files == F0;
      assert T0[cur].value.fds[rfd := r][rfd := 0] == T0[cur].value.fds;
      assert old(tasks)[cur := tasks[cur]] == T0;
      assert P0[p := Fresh().(readers := 1)] - {p} == P0;
    }

    // -------------------------------------------------------------------------
    // Dying and waiting
    // -------------------------------------------------------------------------

    /** The first loop of task_exit: every descriptor of the current task is closed. */
    method CloseAll()
      requires Valid() && !idle
      modifies `tasks, `files, `pipes
      ensures Valid() && NoFds(tasks[cur].value)
      ensures tasks[cur].value == old(tasks)[cur].value.(fds := tasks[cur].value.fds)
      ensures Apart(old(tasks), tasks, cur) && files == old(files) - FirstFiles(old(tasks)[cur].value.fds, MAX_FDS)
      ensures Shrunk(old(pipes), pipes) && Untouched(old(tasks), tasks, cur)
    {
      hide Slotted, Counted, Parked, Wooded, Tidy, Nudged, Apart, Untouched, AfterClose, Closable, Shrunk;
      CurRuns();
      var k := 0;
      ghost var fds := tasks[cur].value.fds;
      PutApart(tasks, cur, tasks[cur]);
      assert tasks[cur := tasks[cur]] == tasks;
      ShrunkSelf(pipes);
      while k < MAX_FDS
        invariant 0 <= k <= MAX_FDS && Valid() && Has(tasks, cur) && Apart(old(tasks), tasks, cur)
        invariant Untouched(old(tasks), tasks, cur)
        invariant tasks[cur].value == old(tasks)[cur].value.(fds := tasks[cur].value.fds)
        invariant |tasks[cur].value.fds| == MAX_FDS && forall j :: 0 <= j < k ==> tasks[cur].value.fds[j] == 0
        invariant forall j :: k <= j < MAX_FDS ==> tasks[cur].value.fds[j] == fds[j]
        invariant files == old(files) - FirstFiles(fds, k) && Shrunk(old(pipes), pipes)
      {
        ghost var T, F, P := tasks, files, pipes;
        CurRuns();
        NoFileZero();
        CloseFd(cur, k, {}, {});
        SameRunner(T, tasks, cur);
        NudgedApart(T, tasks, cur);
        ApartJoin(old(tasks), T, tasks, cur);
        UntouchedJoin(old(tasks), T, tasks, cur);
        if fds[k] != 0 {
          CloseShrinks(old(pipes), F, P, fds[k]);
        }
        assert FirstFiles(fds, k + 1) == FirstFiles(fds, k) + {fds[k]};
        k := k + 1;
      }
    }

    lemma NoFileZero()
      requires Inv({}, {}, {})
      ensures 0 !in files
    {
    }

    lemma SlotCount(t: Task)
      requires Valid() && Has(tasks, cur) && |t.fds| == |tasks[cur].value.fds|
      ensures |t.fds| == MAX_FDS
    {
    }

    /** The current task turns into a zombie and its parent, if it waits for a child, is woken. */
    method Die(status: nat)
      requires Valid() && !idle && NoFds(tasks[cur].value)
      modifies `tasks
      ensures Inv({}, {}, {}) && Alone() && tasks == AfterDeath(old(tasks), cur, status % 256) && IsZombie(tasks, cur)
    {
      hide Slotted, Counted, Parked, Wooded, Tidy;
      CurRuns();
      DeathShape(tasks, n, cur, status % 256, files, {});
      DeathParked(tasks, files, pipes, Input(keys, eof), cur, status % 256);
      DeathWooded(tasks, trees, {}, cr3, cur, cur, status % 256);
      DeathRuns(tasks, cur, status % 256);
      var t := tasks[cur].value;
      tasks := tasks[cur := Some(t.(status := status % 256, state := Zombie, why := WaitNone))];
      ghost var T1 := tasks;
      var alive := t.parent != NO_PARENT && t.parent < n && tasks[t.parent].Some?
                   && tasks[t.parent].value.state != Zombie;
      AliveTest(T1, t.parent);
      if alive {
        var p := tasks[t.parent].value;
        if p.state == Blocked && p.why == WaitChild {
          tasks := tasks[t.parent := Some(p.(state := Ready, why := WaitNone))];
        }
      }
      assert alive ==> tasks == T1[t.parent := WakeOne(T1[t.parent], WaitChild)];
    }

    lemma AliveTest(T: Table, p: nat)
      requires |T| == MAX_TASKS && n <= MAX_TASKS && forall i :: n <= i < |T| ==> T[i].None?
      ensures ParentAlive(T, p) <==> p != NO_PARENT && p < n && T[p].Some? && T[p].value.state != Zombie
    {
    }

    /** task_exit: descriptors first, then the tombstone, then another task; the tree stays until that task is on its
        own. */
    method TaskExit(status: nat) returns (ghost at: Table)
      requires Valid() && !idle
      modifies `tasks, `files, `pipes, `trees, `cur, `idle, `live, `cr3
      ensures Valid() && Clean(tasks, old(cur), n) && Apart(old(tasks), tasks, old(cur))
      ensures Gone(old(Now()), Now(), old(cur), status, cur, idle, live)
      ensures tasks[old(cur)].value.state == Zombie && tasks[old(cur)].value.status == status % 256
      ensures tasks[old(cur)].value.aspace in trees
      ensures Untouched(old(tasks), tasks, old(cur))
    {
      hide Slotted, Counted, Parked, Wooded, Tidy, Clean, Apart, Untouched, FirstFiles, Shrunk, Handover, Gone,
           StillParked;
      Fall(status);
      ghost var T := tasks;
      at := Schedule();
      ApartJoin(old(tasks), T, tasks, old(cur));
      UntouchedJoin(old(tasks), T, tasks, old(cur));
      OwnTree(old(cur));
      HandedOn(old(cur));
      GoneBy(old(Now()), old(cur), status);
    }

    /** The paperwork of task_exit: the task is a zombie, and still the current one. */
    method Fall(status: nat)
      requires Valid() && !idle
      modifies `tasks, `files, `pipes
      ensures Inv({}, {}, {}) && Alone() && Lives(old(tasks), cur)
      ensures IsZombie(tasks, cur) && tasks[cur].value.status == status % 256 && tasks[cur].value.aspace != 0
      ensures Apart(old(tasks), tasks, cur) && Untouched(old(tasks), tasks, cur)
      ensures files == old(files) - FirstFiles(old(tasks)[cur].value.fds, MAX_FDS) && Shrunk(old(pipes), pipes)
    {
      hide Slotted, Counted, Parked, Wooded, Tidy, AfterDeath, NoFds, Apart, Untouched, FirstFiles, Shrunk;
      CurRuns();
      CloseAll();
      ghost var T := tasks;
      CurRuns();
      Die(status);
      DeathApart(T, cur, status % 256);
      ApartJoin(old(tasks), T, tasks, cur);
      UntouchedJoin(old(tasks), T, tasks, cur);
      DeadOne(T, cur, status % 256);
      OwnTree(cur);
    }

    lemma GoneBy(w: World, c: nat, status: nat)
      requires Lives(w.tasks, c) && IsZombie(tasks, c) && tasks[c].value.status == status % 256
      requires Handover(tasks, n, c, cur, idle, live) && (!idle ==> cur != c) && Shrunk(w.pipes, pipes)
      requires n == w.n && keys == w.keys && eof == w.eof && fg == w.fg && grants == w.grants
      requires files == w.files - FirstFiles(w.tasks[c].value.fds, MAX_FDS)
      ensures Gone(w, Now(), c, status, cur, idle, live)
    {
      hide Handover, Shrunk, FirstFiles;
    }

    lemma HandedOn(c: nat)
      requires Valid() && Handover(tasks, n, c, cur, idle, live) && IsZombie(tasks, c)
      ensures !idle ==> cur != c
    {
      hide PickedFrom;
    }

    lemma OwnTree(i: nat)
      requires Inv({}, {}, {}) && Has(tasks, i)
      ensures tasks[i].value.aspace != 0 ==> tasks[i].value.aspace in trees
      ensures i == cur ==> tasks[i].value.aspace != 0
    {
      assert Space(tasks, i) == tasks[i].value.aspace;
    }

    /** The scan of task_wait: the first dead child, and whether there is any child. */
    method FindChild() returns (z: int, have: bool)
      requires Shaped(tasks, n)
      ensures z >= 0 ==>
                ChildOf(tasks, z, cur) && IsZombie(tasks, z)
                && forall c :: 0 <= c < z && ChildOf(tasks, c, cur) ==> !IsZombie(tasks, c)
      ensures z < 0 ==> forall c :: ChildOf(tasks, c, cur) ==> !IsZombie(tasks, c)
      ensures z < 0 ==> (have <==> exists c :: ChildOf(tasks, c, cur))
    {
      z, have := -1, false;
      var i := 0;
      while i < n
        invariant 0 <= i <= n
        invariant forall c :: 0 <= c < i && ChildOf(tasks, c, cur) ==> !IsZombie(tasks, c)
        invariant have <==> exists c :: 0 <= c < i && ChildOf(tasks, c, cur)
      {
        if tasks[i].Some? && tasks[i].value.parent == cur {
          assert ChildOf(tasks, i, cur);
          have := true;
          if tasks[i].value.state == Zombie {
            return i, have;
          }
        }
        i := i + 1;
      }
      forall c | ChildOf(tasks, c, cur) ensures c < n {}
    }

    /** SYS_WAIT: a dead child is buried and its status returned; with none dead the caller waits; with no child it
        fails. `out` is what goes into the caller's memory. */
    method SysWait() returns (out: seq<Byte>)
      requires Valid() && !idle && live.rax == SYS_WAIT
      modifies `tasks, `trees, `cur, `idle, `live, `cr3
      ensures Valid() && Apart(old(tasks), tasks, old(cur))
      ensures if MustWait(old(Now()), old(cur), old(live))
              then out == [] && Held(old(Now()), Now(), old(cur), old(live), WaitChild, cur, idle, live)
              else Served(old(Now()), Now(), old(cur), old(live), out, live.rax)
                   && cur == old(cur) && !idle && live == old(live).(rax := live.rax)
      ensures out != [] ==> |out| == 8 && FirstDead(old(tasks), Word(out, 0), old(cur)) && old(live).rdi != 0
                            && live.rax == old(tasks)[Word(out, 0)].value.status
                            && tasks == old(tasks)[Word(out, 0) := None]
    {
      hide Slotted, Counted, Parked, Wooded, Tidy, MayPark, StillParked, Apart, Untouched, Held, RangeOk, Nudged;
      out := [];
      CurRuns();
      NudgedSelf(tasks);
      JustNudged(tasks, tasks, cur);
      if live.rdi != 0 && !RangeOk(live.rdi, 8) {
        Answer(SYSCALL_ERROR);
        return;
      }
      var z, have := FindChild();
      if z >= 0 {
        out := Collect(z);
        return;
      }
      if !have {
        Answer(SYSCALL_ERROR);
        return;
      }
      assert MayPark(tasks, files, pipes, Input(keys, eof), cur, live, WaitChild) by { WaitIsRight(); }
      Sleep(WaitChild);
    }

    /** The caller is told of its dead child `z`, which is buried. */
    method Collect(z: nat) returns (out: seq<Byte>)
      requires Valid() && !idle && live.rax == SYS_WAIT && StoreOk(live) && FirstDead(tasks, z, cur)
      modifies `tasks, `trees, `live
      ensures Valid() && Apart(old(tasks), tasks, cur) && !MustWait(old(Now()), cur, old(live))
      ensures live == old(live).(rax := live.rax)
      ensures Served(old(Now()), Now(), cur, old(live), out, live.rax)
    {
      hide Slotted, Counted, Parked, Wooded, Tidy, Apart, Untouched, RangeOk;
      OnlyFirst(tasks, z, cur);
      var status := tasks[z].value.status;
      BuryChild(z);
      OtherApart(old(tasks), z, None, cur);
      out := if live.rdi == 0 then [] else IdBytes(z);
      Answer(status);
      assert FirstDead(old(tasks), z, cur);
    }

    lemma WaitIsRight()
      requires Has(tasks, cur) && live.rax == SYS_WAIT && (exists c :: ChildOf(tasks, c, cur))
      requires forall c :: ChildOf(tasks, c, cur) ==> !IsZombie(tasks, c)
      ensures MayPark(tasks, files, pipes, Input(keys, eof), cur, live, WaitChild)
    {
    }

    /** The caller reads a dead child's status: the child's tree, if the sweep has not had it, and its place go. */
    method BuryChild(z: nat)
      requires Valid() && !idle && IsZombie(tasks, z)
      modifies `tasks, `trees
      ensures Valid() && tasks == old(tasks)[z := None] && trees == old(trees) - {old(tasks)[z].value.aspace}
    {
      hide Slotted, Counted, Parked, Wooded, Tidy;
      CurRuns();
      NoTreeZero();
      if tasks[z].value.aspace != 0 {
        Fell(z);
      }
      Bury(z);
      assert tasks == old(tasks)[z := None];
      BuriedRuns(old(tasks), z, cur);
    }

    lemma NoTreeZero()
      requires Inv({}, {}, {})
      ensures 0 !in trees
    {
    }

    // -------------------------------------------------------------------------
    // Signals raised
    // -------------------------------------------------------------------------

    /** signal_raise: the bit is set, and a parked task is made ready with its call marked as cut short. */
    method Raise(id: nat, sig: nat)
      requires Inv({}, {}, {}) && OneRuns(tasks, cur, idle)
      modifies `tasks
      ensures Inv({}, {}, {}) && OneRuns(tasks, cur, idle)
      ensures 0 < sig < MAX_SIGS && Has(old(tasks), id) && !IsZombie(old(tasks), id) ==>
                tasks == old(tasks)[id := Some(Struck(old(tasks)[id].value, sig))]
      ensures 0 < sig < 32 && Has(old(tasks), id) && !IsZombie(old(tasks), id) ==>
                && Has(tasks, id) && tasks == old(tasks)[id := tasks[id]]
                && var t, t' := old(tasks)[id].value, tasks[id].value;
                   && t'.pending == t.pending + {sig}
                   && t'.state == (if t.state == Blocked then Ready else t.state)
                   && t'.why == (if t.state == Blocked then WaitNone else t.why)
                   && t'.interrupted == (t.state == Blocked || t.interrupted)
                   && t' == t.(pending := t'.pending, state := t'.state, why := t'.why, interrupted := t'.interrupted)
      ensures !(0 < sig < MAX_SIGS && Has(old(tasks), id) && !IsZombie(old(tasks), id)) ==> tasks == old(tasks)
    {
      hide Slotted, Counted, Parked, Wooded, Tidy;
      if sig == 0 || sig >= MAX_SIGS {
        return;
      }
      if id >= n {
        return;
      }
      if tasks[id].None? {
        return;
      }
      if tasks[id].value.state == Zombie {
        return;
      }
      var t := tasks[id].value.(pending := tasks[id].value.pending + {sig});
      if t.state == Blocked {
        t := t.(state := Ready, why := WaitNone, interrupted := true);
      }
      TidyAt(id);
      QuietInv(id, t, {}, {}, {});
      tasks := tasks[id := Some(t)];
      StruckRuns(old(tasks), id, t, cur, idle);
    }

    /** signal_raise_group */
    method RaiseGroup(pgid: nat, sig: nat)
      requires Inv({}, {}, {}) && OneRuns(tasks, cur, idle)
      modifies `tasks
      ensures Inv({}, {}, {}) && OneRuns(tasks, cur, idle) && |tasks| == |old(tasks)|
      ensures forall i :: 0 <= i < |tasks| ==>
                tasks[i] == if 0 < sig < MAX_SIGS && Lives(old(tasks), i) && old(tasks)[i].value.pgid == pgid
                            then Some(Struck(old(tasks)[i].value, sig)) else old(tasks)[i]
    {
      hide Machine.Inv, OneRuns;
      var id := 0;
      Sizes();
      while id < n
        invariant 0 <= id <= n <= |tasks| && Inv({}, {}, {}) && OneRuns(tasks, cur, idle) && |tasks| == |old(tasks)|
        invariant forall i :: 0 <= i < id ==>
                    tasks[i] == if 0 < sig < MAX_SIGS && Lives(old(tasks), i) && old(tasks)[i].value.pgid == pgid
                                then Some(Struck(old(tasks)[i].value, sig)) else old(tasks)[i]
        invariant forall i :: id <= i < |tasks| ==> tasks[i] == old(tasks)[i]
      {
        if tasks[id].Some? && tasks[id].value.pgid == pgid {
          Raise(id, sig);
        }
        id := id + 1;
      }
      Sizes();
    }

    lemma Sizes()
      requires Inv({}, {}, {})
      ensures |tasks| == MAX_TASKS && n <= MAX_TASKS && forall i :: n <= i < |tasks| ==> tasks[i].None?
    {
    }

    // -------------------------------------------------------------------------
    // Reading and writing
    // -------------------------------------------------------------------------

    lemma NoKeyWaiter(ks: seq<Byte>)
      requires Parked(tasks, files, pipes, Input(keys, eof)) && keys != []
      ensures Parked(tasks, files, pipes, Input(ks, eof))
    {
      hide ReadersOk, WritersOk, ChildrenOk;
    }

    /** Up to `len` characters out of the keyboard ring. */
    method TakeKeys(len: nat) returns (out: seq<Byte>)
      requires Valid() && !idle
      modifies `keys
      ensures Valid() && out + keys == old(keys) && |out| == (if |old(keys)| < len then |old(keys)| else len)
    {
      hide Slotted, Counted, Parked, Wooded, Tidy, Shaped;
      out := [];
      while |out| < len && keys != []
        invariant Valid() && out + keys == old(keys) && |out| <= len && |out| <= |old(keys)|
        decreases |keys|
      {
        NoKeyWaiter(keys[1..]);
        out := out + [keys[0]];
        keys := keys[1..];
      }
    }

    /** SYS_READKEY */
    method SysReadKey()
      requires Valid() && !idle && live.rax == SYS_READKEY
      modifies `tasks, `trees, `cur, `idle, `live, `cr3, `keys
      ensures Valid() && Apart(old(tasks), tasks, old(cur))
      ensures if MustWait(old(Now()), old(cur), old(live))
              then old(keys) == [] && Held(old(Now()), Now(), old(cur), old(live), WaitKey, cur, idle, live)
              else && old(keys) != [] && live.rax == old(keys)[0] && keys == old(keys)[1..]
                   && Served(old(Now()), Now(), old(cur), old(live), [], live.rax)
                   && cur == old(cur) && !idle && live == old(live).(rax := live.rax)
    {
      hide Slotted, Counted, Parked, Wooded, Tidy, StillParked, Apart, Held;
      CurRuns();
      JustNudged(tasks, tasks, cur);
      if keys != [] {
        NoKeyWaiter(keys[1..]);
        Answer(keys[0]);
        keys := keys[1..];
        return;
      }
      Sleep(WaitKey);
    }

    /** Reading the console: characters first, then end of input, then sleep. */
    method ReadConsole(len: nat) returns (out: seq<Byte>)
      requires Valid() && !idle && live.rax == SYS_READ && len > 0
      modifies `tasks, `trees, `cur, `idle, `live, `cr3, `keys, `eof
      ensures Valid() && Apart(old(tasks), tasks, old(cur))
      ensures old(keys) != [] ==>
                Now() == old(Now()).(keys := old(keys)[Least(|old(keys)|, len)..])
                && out == old(keys)[..Least(|old(keys)|, len)]
                && live == old(live).(rax := |out|) && cur == old(cur) && !idle
      ensures old(keys) == [] && old(eof) ==>
                Now() == old(Now()).(eof := false) && out == [] && live == old(live).(rax := 0) && cur == old(cur)
                && !idle
      ensures old(keys) == [] && !old(eof) ==>
                out == [] && Held(old(Now()), Now(), old(cur), old(live), WaitKey, cur, idle, live)
    {
      hide Slotted, Counted, Parked, Wooded, Tidy, StillParked, Apart, Held;
      CurRuns();
      JustNudged(tasks, tasks, cur);
      out := TakeKeys(len);
      if |out| > 0 {
        assert old(keys)[..|out|] == out && old(keys)[|out|..] == keys;
        Answer(|out|);
        return;
      }
      assert out == [] && keys == old(keys);
      if eof {
        EofTaken();
        eof := false;
        Answer(0);
        return;
      }
      Sleep(WaitKey);
    }

    lemma EofTaken()
      requires Parked(tasks, files, pipes, Input(keys, true))
      ensures Parked(tasks, files, pipes, Input(keys, false))
    {
      hide ReadersOk, WritersOk, ChildrenOk;
    }

    /** New bytes in a pipe, or fewer: everyone waiting on the side that can now go on is woken. */
    method Publish(p: nat, q: Pipe, y: Why)
      requires Valid() && !idle && p in pipes && q.Valid() && q.readers == pipes[p].readers
      requires q.writers == pipes[p].writers
      requires (y == WaitPipeRead && pipes[p].Used() < PIPE_SIZE - 1) || (y == WaitPipeWrite && pipes[p].Used() > 0)
      modifies `tasks, `pipes
      ensures Valid() && !idle && pipes == old(pipes)[p := q] && Nudged(old(tasks), tasks) && NoWaiter(tasks, y)
      ensures tasks[cur] == old(tasks)[cur]
    {
      hide Slotted, Counted, Parked, Wooded, Tidy, Shaped, Nudged, NoWaiter, Pipe.Used;
      CurRuns();
      WakeAll(y, {}, {}, {});
      NudgedAt(old(tasks), tasks, cur);
      NudgedRuns(old(tasks), tasks, cur, idle);
      PipeIsValid({}, p);
      PublishParks(p, q, y);
      CountedSame(files, pipes, {}, p, q);
      pipes := pipes[p := q];
    }

    lemma PublishParks(p: nat, q: Pipe, y: Why)
      requires Parked(tasks, files, pipes, Input(keys, eof)) && p in pipes && Counted(files, pipes, {})
      requires NoWaiter(tasks, y)
      requires pipes[p].Valid()
      requires (y == WaitPipeRead && pipes[p].Used() < PIPE_SIZE - 1) || (y == WaitPipeWrite && pipes[p].Used() > 0)
      ensures Parked(tasks, files, pipes[p := q], Input(keys, eof))
    {
      hide Counted, ReaderOk, WriterOk, Pipe.Used;
      if y == WaitPipeRead {
        WritersElsewhere(tasks, files, pipes, p, q);
      } else {
        ReadersElsewhere(tasks, files, pipes, p, q);
      }
    }

    /** pipe_read from a pipe's read end `f`, the caller's descriptor `live.rdi`. */
    method ReadPipe(f: nat, len: nat) returns (out: seq<Byte>)
      requires Valid() && !idle && live.rax == SYS_READ && len > 0
      requires live.rdi < MAX_FDS && f != 0 && f == SlotAt(tasks, cur, live.rdi) && f in files && files[f].End?
      requires !files[f].writable
      requires files[f].pipe in pipes && pipes[files[f].pipe].Valid()
      modifies `tasks, `trees, `cur, `idle, `live, `cr3, `pipes
      ensures Valid() && Apart(old(tasks), tasks, old(cur))
      ensures var q := old(pipes)[files[f].pipe];
              if q.Used() > 0 then
                |out| == Least(q.Used(), len) && live == old(live).(rax := |out|) && cur == old(cur) && !idle
                && Nudged(old(tasks), tasks) && NoWaiter(tasks, WaitPipeWrite) && files[f].pipe in pipes
                && pipes[files[f].pipe].Valid()
                && Now() == old(Now()).(tasks := tasks, pipes := old(pipes)[files[f].pipe := pipes[files[f].pipe]])
                && out + pipes[files[f].pipe].Contents() == q.Contents()
              else if q.writers == 0 then
                out == [] && live == old(live).(rax := 0) && Now() == old(Now()) && cur == old(cur) && !idle
              else
                out == [] && Held(old(Now()), Now(), old(cur), old(live), WaitPipeRead, cur, idle, live)
    {
      hide Slotted, Counted, Parked, Wooded, Tidy, Shaped, Nudged, NoWaiter, Pipe.Used, Pipe.Contents, StillParked,
           MayPark, Apart, Held;
      CurRuns();
      NudgedSelf(tasks);
      JustNudged(tasks, tasks, cur);
      out := [];
      var p := files[f].pipe;
      var used := pipes[p].Used();
      if used > 0 {
        var m := if used < len then used else len;
        ghost var q0 := pipes[p];
        var q;
        q, out := Drain(pipes[p], m);
        Publish(p, q, WaitPipeWrite);
        JustNudged(old(tasks), tasks, cur);
        Whole(q0, m);
        Answer(m);
        return;
      }
      if pipes[p].writers > 0 {
        ReadIsRight(f, p);
        Sleep(WaitPipeRead);
        return;
      }
      Answer(0);
    }

    lemma Whole(q: Pipe, m: nat)
      requires q.Valid() && m <= q.Used()
      ensures q.Contents()[..m] + q.Contents()[m..] == q.Contents() && |q.Contents()[..m]| == m
    {
    }

    lemma ReadIsRight(f: nat, p: nat)
      requires Has(tasks, cur) && live.rdi < MAX_FDS && f != 0 && f == SlotAt(tasks, cur, live.rdi) && f in files
      requires files[f] == End(p, false)
      requires live.rax == SYS_READ && p in pipes && pipes[p].Valid() && pipes[p].Used() == 0 && pipes[p].writers > 0
      ensures MayPark(tasks, files, pipes, Input(keys, eof), cur, live, WaitPipeRead)
    {
      hide Pipe.Used;
      assert Names(tasks[cur].value.(regs := live), files, End(p, false));
    }

    lemma WriteIsRight(f: nat, p: nat)
      requires Has(tasks, cur) && live.rdi < MAX_FDS && f != 0 && f == SlotAt(tasks, cur, live.rdi) && f in files
      requires files[f] == End(p, true)
      requires live.rax == SYS_WRITE && p in pipes && pipes[p].Valid() && pipes[p].Used() == PIPE_SIZE - 1
      requires pipes[p].readers > 0
      ensures MayPark(tasks, files, pipes, Input(keys, eof), cur, live, WaitPipeWrite)
    {
      hide Pipe.Used;
      assert Names(tasks[cur].value.(regs := live), files, End(p, true));
    }

    /** pipe_write to a pipe's write end `f`, the caller's descriptor `live.rdi`. */
    method WritePipe(f: nat, bytes: seq<Byte>)
      requires Valid() && !idle && live.rax == SYS_WRITE && bytes != []
      requires live.rdi < MAX_FDS && f != 0 && f == SlotAt(tasks, cur, live.rdi) && f in files && files[f].End?
      requires files[f].writable
      requires files[f].pipe in pipes && pipes[files[f].pipe].Valid()
      modifies `tasks, `trees, `cur, `idle, `live, `cr3, `pipes
      ensures Valid() && Apart(old(tasks), tasks, old(cur))
      ensures var q := old(pipes)[files[f].pipe];
              if q.readers == 0 then
                live == old(live).(rax := SYSCALL_ERROR) && cur == old(cur) && !idle
                && Has(old(tasks), cur)
                && Now() == old(Now()).(tasks := old(tasks)[cur := Some(Struck(old(tasks)[cur].value, SIG_PIPE))])
              else if q.Used() == PIPE_SIZE - 1 then
                Held(old(Now()), Now(), old(cur), old(live), WaitPipeWrite, cur, idle, live)
              else
                var m := Least(q.Space(), |bytes|);
                live == old(live).(rax := m) && cur == old(cur) && !idle && Nudged(old(tasks), tasks)
                && NoWaiter(tasks, WaitPipeRead)
                && files[f].pipe in pipes && pipes[files[f].pipe].Valid()
                && Now() == old(Now()).(tasks := tasks, pipes := old(pipes)[files[f].pipe := pipes[files[f].pipe]])
                && pipes[files[f].pipe].Contents() == q.Contents() + bytes[..m]
    {
      hide Slotted, Counted, Parked, Wooded, Tidy, Nudged, NoWaiter, Pipe.Used, Pipe.Contents, StillParked, MayPark,
           Apart, Held;
      CurRuns();
      var p := files[f].pipe;
      if pipes[p].readers == 0 {
        Raise(cur, SIG_PIPE);
        PutApart(old(tasks), cur, tasks[cur]);
        Answer(SYSCALL_ERROR);
        return;
      }
      var space := pipes[p].Space();
      if space == 0 {
        WriteIsRight(f, p);
        Sleep(WaitPipeWrite);
        return;
      }
      var m := if space < |bytes| then space else |bytes|;
      var q := Fill(pipes[p], bytes[..m]);
      Publish(p, q, WaitPipeRead);
      JustNudged(old(tasks), tasks, cur);
      Answer(m);
    }

    /** The descriptor of the running task that a call names, if it is open and faces the right way. */
    method Descriptor(fd: nat, writable: bool) returns (f: nat)
      requires Valid() && !idle
      ensures f == Opened(Now(), cur, fd, writable)
      ensures f != 0 ==> fd < MAX_FDS && f == SlotAt(tasks, cur, fd) && f in files && files[f].writable == writable
                         && (files[f].End? ==> files[f].pipe in pipes && pipes[files[f].pipe].Valid())
    {
      hide Counted, Parked, Wooded, Tidy;
      CurRuns();
      if fd >= MAX_FDS || tasks[cur].value.fds[fd] == 0 {
        return 0;
      }
      f := tasks[cur].value.fds[fd];
      SlotFile({}, cur, fd);
      if files[f].writable != writable {
        return 0;
      }
      if files[f].End? {
        NamesPipe(f);
        PipeIsValid({}, files[f].pipe);
      }
    }

    /** SYS_READ: a bad descriptor or buffer fails; the rest is the console's or the pipe's business. */
    method SysRead() returns (out: seq<Byte>)
      requires Valid() && !idle && live.rax == SYS_READ
      modifies `tasks, `trees, `cur, `idle, `live, `cr3, `keys, `eof, `pipes
      ensures Valid() && Apart(old(tasks), tasks, old(cur))
      ensures if MustWait(old(Now()), old(cur), old(live))
              then out == []
                   && Held(old(Now()), Now(), old(cur), old(live), Reason(old(Now()), old(cur), old(live)), cur, idle,
                           live)
              else Served(old(Now()), Now(), old(cur), old(live), out, live.rax)
                   && cur == old(cur) && !idle && live == old(live).(rax := live.rax)
    {
      hide Slotted, Counted, Parked, Wooded, Tidy, Shaped, Nudged, NoWaiter, StillParked, Pipe.Used, Pipe.Contents,
           SlotAt, Apart, Held, RangeOk;
      out := [];
      NudgedSelf(tasks);
      JustNudged(tasks, tasks, cur);
      var f := Descriptor(live.rdi, false);
      if f == 0 {
        Answer(SYSCALL_ERROR);
        return;
      }
      if live.rdx == 0 {
        Answer(0);
        return;
      }
      var len := if live.rdx < IO_MAX then live.rdx else IO_MAX;
      if !RangeOk(live.rsi, len) {
        Answer(SYSCALL_ERROR);
        return;
      }
      if files[f].Console? {
        out := ReadConsole(len);
      } else {
        out := ReadPipe(f, len);
      }
    }

    /** SYS_WRITE of the bytes in the caller's buffer, of which one call takes at most 4096. */
    method SysWrite(buffer: seq<Byte>)
      requires Valid() && !idle && live.rax == SYS_WRITE && |buffer| == Least(live.rdx, IO_MAX)
      modifies `tasks, `trees, `cur, `idle, `live, `cr3, `pipes
      ensures Valid() && Apart(old(tasks), tasks, old(cur))
      ensures if MustWait(old(Now()), old(cur), old(live))
              then Held(old(Now()), Now(), old(cur), old(live), WaitPipeWrite, cur, idle, live)
              else Served(old(Now()), Now(), old(cur), old(live), buffer, live.rax)
                   && cur == old(cur) && !idle && live == old(live).(rax := live.rax)
    {
      hide Slotted, Counted, Parked, Wooded, Tidy, Shaped, Nudged, NoWaiter, StillParked, Pipe.Used, Pipe.Contents,
           SlotAt, Apart, Held, RangeOk;
      NudgedSelf(tasks);
      JustNudged(tasks, tasks, cur);
      var f := Descriptor(live.rdi, true);
      if f == 0 {
        Answer(SYSCALL_ERROR);
        return;
      }
      if live.rdx == 0 {
        Answer(0);
        return;
      }
      if !RangeOk(live.rsi, |buffer|) {
        Answer(SYSCALL_ERROR);
        return;
      }
      if files[f].Console? {
        Answer(|buffer|);
      } else {
        WritePipe(f, buffer);
      }
    }

    // -------------------------------------------------------------------------
    // SYS_RUN
    // -------------------------------------------------------------------------

    /** paging_create_address_space: a tree nobody has, or 0 if there is no memory for one. */
    method CreateTree(ghost lf: set<nat>) returns (h: nat)
      requires Inv(lf, {}, {})
      modifies `trees, `grants
      ensures grants == Rest(old(grants), 1) && (h != 0 <==> Yes(old(grants)))
      ensures h == 0 ==> trees == old(trees) && Inv(lf, {}, {})
      ensures h != 0 ==> h !in old(trees) && trees == old(trees) + {h} && Inv(lf, {}, {h})
    {
      hide Slotted, Counted, Parked, Tidy, Shaped;
      var yes := Yes(grants);
      grants := Rest(grants, 1);
      h := 0;
      if yes {
        Unused(trees);
        var spot: nat :| spot != 0 && spot !in trees;
        h := spot;
        trees := trees + {h};
      }
    }

    /** A tree no task got is destroyed. */
    method DropTree(h: nat, ghost lf: set<nat>)
      requires Inv(lf, {}, {h})
      modifies `trees
      ensures trees == old(trees) - {h} && Inv(lf, {}, {})
    {
      hide Slotted, Counted, Parked, Tidy, Shaped;
      FellTree(h);
    }

    /** kfree of a console file_t that never reached a slot. */
    method FreeConsole(f: nat, ghost lf: set<nat>, ghost lt: set<nat>)
      requires Inv(lf, {}, lt) && f in lf && f in files && files[f].Console?
      modifies `files
      ensures Inv(lf - {f}, {}, lt) && files == old(files) - {f}
    {
      hide Slotted, Counted, Parked, Wooded, Tidy, Shaped;
      CloseCounted(files, pipes, f);
      CloseParks(lf, f);
      CloseSlots(tasks, files, lf, f);
      files := files - {f};
    }

    /** The two consoles every task is born with, or neither. */
    method Consoles(ghost lf: set<nat>, ghost lt: set<nat>) returns (fin: nat, fout: nat)
      requires Inv(lf, {}, lt)
      modifies `files, `grants
      ensures grants == Rest(old(grants), 2) && (fin != 0 <==> Granted(old(grants), 2))
      ensures fin == 0 ==> files == old(files) && Inv(lf, {}, lt)
      ensures fin != 0 ==> fout != 0 && fin != fout && fin !in old(files) && fout !in old(files)
                           && files == old(files)[fin := Console(false)][fout := Console(true)]
                           && Inv(lf + {fin} + {fout}, {}, lt)
    {
      hide Slotted, Counted, Parked, Wooded, Tidy, Shaped, Granted, Rest;
      fout := 0;
      InTurn(grants, 1, 1);
      OneRequest(grants);
      OneRequest(Rest(grants, 1));
      InFiles(lf, lt);
      fin := FileAllocConsole(false, lf, lt);
      if fin == 0 {
        fout := FileAllocConsole(true, lf, lt);
        if fout != 0 {
          assert lf + {fout} - {fout} == lf && old(files)[fout := Console(true)] - {fout} == old(files);
          FreeConsole(fout, lf + {fout}, lt);
        }
        return;
      }
      fout := FileAllocConsole(true, lf + {fin}, lt);
      if fout == 0 {
        assert lf + {fin} - {fin} == lf && old(files)[fin := Console(false)] - {fin} == old(files);
        FreeConsole(fin, lf + {fin}, lt);
        fin := 0;
      }
    }

    lemma InFiles(lf: set<nat>, lt: set<nat>)
      requires Inv(lf, {}, lt)
      ensures lf <= files.Keys
    {
    }

    /** task_register: the new task takes the next number, a tree and two consoles; with no room nothing is taken. */
    method Register(h: nat, entry: nat, req: nat, ghost lf: set<nat>) returns (id: int)
      requires Inv(lf, {}, {h}) && OneRuns(tasks, cur, false) && h != 0
      modifies `tasks, `n, `files, `grants
      ensures id >= 0 <==> old(n) < MAX_TASKS && Granted(old(grants), 3)
      ensures (id >= 0 ==> grants == Rest(old(grants), 3)) && Later(old(grants), grants)
      ensures id < 0 ==> tasks == old(tasks) && n == old(n) && files == old(files) && Inv(lf, {}, {h})
      ensures id >= 0 ==> id == old(n) && n == old(n) + 1 && Inv(lf, {}, {}) && OneRuns(tasks, cur, false) && id != cur
                          && Has(tasks, id) && tasks == old(tasks)[id := tasks[id]] && old(tasks)[id].None?
                          && tasks[id].value == NewTask(entry, h, cur, GroupOf(req, old(tasks)[cur].value.pgid, id))
                                                .(fds := tasks[id].value.fds)
                          && Standard(tasks[id].value, old(files), files)
    {
      hide Slotted, Counted, Parked, Wooded, Tidy, Granted, Rest, Later;
      InTurn(grants, 1, 2);
      OneRequest(grants);
      LaterBy(grants, 1);
      LaterBy(grants, 3);
      if n >= MAX_TASKS {
        return -1;
      }
      InFiles(lf, {h});
      var room := Yes(grants);        // kmalloc of the task_t
      grants := Rest(grants, 1);
      if !room {
        return -1;
      }
      var fin, fout := Consoles(lf, {h});
      if fin == 0 {
        return -1;
      }
      var t := NewTask(entry, h, cur, GroupOf(req, tasks[cur].value.pgid, n));
      BornInv(t, h, lf + {fin} + {fout});
      tasks := tasks[n := Some(t)];
      n := n + 1;
      id := n - 1;
      assert {h} - {h} == {};
      InFilesOld(lf, old(files), fin, fout);
      Install(id, 0, fin, lf + {fin} + {fout}, {}, {});
      Install(id, 1, fout, lf + {fout}, {}, {});
      assert tasks == old(tasks)[id := tasks[id]];
    }

    lemma InFilesOld(lf: set<nat>, F: map<nat, File>, a: nat, b: nat)
      requires lf <= F.Keys && a !in F && b !in F && a != b
      ensures lf + {a} + {b} - {a} == lf + {b} && lf + {b} - {b} == lf
    {
    }

    lemma BornInv(t: Task, h: nat, lf: set<nat>)
      requires Inv(lf, {}, {h}) && n < MAX_TASKS && OneRuns(tasks, cur, false) && t.aspace == h && NoFds(t)
      requires t.state == Ready && t.why == WaitNone && |t.fds| == MAX_FDS && |t.handlers| == MAX_SIGS
      ensures var T' := tasks[n := Some(t)];
              Shaped(T', n + 1) && Tidy(T') && Slotted(T', files, lf) && Parked(T', files, pipes, Input(keys, eof))
              && Wooded(T', trees, {h} - {h}, cr3, cur)
              && OneRuns(T', cur, false) && n != cur && tasks[n].None?
    {
      hide Slotted, Counted, Parked, Wooded, Tidy;
      BornShape(tasks, n, t);
      BornSlots(tasks, n, files, lf, t);
      BornParked(tasks, n, files, pipes, Input(keys, eof), t);
      HolesIn(h);
      BornWooded(tasks, n, trees, {h}, cr3, cur, t);
    }

    lemma HolesIn(h: nat)
      requires Shaped(tasks, n) && n < MAX_TASKS
      ensures tasks[n].None?
    {
    }

    /** The inherited descriptors, duplicated before the child exists; both or neither. */
    method Dups(inSrc: nat, outSrc: nat, ghost lt: set<nat>) returns (ok: bool, a: nat, b: nat)
      requires Inv({}, {}, lt) && (inSrc != 0 ==> inSrc in files) && (outSrc != 0 ==> outSrc in files)
      modifies `tasks, `files, `pipes, `grants
      ensures ok <==> Granted(old(grants), Copies(inSrc, outSrc))
      ensures (ok ==> grants == Rest(old(grants), Copies(inSrc, outSrc))) && Later(old(grants), grants)
      ensures Nudged(old(tasks), tasks)
      ensures !ok ==> files == old(files) && pipes == old(pipes) && Inv({}, {}, lt)
      ensures ok ==> Inv(Pair(a, b), {}, lt) && Copied(old(files), old(pipes), files, pipes, inSrc, outSrc, a, b)
    {
      hide Slotted, Counted, Parked, Wooded, Tidy, Shaped, Nudged, Kept, Granted, Rest, Later;
      NudgedSelf(tasks);
      InTurn(grants, 1, 1);
      OneRequest(grants);
      OneRequest(Rest(grants, 1));
      LaterBy(grants, 1);
      LaterBy(grants, 2);
      KeptSelf(files, pipes);
      a, b := 0, 0;
      if inSrc != 0 {
        a := FileDup(inSrc, {}, lt);
        if a == 0 {
          return false, a, b;
        }
        KeptDup(old(files), old(pipes), old(files), old(pipes), inSrc, a, pipes);
      }
      assert Pair(a, 0) == if a == 0 then {} else {} + {a};
      if outSrc != 0 {
        ghost var F1, P1 := files, pipes;
        b := FileDup(outSrc, Pair(a, 0), lt);
        if b == 0 {
          if a != 0 {
            Undo(a, Pair(a, 0), lt, old(files), old(pipes));
            assert Pair(a, 0) - {a} == {} && files == old(files);
          }
          KeptSame(old(files), old(pipes));
          return false, 0, 0;
        }
        KeptDup(old(files), old(pipes), F1, P1, outSrc, b, pipes);
      }
      assert Pair(a, b) == if b == 0 then Pair(a, 0) else Pair(a, 0) + {b};
      ok := true;
    }

    /** An inherited end that found no home is closed again; what was there before is untouched. */
    method Undo(f: nat, ghost lf: set<nat>, ghost lt: set<nat>, ghost F0: map<nat, File>, ghost P0: map<nat, Pipe>)
      requires Inv(lf, {}, lt) && f in lf && f in files && f !in F0 && Kept(F0, P0, files, pipes)
      modifies `tasks, `files, `pipes
      ensures Inv(lf - {f}, {}, lt) && Nudged(old(tasks), tasks) && files == old(files) - {f}
      ensures Kept(F0, P0, files, pipes)
    {
      hide Slotted, Counted, Parked, Wooded, Tidy, Shaped, Nudged, AfterClose;
      FileClose(f, lf, lt);
      KeptClose(F0, P0, old(files), old(pipes), f);
    }

    lemma KeptSame(F0: map<nat, File>, P0: map<nat, Pipe>)
      requires Counted(F0, P0, {}) && Counted(files, pipes, {}) && files == F0 && Kept(F0, P0, files, pipes)
      ensures pipes == P0
    {
      forall p | p in pipes ensures p in P0 {
        EndsNamed(files, pipes, p);
      }
      forall p | p in P0 ensures pipes[p] == P0[p] {}
    }

    /** The child's descriptor `k` is replaced by an inherited one, if there is one. */
    method Swap(id: nat, k: nat, f: nat, ghost lf: set<nat>)
      requires Inv(lf, {}, {}) && OneRuns(tasks, cur, false) && IsReady(tasks, id) && id != cur && k < MAX_FDS
      requires tasks[id].value.fds[k] != 0
      requires f != 0 ==> f in lf
      modifies `tasks, `files, `pipes
      ensures Inv(lf - {f}, {}, {}) && OneRuns(tasks, cur, false) && IsReady(tasks, id) && |tasks| == |old(tasks)|
      ensures tasks[id].value == old(tasks)[id].value.(fds := tasks[id].value.fds)
      ensures tasks[id].value.fds == if f == 0 then old(tasks)[id].value.fds else old(tasks)[id].value.fds[k := f]
      ensures Nudged(old(tasks)[id := tasks[id]], tasks)
      ensures f == 0 ==> files == old(files) && pipes == old(pipes)
      ensures f != 0 ==>
                files == old(files) - {old(tasks)[id].value.fds[k]} && old(tasks)[id].value.fds[k] in old(files)
      ensures f != 0 && old(files)[old(tasks)[id].value.fds[k]].Console? ==> pipes == old(pipes)
    {
      hide Slotted, Counted, Parked, Wooded, Tidy, Nudged;
      NudgedSelf(tasks);
      NoLooseZero(lf);
      if f == 0 {
        assert lf - {0} == lf && tasks[id := tasks[id]] == tasks;
        return;
      }
      CloseFd(id, k, lf, {});
      ghost var T := tasks;
      OtherRunner(old(tasks), tasks, cur, id);
      Install(id, k, f, lf, {}, {});
      OtherRunner2(T, cur, id, tasks[id].value);
      NudgedPut(old(tasks), T, id, tasks[id]);
    }

    lemma NoLooseZero(lf: set<nat>)
      requires Inv(lf, {}, {})
      ensures 0 !in lf
    {
    }

    /** may_use_group: the caller's own group, or one a live child of it is in. */
    method MayUseGroup(pgid: nat) returns (b: bool)
      requires Valid()
      ensures b == MayUse(tasks, cur, pgid)
      ensures Has(tasks, cur)
      ensures b <==> || tasks[cur].value.pgid == pgid
                     || exists c :: Has(tasks, c) && tasks[c].value.parent == cur && tasks[c].value.state != Zombie
                                    && tasks[c].value.pgid == pgid
    {
      hide Slotted, Counted, Parked, Wooded, Tidy;
      if tasks[cur].value.pgid == pgid {
        return true;
      }
      var i := 0;
      while i < n
        invariant 0 <= i <= n
        invariant forall c :: 0 <= c < i && ChildOf(tasks, c, cur) && !IsZombie(tasks, c) ==>
                  tasks[c].value.pgid != pgid
      {
        if tasks[i].Some? && tasks[i].value.state != Zombie
           && tasks[i].value.parent == cur && tasks[i].value.pgid == pgid {
          assert ChildOf(tasks, i, cur);
          return true;
        }
        i := i + 1;
      }
      b := false;
    }

    /** SYS_SETFG */
    method SysSetFg()
      requires Valid() && !idle
      modifies `fg, `live
      ensures Valid() && var g := old(live).rdi % 0x1_0000_0000;
              if MayUse(tasks, cur, g)
              then fg == g && live == old(live).(rax := 0)
              else fg == old(fg) && live == old(live).(rax := SYSCALL_ERROR)
    {
      hide Slotted, Counted, Parked, Wooded, Tidy, MayUse;
      var g := live.rdi % 0x1_0000_0000;
      var may := MayUseGroup(g);
      if may {
        fg := g;
      }
      Answer(if may then 0 else SYSCALL_ERROR);
    }

    /** A descriptor argument of SYS_RUN: 0 for a console, else the caller's file. */
    method Resolve(fd: int, writable: bool) returns (ok: bool, f: nat)
      requires Valid() && !idle
      ensures ok == Given(Now(), cur, fd, writable)
      ensures ok ==> f == Source(Now(), cur, fd, writable) && (f != 0 ==> f in files)
    {
      hide Machine.Valid, Opened;
      if fd == -1 {
        return true, 0;
      }
      if fd < 0 {
        return false, 0;
      }
      f := Descriptor(fd, writable);
      ok := f != 0;
    }

    /** SYS_RUN: a child with its own tree and the descriptors it was given, or nothing taken at all. `named` says the
        name could be read, `loaded` that the program and its stack fitted into the tree. */
    method SysRun(inFd: int, outFd: int, req: nat, named: bool, loaded: bool, entry: nat)
      requires Valid() && !idle
      modifies `tasks, `n, `files, `pipes, `trees, `live, `grants
      ensures live.rax != SYSCALL_ERROR <==> named && loaded && MayRun(old(Now()), cur, inFd, outFd, req)
      ensures live.rax != SYSCALL_ERROR ==> grants == Rest(old(grants), RunAsks(old(Now()), cur, inFd, outFd))
      ensures Later(old(grants), grants)
      ensures Valid() && !idle && live == old(live).(rax := live.rax) && Apart(old(tasks), tasks, cur)
      ensures Has(tasks, cur) && tasks[cur] == old(tasks)[cur]
      ensures live.rax == SYSCALL_ERROR ==>
                n == old(n) && files == old(files) && pipes == old(pipes) && trees == old(trees)
                && Nudged(old(tasks), tasks)
      ensures live.rax != SYSCALL_ERROR ==>
                live.rax == old(n)
                && Born(tasks, n, trees, old(n), old(trees), cur, entry,
                        GroupOf(req, old(tasks)[cur].value.pgid, old(n)))
                && Inherits(tasks[old(n)].value, files, old(files), Source(old(Now()), cur, inFd, false),
                            Source(old(Now()), cur, outFd, true))
                && RingsKept(old(pipes), pipes)
      ensures live.rax != SYSCALL_ERROR ==> Has(tasks, old(n)) && Poised(tasks[old(n)].value, entry, cur)
      ensures live.rax != SYSCALL_ERROR ==>
                tasks[old(n)].value.pgid == if req == 0xFFFF_FFFF then old(n)
                                            else if req == 0 then old(tasks)[cur].value.pgid else req
    {
      hide Slotted, Counted, Parked, Wooded, Tidy, Shaped, Nudged, Opened, Copied, Inherits, Apart, Born, RingsKept,
           MayUse, GroupOf, Given, Source, Granted, Rest, Later, Copies, Poised;
      NudgedSelf(tasks);
      JustNudged(tasks, tasks, cur);
      LaterBy(grants, 0);
      if !named {
        Answer(SYSCALL_ERROR);
        return;
      }
      var may := req == PGID_INHERIT || req == PGID_NEW;
      if !may {
        may := MayUseGroup(req);
      }
      if !may {
        Answer(SYSCALL_ERROR);
        return;
      }
      var inOk, inSrc := Resolve(inFd, false);
      if !inOk {
        Answer(SYSCALL_ERROR);
        return;
      }
      var outOk, outSrc := Resolve(outFd, true);
      if !outOk {
        Answer(SYSCALL_ERROR);
        return;
      }
      var id := Spawn(inSrc, outSrc, loaded, entry, req);
      Answer(if id < 0 then SYSCALL_ERROR else id);
    }

    /** task_create_from_file past the checks on its arguments. */
    method Spawn(inSrc: nat, outSrc: nat, loaded: bool, entry: nat, req: nat) returns (id: int)
      requires Valid() && !idle && (inSrc != 0 ==> inSrc in files) && (outSrc != 0 ==> outSrc in files)
      modifies `tasks, `n, `files, `pipes, `trees, `grants
      ensures id >= 0 <==> loaded && old(n) < MAX_TASKS && Granted(old(grants), 4 + Copies(inSrc, outSrc))
      ensures (id >= 0 ==> grants == Rest(old(grants), 4 + Copies(inSrc, outSrc))) && Later(old(grants), grants)
      ensures Valid() && Apart(old(tasks), tasks, cur) && Has(tasks, cur) && tasks[cur] == old(tasks)[cur]
      ensures id < 0 ==>
                n == old(n) && files == old(files) && pipes == old(pipes) && trees == old(trees)
                && Nudged(old(tasks), tasks)
      ensures id >= 0 ==>
                id == old(n)
                && Born(tasks, n, trees, id, old(trees), cur, entry, GroupOf(req, old(tasks)[cur].value.pgid, id))
                && Inherits(tasks[id].value, files, old(files), inSrc, outSrc) && RingsKept(old(pipes), pipes)
      ensures id >= 0 ==> Has(tasks, id) && Poised(tasks[id].value, entry, cur)
      ensures id >= 0 ==> tasks[id].value.pgid == if req == 0xFFFF_FFFF then id
                                                  else if req == 0 then old(tasks)[cur].value.pgid else req
    {
      hide Slotted, Counted, Parked, Wooded, Tidy, Nudged, Copied, Kept, Apart, Untouched, Inherits, Standard,
           RingsKept, Granted, Rest, Later, Copies, Born, GroupOf, Poised;
      NudgedSelf(tasks);
      JustNudged(tasks, tasks, cur);
      ghost var g0 := grants;
      SpawnGrants(g0, Copies(inSrc, outSrc));
      var h := CreateTree({});
      if h == 0 {
        return -1;
      }
      assert old(trees) + {h} - {h} == old(trees);
      if !loaded {
        DropTree(h, {});
        return -1;
      }
      ghost var g1 := grants;
      var ok, a, b := Dups(inSrc, outSrc, {h});
      LaterJoin(g0, g1, grants);
      NudgedRuns(old(tasks), tasks, cur, false);
      NudgedAt(old(tasks), tasks, cur);
      JustNudged(old(tasks), tasks, cur);
      if !ok {
        DropTree(h, {});
        return -1;
      }
      ghost var g2 := grants;
      id := Enrol(h, a, b, entry, req, old(tasks), old(files), old(pipes), inSrc, outSrc);
      LaterJoin(g0, g2, grants);
      if id >= 0 {
        BornPoised(tasks, n, trees, id, old(trees), cur, entry, req, old(tasks)[cur].value.pgid);
      }
    }

    /** The tree is loaded and the inherited ends copied: the child is entered in the table, or all is undone. */
    method Enrol(h: nat, a: nat, b: nat, entry: nat, req: nat, ghost T0: Table, ghost F0: map<nat, File>,
                 ghost P0: map<nat, Pipe>, ghost inSrc: nat, ghost outSrc: nat) returns (id: int)
      requires Inv(Pair(a, b), {}, {h}) && OneRuns(tasks, cur, false) && h != 0 && !idle
      requires Copied(F0, P0, files, pipes, inSrc, outSrc, a, b) && Counted(F0, P0, {})
      requires Nudged(T0, tasks) && OneRuns(T0, cur, false) && h in trees && tasks[cur] == T0[cur]
      modifies `tasks, `n, `files, `pipes, `trees, `grants
      ensures id >= 0 <==> old(n) < MAX_TASKS && Granted(old(grants), 3)
      ensures (id >= 0 ==> grants == Rest(old(grants), 3)) && Later(old(grants), grants)
      ensures Valid() && Apart(T0, tasks, cur) && Has(tasks, cur) && tasks[cur] == T0[cur]
      ensures id < 0 ==> n == old(n) && files == F0 && pipes == P0 && trees == old(trees) - {h} && Nudged(T0, tasks)
      ensures id >= 0 ==>
                id == old(n)
                && Born(tasks, n, trees, id, old(trees) - {h}, cur, entry, GroupOf(req, T0[cur].value.pgid, id))
                && Inherits(tasks[id].value, files, F0, inSrc, outSrc) && RingsKept(P0, pipes)
    {
      hide Slotted, Counted, Parked, Wooded, Tidy, Nudged, Copied, Kept, Apart, Untouched, Inherits, Standard,
           RingsKept, Granted, Rest, Later, GroupOf;
      JustNudged(T0, tasks, cur);
      ghost var T1, F1, P1 := tasks, files, pipes;
      id := Register(h, entry, req, Pair(a, b));
      if id < 0 {
        Abandon(a, b, h, F0, P0, inSrc, outSrc);
        NudgedJoin(T0, T1, tasks);
        NudgedRuns(T0, tasks, cur, false);
        NudgedAt(T0, tasks, cur);
        JustNudged(T0, tasks, cur);
        return -1;
      }
      ghost var T2 := tasks;
      CopiedRings(F0, P0, P1, F1, inSrc, outSrc, a, b);
      Adopt(id, a, b, F0, P0, F1, P1, inSrc, outSrc);
      NewcomerApart(T0, T1, T2, tasks, id, cur);
      NudgedAt(T2[id := tasks[id]], tasks, cur);
    }

    /** No child after all: the inherited ends are closed and the tree destroyed. */
    method Abandon(a: nat, b: nat, h: nat, ghost F0: map<nat, File>, ghost P0: map<nat, Pipe>, ghost inSrc: nat,
                   ghost outSrc: nat)
      requires Inv(Pair(a, b), {}, {h}) && Copied(F0, P0, files, pipes, inSrc, outSrc, a, b) && Counted(F0, P0, {})
      modifies `tasks, `files, `pipes, `trees
      ensures Inv({}, {}, {}) && files == F0 && pipes == P0 && Nudged(old(tasks), tasks) && trees == old(trees) - {h}
    {
      hide Slotted, Counted, Parked, Wooded, Tidy, Shaped, Nudged, Kept;
      NudgedSelf(tasks);
      ghost var lf := Pair(a, b);
      if a != 0 {
        Undo(a, lf, {h}, F0, P0);
        lf := lf - {a};
      }
      ghost var T1 := tasks;
      if b != 0 {
        Undo(b, lf, {h}, F0, P0);
        lf := lf - {b};
        NudgedJoin(old(tasks), T1, tasks);
      }
      assert lf == {};
      assert files == F0 by { KeptFiles(F0, P0, files, pipes); }
      KeptSame(F0, P0);
      DropTree(h, {});
    }

    /** The registered child gets its inherited descriptors. */
    method Adopt(id: nat, a: nat, b: nat, ghost F0: map<nat, File>, ghost P0: map<nat, Pipe>, ghost F1: map<nat, File>,
                 ghost P1: map<nat, Pipe>, ghost inSrc: nat, ghost outSrc: nat)
      requires Inv(Pair(a, b), {}, {}) && OneRuns(tasks, cur, false) && IsReady(tasks, id) && id != cur
      requires Standard(tasks[id].value, F1, files) && Copied(F0, P0, F1, P1, inSrc, outSrc, a, b)
      modifies `tasks, `files, `pipes
      ensures Inv({}, {}, {}) && OneRuns(tasks, cur, false) && IsReady(tasks, id) && |tasks| == |old(tasks)|
      ensures tasks[id].value == old(tasks)[id].value.(fds := tasks[id].value.fds)
      ensures Nudged(old(tasks)[id := tasks[id]], tasks)
      ensures Inherits(tasks[id].value, files, F0, inSrc, outSrc) && pipes == old(pipes)
    {
      hide Slotted, Counted, Parked, Wooded, Tidy, Shaped, Nudged, Kept, Pair, Inherits;
      ghost var fds := tasks[id].value.fds;
      InPair(a, b);
      Swap(id, 0, a, Pair(a, b));
      ghost var T := tasks;
      Swap(id, 1, b, Pair(a, b) - {a});
      NudgedPut(old(tasks), T, id, tasks[id]);
      NudgedJoin(old(tasks)[id := tasks[id]], T[id := tasks[id]], tasks);
      Inherited(tasks[id].value, fds, files, F0, P0, F1, P1, old(files), inSrc, outSrc, a, b);
    }

    lemma InPair(a: nat, b: nat)
      ensures (a != 0 ==> a in Pair(a, b)) && (b != 0 && b != a ==> b in Pair(a, b) - {a})
      ensures Pair(a, b) - {a} - {b} == {}
    {
    }

    // -------------------------------------------------------------------------
    // Signals delivered
    // -------------------------------------------------------------------------

    /** SYS_KILL */
    method SysKill()
      requires Valid() && !idle
      modifies `tasks, `live
      ensures Valid() && !idle && Apart(old(tasks), tasks, cur)
      ensures var id, sig := old(live).rdi % 0x1_0000_0000, Int32(old(live).rsi);
              if Has(old(tasks), id) && !IsZombie(old(tasks), id) && 0 < sig < MAX_SIGS
              then tasks == old(tasks)[id := Some(Struck(old(tasks)[id].value, sig))] && live == old(live).(rax := 0)
              else tasks == old(tasks) && live == old(live).(rax := SYSCALL_ERROR)
    {
      hide Slotted, Counted, Parked, Wooded, Tidy, Apart;
      var id, sig := live.rdi % 0x1_0000_0000, Int32(live.rsi);
      PutApart(tasks, cur, tasks[cur]);
      assert tasks[cur := tasks[cur]] == tasks;
      if id >= n || tasks[id].None? || tasks[id].value.state == Zombie {
        Answer(SYSCALL_ERROR);
        return;
      }
      if sig <= 0 || sig >= MAX_SIGS {
        Answer(SYSCALL_ERROR);
        return;
      }
      Raise(id, sig);
      OtherApart(old(tasks), id, tasks[id], cur);
      Answer(0);
    }

    /** SYS_SIGNAL: a handler for one signal, and the one trampoline every handler of the task returns through. */
    method SysSignal()
      requires Valid() && !idle
      modifies `tasks, `live
      ensures Valid() && !idle && Apart(old(tasks), tasks, cur) && Has(old(tasks), cur)
      ensures |old(tasks)[cur].value.handlers| == MAX_SIGS
      ensures live.rax == 0 <==>
                && 0 < Int32(old(live).rdi) < 32 && Int32(old(live).rdi) != 9
                && (old(live).rsi == 0 || 0x40_0000 <= old(live).rsi < 0xA0_0000)
                && 0x40_0000 <= old(live).rdx < 0xA0_0000
      ensures var sig, t := Int32(old(live).rdi), old(tasks)[cur].value;
              if Catchable(sig, old(live).rsi, old(live).rdx)
              then tasks == old(tasks)[cur := Some(t.(handlers := t.handlers[sig := old(live).rsi],
                                                      trampoline := old(live).rdx))]
                   && live == old(live).(rax := 0)
              else tasks == old(tasks) && live == old(live).(rax := SYSCALL_ERROR)
    {
      hide Slotted, Counted, Parked, Wooded, Tidy, Apart;
      var sig := Int32(live.rdi);
      CurRuns();
      PutApart(tasks, cur, tasks[cur]);
      assert tasks[cur := tasks[cur]] == tasks;
      if || sig <= 0 || sig >= MAX_SIGS || sig == SIG_KILL
         || (live.rsi != 0 && !RangeOk(live.rsi, 1)) || !RangeOk(live.rdx, 1) {
        Answer(SYSCALL_ERROR);
        return;
      }
      var t := tasks[cur].value;
      Remark(t.(handlers := t.handlers[sig := live.rsi], trampoline := live.rdx));
      Answer(0);
    }

    /** A note in the current task's own record that nobody else can see. */
    method Remark(t: Task)
      requires Valid() && !idle && Has(tasks, cur) && |t.handlers| == |tasks[cur].value.handlers|
      requires t == tasks[cur].value.(pending := t.pending, handlers := t.handlers, trampoline := t.trampoline,
                                      active := t.active, ctx := t.ctx)
      modifies `tasks
      ensures Valid() && tasks == old(tasks)[cur := Some(t)] && Apart(old(tasks), tasks, cur)
    {
      hide Slotted, Counted, Parked, Wooded, Tidy, Apart;
      CurRuns();
      QuietInv(cur, t, {}, {}, {});
      tasks := tasks[cur := Some(t)];
      StillRuns(old(tasks), cur, t);
      PutApart(old(tasks), cur, Some(t));
    }

    /** deliver_to_handler, up to the bytes it writes: the frame enters the handler, or the task dies of a stack that
        cannot take the saved one. */
    method Deliver(sig: nat) returns (o: Delivery)
      requires Valid() && !idle && 0 < sig < MAX_SIGS && Has(tasks, cur) && |tasks[cur].value.handlers| == MAX_SIGS
      modifies `tasks, `files, `pipes, `trees, `cur, `idle, `live, `cr3
      ensures Valid() && Apart(old(tasks), tasks, old(cur)) && Untouched(old(tasks), tasks, old(cur))
      ensures var sp := ContextAt(old(live).rsp % WORD_MOD);
              if RangeOk(sp, FRAME_BYTES + 8)
              then o == Delivered && Enters(old(Now()), Now(), old(cur), old(live), sig, cur, idle, live)
              else o == Killed && Gone(old(Now()), Now(), old(cur), 128 + SIG_SEGV, cur, idle, live)
      ensures if 0x40_0130 <= old(live).rsp % WORD_MOD < 0xA0_0080
              then && !idle && cur == old(cur) && Has(old(tasks), cur) && Has(tasks, cur)
                   && live.rip == old(tasks)[cur].value.handlers[sig] && live.rdi == sig
                   && live == old(live).(rip := live.rip, rdi := live.rdi, rsp := live.rsp)
                   && live.rsp + 8 == tasks[cur].value.ctx && tasks[cur].value.ctx % 16 == 0
                   && tasks[cur].value.ctx + 304 <= old(live).rsp % WORD_MOD < tasks[cur].value.ctx + 320
              else IsZombie(tasks, old(cur)) && tasks[old(cur)].value.status == 139
    {
      hide Slotted, Counted, Parked, Wooded, Tidy, Shaped, Apart, Untouched, ContextAt, RangeOk, Clean, FirstFiles,
           Shrunk, PickedFrom;
      CurRuns();
      StackTakes(live.rsp % WORD_MOD);
      var sp := ContextAt(live.rsp % WORD_MOD);
      if !RangeOk(sp, FRAME_BYTES + 8) {
        ghost var at := TaskExit(128 + SIG_SEGV);
        return Killed;
      }
      ContextPlace(live.rsp % WORD_MOD);
      live := live.(rip := tasks[cur].value.handlers[sig], rdi := sig, rsp := (sp + WORD_MOD - 8) % WORD_MOD);
      PutApart(tasks, cur, Some(tasks[cur].value.(pending := tasks[cur].value.pending - {sig}, active := true,
                                                  ctx := sp)));
      Remark(tasks[cur].value.(pending := tasks[cur].value.pending - {sig}, active := true, ctx := sp));
      o := Delivered;
    }

    /** check_signals: on the way to ring 3 with no handler running, the lowest pending signal kills or is delivered.
        The task picked to run after a death is not looked at: it goes on with a signal that may be delivered exactly
        when it had one already. */
    method CheckSignals() returns (o: Delivery)
      requires Valid() && !idle
      modifies `tasks, `files, `pipes, `trees, `cur, `idle, `live, `cr3
      ensures Valid() && Apart(old(tasks), tasks, old(cur)) && Untouched(old(tasks), tasks, old(cur))
      ensures Has(old(tasks), old(cur)) && |old(tasks)[old(cur)].value.handlers| == MAX_SIGS
      ensures old(live.cs % 4 != 3 || !Deliverable(tasks[cur].value)) ==> o == Nothing
      ensures old(live.cs % 4 == 3 && !tasks[cur].value.active) ==>
                forall sig :: 0 < sig < MAX_SIGS && IsLowest(old(tasks)[old(cur)].value.pending, sig) ==>
                  if old(tasks)[old(cur)].value.handlers[sig] == 0 || sig == SIG_KILL
                  then o == Killed && Gone(old(Now()), Now(), old(cur), 128 + sig, cur, idle, live)
                  else if RangeOk(ContextAt(old(live).rsp % WORD_MOD), FRAME_BYTES + 8)
                  then o == Delivered && Enters(old(Now()), Now(), old(cur), old(live), sig, cur, idle, live)
                  else o == Killed && Gone(old(Now()), Now(), old(cur), 128 + SIG_SEGV, cur, idle, live)
      ensures old(live.cs % 4 == 3 && !tasks[cur].value.active) ==>
                forall sig :: 0 < sig < MAX_SIGS && IsLowest(old(tasks)[old(cur)].value.pending, sig) ==>
                  if old(tasks)[old(cur)].value.handlers[sig] == 0 || sig == 9
                  then IsZombie(tasks, old(cur)) && tasks[old(cur)].value.status == 128 + sig
                  else if 0x40_0130 <= old(live).rsp % WORD_MOD < 0xA0_0080
                  then && !idle && cur == old(cur) && Has(tasks, cur)
                       && live.rip == old(tasks)[cur].value.handlers[sig] && live.rdi == sig
                       && live == old(live).(rip := live.rip, rdi := live.rdi, rsp := live.rsp)
                       && live.rsp + 8 == tasks[cur].value.ctx && tasks[cur].value.ctx % 16 == 0
                       && tasks[cur].value.ctx + 304 <= old(live).rsp % WORD_MOD < tasks[cur].value.ctx + 320
                  else IsZombie(tasks, old(cur)) && tasks[old(cur)].value.status == 139
      ensures o == Killed ==> exists status :: Gone(old(Now()), Now(), old(cur), status, cur, idle, live)
      ensures o == Delivered ==> exists sig :: IsLowest(old(tasks)[old(cur)].value.pending, sig)
                                               && Enters(old(Now()), Now(), old(cur), old(live), sig, cur, idle, live)
      ensures o != Nothing ==> Deliverable(old(tasks)[old(cur)].value)
      ensures o == Nothing ==> Now() == old(Now()) && live == old(live) && cur == old(cur) && !idle
      ensures !idle ==> Has(old(tasks), cur)
      ensures old(live.cs % 4 == 3) && !idle ==>
                (Deliverable(tasks[cur].value) <==> o == Killed && Deliverable(old(tasks)[cur].value))
    {
      hide Slotted, Counted, Parked, Wooded, Tidy, Shaped, Apart, Untouched, ContextAt, RangeOk, Clean, FirstFiles,
           Shrunk, PickedFrom;
      CurRuns();
      Handlers();
      PutApart(tasks, cur, tasks[cur]);
      assert tasks[cur := tasks[cur]] == tasks;
      if live.cs % 4 != 3 || tasks[cur].value.active {
        return Nothing;
      }
      var sig := LowestPending(tasks[cur].value.pending);
      if sig == 0 {
        return Nothing;
      }
      if tasks[cur].value.handlers[sig] == 0 || sig == SIG_KILL {
        Execute(sig);
        o := Killed;
      } else {
        o := Deliver(sig);
      }
      StillDeliverable(old(tasks), tasks, old(cur));
    }

    lemma Handlers()
      requires Valid()
      ensures Has(tasks, cur) && |tasks[cur].value.handlers| == MAX_SIGS
    {
    }

    /** A signal with no handler: the task dies of it. */
    method Execute(sig: nat)
      requires Valid() && !idle
      modifies `tasks, `files, `pipes, `trees, `cur, `idle, `live, `cr3
      ensures Valid() && Apart(old(tasks), tasks, old(cur)) && Untouched(old(tasks), tasks, old(cur))
      ensures Gone(old(Now()), Now(), old(cur), 128 + sig, cur, idle, live)
    {
      hide Slotted, Counted, Parked, Wooded, Tidy, Shaped, Apart, Untouched, Clean, FirstFiles, Shrunk, PickedFrom;
      CurRuns();
      PutApart(tasks, cur, Some(tasks[cur].value.(pending := tasks[cur].value.pending - {sig})));
      Remark(tasks[cur].value.(pending := tasks[cur].value.pending - {sig}));
      ghost var T := tasks;
      ghost var at := TaskExit(128 + sig);
      ApartJoin(old(tasks), T, tasks, old(cur));
      UntouchedJoin(old(tasks), T, tasks, old(cur));
    }

    /** signal_sigreturn, with `saved` the words it finds at the place it saved them to. */
    method SigReturn(saved: Regs) returns (ok: bool)
      requires Valid() && !idle
      modifies `tasks, `files, `pipes, `trees, `cur, `idle, `live, `cr3
      ensures Valid() && Apart(old(tasks), tasks, old(cur)) && Has(old(tasks), old(cur))
      ensures ok <==> old(tasks[cur].value.active && RangeOk(tasks[cur].value.ctx, FRAME_BYTES))
      ensures ok <==> old(tasks[cur].value.active) && 0x40_0000 <= old(tasks[cur].value.ctx) <= 0xA0_0000 - 176
      ensures ok ==> && live == saved.(cs := 0x1B, ss := 0x23, rflags := live.rflags)
                     && live.rflags / 512 % 2 == 1 && live.rflags / 2 % 2 == 1
                     && forall k :: k != 1 && k != 9 ==> BitOf(live.rflags, k) == BitOf(saved.rflags, k)
      ensures !ok ==> IsZombie(tasks, old(cur)) && tasks[old(cur)].value.status == 139
      ensures ok ==> cur == old(cur) && !idle && live == Restored(saved)
                     && Now() == old(Now()).(
                          tasks := old(tasks)[cur := Some(old(tasks)[cur].value.(active := false, ctx := 0))])
      ensures !ok ==> Gone(old(Now()), Now(), old(cur), 128 + SIG_SEGV, cur, idle, live)
    {
      hide Slotted, Counted, Parked, Wooded, Tidy, Apart, Untouched, RangeOk, Clean, FirstFiles, Shrunk, PickedFrom;
      CurRuns();
      RangeMeans(tasks[cur].value.ctx, FRAME_BYTES);
      if !tasks[cur].value.active || !RangeOk(tasks[cur].value.ctx, FRAME_BYTES) {
        ghost var at := TaskExit(128 + SIG_SEGV);
        return false;
      }
      live := Restored(saved);
      FlagBits(saved.rflags, 1);
      forall k: nat ensures k != 1 && k != 9 ==> BitOf(live.rflags, k) == BitOf(saved.rflags, k) {
        FlagBits(saved.rflags, k);
      }
      Remark(tasks[cur].value.(active := false, ctx := 0));
      ok := true;
    }

    // -------------------------------------------------------------------------
    // Interrupts and the idle loop
    // -------------------------------------------------------------------------

    /** A key that makes character `c` arrives: it goes into the ring, or is dropped if that is full, and then the
        sleepers are woken. */
    method Key(c: Byte)
      requires Valid() && c != 0
      modifies `tasks, `keys
      ensures Valid() && keys == (if |old(keys)| < 127 then old(keys) + [c] else old(keys))
      ensures Nudged(old(tasks), tasks) && NoWaiter(tasks, WaitKey)
    {
      hide Slotted, Counted, Wooded, Tidy, Shaped, Parked, Nudged, NoWaiter, Woke, Quiet;
      ghost var con := Input(keys, eof);
      if |keys| < KBD_ROOM {
        keys := keys + [c];
      }
      Wake(WaitKey);
      WokenInput(old(tasks), con);
    }

    /** With nobody left waiting for a key, it does not matter what is at the console. */
    lemma WokenInput(T: Table, con: Input)
      requires Shaped(T, n) && Tidy(T) && Slotted(T, files, {}) && Counted(files, pipes, {})
      requires Parked(T, files, pipes, con)
      requires Wooded(T, trees, {}, cr3, cur) && OneRuns(T, cur, idle) && (idle ==> T[cur].value.regs == live)
      requires Woke(T, tasks, WaitKey)
      ensures Valid() && Nudged(T, tasks) && NoWaiter(tasks, WaitKey)
    {
      hide Slotted, Counted, Wooded, Tidy, Shaped, Parked, Nudged, NoWaiter, Woke, Quiet;
      WokeQuiet(T, tasks, WaitKey);
      WokeNudged(T, tasks, WaitKey);
      NudgedQuiet(T, tasks);
      QuietShape(T, tasks, n);
      QuietSlots(T, tasks, files, {});
      QuietParked(T, tasks, files, pipes, con);
      AnyKeys(tasks, files, pipes, con, Input(keys, eof));
      QuietWooded(T, tasks, trees, {}, cr3, cur);
      NudgedRuns(T, tasks, cur, idle);
      NudgedFrame(T, tasks, cur);
    }

    /** Ctrl-D: end of input on the console, and the sleepers are woken. */
    method CtrlD()
      requires Valid()
      modifies `tasks, `eof
      ensures Valid() && eof && Nudged(old(tasks), tasks) && NoWaiter(tasks, WaitKey)
    {
      hide Slotted, Counted, Wooded, Tidy, Shaped, Parked, Nudged, NoWaiter, Woke;
      ghost var con := Input(keys, eof);
      eof := true;
      Wake(WaitKey);
      WokenInput(old(tasks), con);
    }

    /** Ctrl-C: everyone in the foreground group is interrupted. */
    method CtrlC()
      requires Valid()
      modifies `tasks
      ensures Valid() && |tasks| == |old(tasks)| && Apart(old(tasks), tasks, MAX_TASKS)
      ensures forall i :: 0 <= i < |tasks| ==>
                tasks[i] == if Has(old(tasks), i) && !IsZombie(old(tasks), i) && old(tasks)[i].value.pgid == fg
                            then Some(Struck(old(tasks)[i].value, SIG_INT)) else old(tasks)[i]
    {
      hide Machine.Inv;
      Sizes();
      RaiseGroup(fg, SIG_INT);
      forall i | i != MAX_TASKS && Has(old(tasks), i) && !IsZombie(old(tasks), i)
        ensures Has(tasks, i) && Alike(old(tasks)[i].value, tasks[i].value) {}
      forall i | i != MAX_TASKS && IsBlocked(tasks, i) ensures IsBlocked(old(tasks), i) {}
      forall i | Owed(old(tasks), i, MAX_TASKS) ensures Has(tasks, i) && tasks[i] == old(tasks)[i] {}
      forall i | Lives(tasks, i) ensures Lives(old(tasks), i) {}
    }

    /** The idle loop looks again: with someone ready, schedule goes on from where it stopped. */
    method Resume()
      requires Valid() && idle
      modifies `tasks, `cur, `idle, `live, `cr3
      ensures Valid() && Apart(old(tasks), tasks, MAX_TASKS)
      ensures idle <==> forall i :: !IsReady(old(tasks), i)
      ensures idle ==> tasks == old(tasks) && cur == old(cur) && live == old(live)
      ensures !idle ==> NextReady(old(tasks), n, old(cur), cur) && live == tasks[cur].value.regs
                        && tasks == old(tasks)[cur := Some(old(tasks)[cur].value.(state := Running))]
    {
      hide Slotted, Counted, Parked, Wooded, Tidy, Quiet, Apart, Untouched;
      CurBelow();
      NudgedSelf(tasks);
      JustNudged(tasks, tasks, MAX_TASKS);
      var pick := FindNextReady(cur);
      if pick < 0 {
        return;
      }
      idle := false;
      Spacious(pick);
      Dispatch(pick);
      OtherApart(old(tasks), pick, tasks[pick], MAX_TASKS);
    }

    /** A timer tick on a running task. */
    method Tick() returns (ghost at: Table)
      requires Valid() && !idle
      modifies `tasks, `trees, `cur, `idle, `live, `cr3
      ensures Valid() && !idle && Clean(tasks, old(cur), n) && Apart(old(tasks), tasks, old(cur))
      ensures NextReady(at, n, old(cur), cur) && live == tasks[cur].value.regs
      ensures tasks == at[cur := Some(at[cur].value.(state := Running))]
      ensures Has(at, old(cur)) && at[old(cur)].value == old(tasks)[old(cur)].value.(regs := old(live), state := Ready)
    {
      hide Slotted, Counted, Parked, Wooded, Tidy, Clean, Apart, Untouched, StillParked;
      CurRuns();
      at := Schedule();
      assert IsReady(at, old(cur));
    }

    /** scheduler_start, with one program loaded: task 0 runs. */
    constructor (entry: nat, grants: seq<bool>)
      ensures Valid() && !idle && n == 1 && cur == 0 && live == FirstFrame(entry) && keys == [] && !eof
      ensures pipes == map[] && fg == 0
      ensures this.grants == grants
      ensures Has(tasks, 0)
      ensures tasks[0].value == NewTask(entry, 1, NO_PARENT, 0).(state := Running, fds := tasks[0].value.fds)
    {
      var fds := seq(MAX_FDS, k => if k == 0 then 1 else if k == 1 then 2 else 0);
      var t := NewTask(entry, 1, NO_PARENT, 0).(state := Running, fds := fds);
      tasks := seq(MAX_TASKS, i => if i == 0 then Some(t) else None);
      n, cur, idle, keys, eof, fg, trees, cr3, live := 1, 0, false, [], false, 0, {1}, 1, FirstFrame(entry);
      files := map[1 := Console(false), 2 := Console(true)];
      pipes := map[];
      this.grants := grants;
      new;
      FirstTask(tasks, t, files);
    }
  }

  /** What check_signals did. */
  datatype Delivery = Nothing | Delivered | Killed

  /** The low 32 bits of a register as a signed number. */
  function Int32(x: nat): (i: int)
    ensures -0x8000_0000 <= i < 0x8000_0000 && (i - x) % 0x1_0000_0000 == 0
  {
    var lo := x % 0x1_0000_0000;
    if lo < 0x8000_0000 then lo else lo - 0x1_0000_0000
  }

  /** A signal that may be caught, with a handler and a trampoline inside the ring-3 region. */
  predicate Catchable(sig: int, handler: nat, trampoline: nat) {
    0 < sig < MAX_SIGS && sig != SIG_KILL && (handler == 0 || RangeOk(handler, 1)) && RangeOk(trampoline, 1)
  }

  /** Task `i` is dead, with the low eight bits of `status`. */
  ghost predicate Died(T: Table, T': Table, i: nat, status: nat) {
    Has(T, i) && !IsZombie(T, i) && IsZombie(T', i) && T'[i].value.status == status % 256
  }

  /** Task `c` died with `status`: its descriptors are closed, the bytes in the pipes others hold, the console and the
      foreground are as they were, and the processor has gone to someone else or to the idle loop. */
  ghost predicate Gone(w: World, w': World, c: nat, status: nat, cur: nat, idle: bool, live: Regs) {
    && Died(w.tasks, w'.tasks, c, status) && Handover(w'.tasks, w'.n, c, cur, idle, live) && (!idle ==> cur != c)
    && Shrunk(w.pipes, w'.pipes)
    && w' == w.(tasks := w'.tasks, files := w.files - FirstFiles(w.tasks[c].value.fds, MAX_FDS), pipes := w'.pipes,
                trees := w'.trees)
  }

  /** Signal `sig` of task `c` is delivered: it is no longer pending, and the frame enters its handler. */
  ghost predicate Enters(w: World, w': World, c: nat, r: Regs, sig: nat, cur: nat, idle: bool, live: Regs) {
    && 0 < sig < MAX_SIGS && Has(w.tasks, c) && |w.tasks[c].value.handlers| == MAX_SIGS && cur == c && !idle
    && live.rip == w.tasks[c].value.handlers[sig] && live.rdi == sig
    && live.rsp == (ContextAt(r.rsp % WORD_MOD) + WORD_MOD - 8) % WORD_MOD
    && live == r.(rip := live.rip, rdi := live.rdi, rsp := live.rsp)
    && var t := w.tasks[c].value;
       var t' := t.(pending := t.pending - {sig}, active := true, ctx := ContextAt(r.rsp % WORD_MOD));
       w' == w.(tasks := w.tasks[c := Some(t')])
  }

  lemma StillDeliverable(T: Table, T': Table, c: nat)
    requires Untouched(T, T', c)
    ensures forall i :: i != c && Has(T', i) ==> Has(T, i) && (Deliverable(T'[i].value) <==> Deliverable(T[i].value))
  {
  }

  /** A signal that may be delivered is waiting. */
  ghost predicate Deliverable(t: Task) { !t.active && !IsLowest(t.pending, 0) }

  lemma AnyKeys(T: Table, F: map<nat, File>, P: map<nat, Pipe>, con: Input, con': Input)
    requires Parked(T, F, P, con) && NoWaiter(T, WaitKey)
    ensures Parked(T, F, P, con')
  {
    hide ReadersOk, WritersOk, ChildrenOk;
  }

  /** Pipes may have gone or lost ends; the bytes in the others are untouched. */
  ghost predicate Shrunk(P: map<nat, Pipe>, P': map<nat, Pipe>) {
    P'.Keys <= P.Keys && forall p :: p in P' ==> P'[p].buf == P[p].buf && P'[p].rd == P[p].rd && P'[p].wr == P[p].wr
  }

  lemma ShrunkSelf(P: map<nat, Pipe>)
    ensures Shrunk(P, P)
  {
  }

  lemma CloseShrinks(P0: map<nat, Pipe>, F: map<nat, File>, P: map<nat, Pipe>, f: nat)
    requires Shrunk(P0, P) && Closable(F, P, f)
    ensures Shrunk(P0, AfterClose(F, P, f))
  {
  }

  lemma NudgedFrame(T: Table, T': Table, i: nat)
    requires Nudged(T, T') && Has(T, i)
    ensures Has(T', i) && T'[i].value.regs == T[i].value.regs
  {
  }

  lemma FirstTask(T: Table, t: Task, F: map<nat, File>)
    requires |T| == MAX_TASKS && T[0] == Some(t) && forall i :: 1 <= i < |T| ==> T[i].None?
    requires t.state == Running && t.why == WaitNone && |t.handlers| == MAX_SIGS && t.aspace == 1
    requires |t.fds| == MAX_FDS && t.fds[0] == 1 && t.fds[1] == 2 && forall k :: 2 <= k < MAX_FDS ==> t.fds[k] == 0
    requires F == map[1 := Console(false), 2 := Console(true)]
    ensures Shaped(T, 1) && Tidy(T) && Slotted(T, F, {}) && Counted(F, map[], {})
    ensures Parked(T, F, map[], Input([], false)) && Wooded(T, {1}, {}, 1, 0)
    ensures OneRuns(T, 0, false)
  {
    forall i | Has(T, i) ensures i == 0 {}
    assert Placed(T, 1) by { assert SlotAt(T, 0, 0) == 1; }
    assert Placed(T, 2) by { assert SlotAt(T, 0, 1) == 2; }
    assert Space(T, 0) == 1;
  }

  /** The child reads from what it was given on 0 and writes to what it was given on 1, consoles by default. */
  ghost predicate Inherits(t: Task, F: map<nat, File>, F0: map<nat, File>, inSrc: nat, outSrc: nat) {
    && |t.fds| == MAX_FDS && t.fds[0] in F && t.fds[1] in F && (forall k :: 2 <= k < MAX_FDS ==> t.fds[k] == 0)
    && F[t.fds[0]] == (if inSrc != 0 && inSrc in F0 then F0[inSrc] else Console(false))
    && F[t.fds[1]] == (if outSrc != 0 && outSrc in F0 then F0[outSrc] else Console(true))
    && F.Keys == F0.Keys + {t.fds[0], t.fds[1]} && t.fds[0] !in F0 && t.fds[1] !in F0
    && forall f :: f in F0 ==> F[f] == F0[f]
  }

  /** Files `r` and `w` went into the two lowest empty slots of task `i`, and nothing else changed. */
  ghost predicate EndsPlaced(T: Table, T': Table, i: nat, rfd: nat, r: nat, wfd: nat, w: nat) {
    && Has(T, i) && LowestFree(T[i].value.fds, rfd) && LowestFree(T[i].value.fds[rfd := r], wfd)
    && T' == T[i := Some(T[i].value.(fds := T[i].value.fds[rfd := r][wfd := w]))]
  }

  /** File `f` in slot `k` of task `i`. */
  ghost function PutFd(T: Table, i: nat, k: nat, f: nat): Table
    requires Has(T, i) && k < |T[i].value.fds|
  {
    T[i := Some(T[i].value.(fds := T[i].value.fds[k := f]))]
  }

  /** The lowest empty slot. */
  ghost predicate LowestFree(fds: seq<nat>, k: nat) {
    k < |fds| && fds[k] == 0 && forall j :: 0 <= j < k ==> fds[j] != 0
  }

  ghost predicate HasFree(fds: seq<nat>) { exists k :: 0 <= k < |fds| && fds[k] == 0 }

  ghost predicate TwoFree(fds: seq<nat>) { exists j, k :: 0 <= j < k < |fds| && fds[j] == 0 && fds[k] == 0 }

  /** Two slots are free exactly when one is, and with the lowest filled another. */
  lemma TwoFreeMeans(fds: seq<nat>, k: nat, f: nat)
    requires LowestFree(fds, k) && f != 0
    ensures HasFree(fds) && (TwoFree(fds) <==> HasFree(fds[k := f]))
  {
    if TwoFree(fds) {
      var i, j :| 0 <= i < j < |fds| && fds[i] == 0 && fds[j] == 0;
      assert fds[k := f][j] == 0;
    }
    if HasFree(fds[k := f]) {
      var j :| 0 <= j < |fds[k := f]| && fds[k := f][j] == 0;
      assert fds[k] == 0 && fds[j] == 0 && k < j;
    }
  }

  lemma FreeOfTwo(fds: seq<nat>)
    ensures TwoFree(fds) ==> HasFree(fds)
  {
  }

  lemma PipeGrants(g: seq<bool>)
    ensures Granted(g, 3) <==> Granted(g, 2) && Yes(Rest(g, 2))
    ensures Rest(Rest(g, 2), 1) == Rest(g, 3)
  {
    hide Granted, Rest;
    InTurn(g, 2, 1);
    OneRequest(Rest(g, 2));
  }

  /** SYS_PIPE can be served: the pointer is good, two slots are free, and so is memory for a pipe and two ends. */
  ghost predicate MayPipe(w: World, i: nat, r: Regs) {
    RangeOk(r.rdi, 8) && Has(w.tasks, i) && TwoFree(w.tasks[i].value.fds) && Granted(w.grants, 3)
  }

  ghost function FirstFiles(fds: seq<nat>, k: nat): set<nat> { set j | 0 <= j < k && j < |fds| :: fds[j] }

  /** A descriptor argument of SYS_RUN: -1 asks for a console, anything else must be open and face the right way. */
  ghost function Source(w: World, i: nat, fd: int, writable: bool): nat {
    if fd < 0 then 0 else Opened(w, i, fd, writable)
  }

  ghost predicate Given(w: World, i: nat, fd: int, writable: bool) {
    fd == -1 || (fd >= 0 && Opened(w, i, fd, writable) != 0)
  }

  /** The memory SYS_RUN asks for: a tree, the inherited descriptors, a record and two consoles. */
  ghost function RunAsks(w: World, i: nat, inFd: int, outFd: int): nat {
    4 + Copies(Source(w, i, inFd, false), Source(w, i, outFd, true))
  }

  /** SYS_RUN can be served as far as the kernel is concerned. */
  ghost predicate MayRun(w: World, i: nat, inFd: int, outFd: int, req: nat) {
    && MayAsk(w.tasks, i, req) && Given(w, i, inFd, false) && Given(w, i, outFd, true)
    && w.n < MAX_TASKS && Granted(w.grants, RunAsks(w, i, inFd, outFd))
  }

  /** Task `id` is new: a ready child of `cur` in group `pgid`, about to enter at `entry`, on a tree nobody had. */
  ghost predicate Born(T: Table, n: nat, trees: set<nat>, id: nat, trees0: set<nat>, cur: nat, entry: nat, pgid: nat) {
    && n == id + 1 && IsReady(T, id)
    && T[id].value == NewTask(entry, T[id].value.aspace, cur, pgid).(fds := T[id].value.fds)
    && T[id].value.aspace !in trees0 && trees == trees0 + {T[id].value.aspace}
  }

  /** Every pipe is still there with the bytes it held. */
  ghost predicate RingsKept(P: map<nat, Pipe>, P': map<nat, Pipe>) {
    forall p :: p in P ==> p in P' && P'[p].buf == P[p].buf && P'[p].rd == P[p].rd && P'[p].wr == P[p].wr
  }

  lemma CopiedRings(F0: map<nat, File>, P0: map<nat, Pipe>, P1: map<nat, Pipe>, F1: map<nat, File>, inSrc: nat,
                    outSrc: nat, a: nat, b: nat)
    requires Copied(F0, P0, F1, P1, inSrc, outSrc, a, b)
    ensures RingsKept(P0, P1)
  {
    hide Counted;
  }

  lemma NewcomerApart(T: Table, T1: Table, T2: Table, T3: Table, id: nat, c: nat)
    requires Apart(T, T1, c) && id < |T1| && T1[id].None? && |T2| == |T1| && T2 == T1[id := T2[id]] && |T3| == |T2|
    requires Nudged(T2[id := T3[id]], T3)
    requires IsReady(T3, id) && Newborn(T3[id].value)
    ensures Apart(T, T3, c)
  {
    hide Apart, Untouched, Nudged;
    assert T2[id := T3[id]] == T1[id := T3[id]];
    OtherApart(T1, id, T3[id], c);
    JustNudged(T1[id := T3[id]], T3, c);
    ApartJoin(T1, T1[id := T3[id]], T3, c);
    ApartJoin(T, T1, T3, c);
  }

  lemma OtherRunner(T: Table, T': Table, cur: nat, id: nat)
    requires OneRuns(T, cur, false) && Has(T', id) && |T'| == |T| && id != cur && T'[id].value.state != Running
    requires Nudged(T[id := T'[id]], T')
    ensures OneRuns(T', cur, false)
  {
    assert Has(T', cur);
    forall i | Has(T', i) && T'[i].value.state == Running ensures i == cur {
      assert i != id ==> Has(T, i);
    }
  }

  lemma OtherRunner2(T: Table, cur: nat, id: nat, t: Task)
    requires OneRuns(T, cur, false) && Has(T, id) && id != cur && t.state != Running
    ensures OneRuns(T[id := Some(t)], cur, false)
  {
    var T' := T[id := Some(t)];
    forall i | Has(T', i) && T'[i].value.state == Running ensures i == cur {
      assert i != id ==> Has(T, i);
    }
  }

  lemma NudgedPut(T: Table, T1: Table, id: nat, o: Option<Task>)
    requires id < |T| && |T1| == |T| && Nudged(T[id := T1[id]], T1)
    ensures Nudged(T[id := o], T1[id := o])
  {
    var U, U1, V := T[id := o], T1[id := o], T[id := T1[id]];
    forall i | 0 <= i < |T|
      ensures U1[i] == U[i] || (IsBlocked(U, i) && U1[i] == Some(U[i].value.(state := Ready, why := WaitNone)))
    {
      assert T1[i] == V[i] || IsBlocked(V, i);
    }
  }

  /** The slots and files after both replacements are what the child was promised. */
  lemma Inherited(t: Task, fds: seq<nat>, F: map<nat, File>, F0: map<nat, File>, P0: map<nat, Pipe>, F1: map<nat,
                  File>, P1: map<nat, Pipe>, Fs: map<nat, File>,
                  inSrc: nat, outSrc: nat, a: nat, b: nat)
    requires Copied(F0, P0, F1, P1, inSrc, outSrc, a, b)
    requires |fds| == MAX_FDS && fds[0] !in F1 && fds[1] !in F1 && fds[0] != fds[1]
    requires Fs == F1[fds[0] := Console(false)][fds[1] := Console(true)]
    requires forall k :: 2 <= k < MAX_FDS ==> fds[k] == 0
    requires F == Fs - (if a == 0 then {} else {fds[0]}) - (if b == 0 then {} else {fds[1]})
    requires |t.fds| == MAX_FDS && t.fds[0] == (if a == 0 then fds[0] else a)
    requires t.fds[1] == (if b == 0 then fds[1] else b)
    requires forall k :: 2 <= k < MAX_FDS ==> t.fds[k] == fds[k]
    ensures Inherits(t, F, F0, inSrc, outSrc)
  {
    hide Counted;
    forall f | f in F0 ensures f in F && F[f] == F0[f] {
      assert f in F1;
    }
    assert F.Keys == F0.Keys + {t.fds[0], t.fds[1]};
  }

  /** A copy of file `src` was made: its pipe, if it has one, counts one end more. */
  ghost predicate Duplicated(F: map<nat, File>, P: map<nat, Pipe>, src: nat, P': map<nat, Pipe>) {
    src in F
    && if F[src].End?
       then F[src].pipe in P && P' == P[F[src].pipe := WithEnd(P[F[src].pipe], F[src].writable)]
       else P' == P
  }

  lemma KeptDup(F0: map<nat, File>, P0: map<nat, Pipe>, F: map<nat, File>, P: map<nat, Pipe>, src: nat, f: nat,
                P': map<nat, Pipe>)
    requires Kept(F0, P0, F, P) && f !in F && Duplicated(F, P, src, P') && Counted(F[f := F[src]], P', {})
    ensures Kept(F0, P0, F[f := F[src]], P')
  {
    hide Counted;
  }

  /** A tree, the copies, then a record and two consoles. */
  lemma SpawnGrants(g: seq<bool>, c: nat)
    ensures Granted(g, 4 + c) <==> Yes(g) && Granted(Rest(g, 1), c) && Granted(Rest(Rest(g, 1), c), 3)
    ensures Rest(Rest(Rest(g, 1), c), 3) == Rest(g, 4 + c) && Later(g, Rest(g, 1))
  {
    hide Granted, Rest;
    OneRequest(g);
    InTurn(g, 1, c);
    InTurn(g, 1 + c, 3);
    LaterBy(g, 1);
  }

  /** How many descriptors a child is to inherit. */
  function Copies(inSrc: nat, outSrc: nat): nat { (if inSrc == 0 then 0 else 1) + (if outSrc == 0 then 0 else 1) }

  function Pair(a: nat, b: nat): set<nat> { {a, b} - {0} }

  /** The files of `F` and the rings of `P` are all still there. */
  ghost predicate Kept(F: map<nat, File>, P: map<nat, Pipe>, F': map<nat, File>, P': map<nat, Pipe>) {
    && Counted(F, P, {}) && Counted(F', P', {})
    && (forall f :: f in F ==> f in F' && F'[f] == F[f])
    && (forall p :: p in P ==> p in P' && P'[p].buf == P[p].buf && P'[p].rd == P[p].rd && P'[p].wr == P[p].wr)
  }

  lemma EndsNamed(F: map<nat, File>, P: map<nat, Pipe>, p: nat)
    requires Counted(F, P, {}) && p in P
    ensures exists f :: f in F && F[f].End? && F[f].pipe == p
  {
    if P[p].readers > 0 {
      var f :| f in Ends(F, p, false);
    } else {
      var f :| f in Ends(F, p, true);
    }
  }

  lemma KeptSelf(F: map<nat, File>, P: map<nat, Pipe>)
    requires Counted(F, P, {})
    ensures Kept(F, P, F, P)
  {
  }

  lemma KeptFiles(F0: map<nat, File>, P0: map<nat, Pipe>, F: map<nat, File>, P: map<nat, Pipe>)
    requires Kept(F0, P0, F, P) && F.Keys == F0.Keys
    ensures F == F0
  {
  }

  lemma KeptClose(F0: map<nat, File>, P0: map<nat, Pipe>, F: map<nat, File>, P: map<nat, Pipe>, f: nat)
    requires Kept(F0, P0, F, P) && f in F && f !in F0 && Closable(F, P, f)
    requires Counted(F - {f}, AfterClose(F, P, f), {})
    ensures Kept(F0, P0, F - {f}, AfterClose(F, P, f))
  {
    hide Counted;
    forall p | p in P0
      ensures p in AfterClose(F, P, f) && AfterClose(F, P, f)[p].buf == P0[p].buf
      ensures AfterClose(F, P, f)[p].rd == P0[p].rd && AfterClose(F, P, f)[p].wr == P0[p].wr
    {
      EndsNamed(F0, P0, p);
      var g :| g in F0 && F0[g].End? && F0[g].pipe == p;
      StillNamed(F, P, f, g);
    }
  }

  /** What the two duplications leave. */
  ghost predicate Copied(F0: map<nat, File>, P0: map<nat, Pipe>, F: map<nat, File>, P: map<nat, Pipe>, inSrc: nat,
                         outSrc: nat, a: nat, b: nat) {
    && Kept(F0, P0, F, P) && (a == 0 <==> inSrc == 0) && (b == 0 <==> outSrc == 0)
    && (a != 0 ==> a !in F0 && inSrc in F0 && a in F && F[a] == F0[inSrc])
    && (b != 0 ==> b !in F0 && outSrc in F0 && b in F && F[b] == F0[outSrc] && a != b)
    && F.Keys == F0.Keys + Pair(a, b)
  }

  /** The frame a program is started with. */
  function FirstFrame(entry: nat): Regs {
    Regs(0, 0, 0, 0, 0, 0, 0, 0, 0, 0, 0, 0, 0, 0, 0, 0, 0, entry, USER_CS, USER_RFLAGS, STACK_TOP, USER_SS)
  }

  /** A new program starts in ring 3 with interrupts on. */
  lemma StartsInRing3(entry: nat)
    requires entry < WORD_MOD
    ensures Ring3(FirstFrame(entry))
    ensures var f := FirstFrame(entry);
            && f.cs % 4 == 3 && f.ss % 4 == 3 && f.rflags / 512 % 2 == 1 && f.rip == entry && f.rsp == 0x80_0000
            && f.rdi == f.rsi == f.rbp == f.rbx == f.rdx == f.rcx == f.rax == f.r8 == f.r9 == f.r10 == 0
            && f.r11 == f.r12 == f.r13 == f.r14 == f.r15 == 0
  {
  }

  /** The group a new task goes into. */
  function GroupOf(req: nat, parents: nat, id: nat): nat {
    if req == PGID_NEW then id else if req == PGID_INHERIT then parents else req
  }

  ghost predicate MayUse(T: Table, i: nat, pgid: nat) {
    Has(T, i) && (T[i].value.pgid == pgid || exists c :: ChildOf(T, c, i) && !IsZombie(T, c) && T[c].value.pgid == pgid)
  }

  ghost predicate MayAsk(T: Table, i: nat, req: nat) { req == PGID_INHERIT || req == PGID_NEW || MayUse(T, i, req) }

  /** A freshly forged task: not yet any descriptors. */
  function NewTask(entry: nat, h: nat, parent: nat, pgid: nat): (t: Task)
    ensures NoFds(t)
  {
    Task(FirstFrame(entry), h, Ready, WaitNone, parent, 0, pgid, {}, seq(MAX_SIGS, i => 0), 0, false, false, 0,
         seq(MAX_FDS, i => 0))
  }

  /** A program about to start: its frame, its parent, nothing pending, no handler and no status. */
  ghost predicate Poised(t: Task, entry: nat, parent: nat) {
    && t.state == Ready && t.why == WaitNone && t.parent == parent && t.status == 0
    && t.pending == {} && !t.active && !t.interrupted && (forall k :: 0 <= k < |t.handlers| ==> t.handlers[k] == 0)
    && t.regs.rip == entry && t.regs.rsp == 0x80_0000 && t.regs.cs % 4 == 3 && t.regs.rflags / 512 % 2 == 1
  }

  lemma BornPoised(T: Table, n: nat, trees: set<nat>, id: nat, trees0: set<nat>, cur: nat, entry: nat, req: nat,
                   own: nat)
    requires Born(T, n, trees, id, trees0, cur, entry, GroupOf(req, own, id))
    ensures Has(T, id) && Poised(T[id].value, entry, cur)
    ensures T[id].value.pgid == if req == 0xFFFF_FFFF then id else if req == 0 then own else req
  {
  }

  /** A console to read on 0, a console to write on 1, and nothing else. */
  ghost predicate Standard(t: Task, F: map<nat, File>, F': map<nat, File>) {
    && |t.fds| == MAX_FDS && t.fds[0] !in F && t.fds[1] !in F && t.fds[0] != t.fds[1] && t.fds[0] != 0 && t.fds[1] != 0
    && F' == F[t.fds[0] := Console(false)][t.fds[1] := Console(true)]
    && forall k :: 2 <= k < MAX_FDS ==> t.fds[k] == 0
  }

  /** A task a signal was raised on. */
  ghost function Struck(t: Task, sig: nat): Task {
    var u := t.(pending := t.pending + {sig});
    if t.state == Blocked then u.(state := Ready, why := WaitNone, interrupted := true) else u
  }

  lemma StruckRuns(T: Table, id: nat, t: Task, cur: nat, idle: bool)
    requires OneRuns(T, cur, idle) && Has(T, id)
    requires (t.state == T[id].value.state || (T[id].value.state == Blocked && t.state == Ready))
    ensures OneRuns(T[id := Some(t)], cur, idle)
  {
    var T' := T[id := Some(t)];
    forall i | Has(T', i) && T'[i].value.state == Running ensures i == cur && !idle {
      assert Has(T, i);
    }
  }

  /** The first dead child of `p`. */
  ghost predicate FirstDead(T: Table, z: int, p: nat) {
    ChildOf(T, z, p) && IsZombie(T, z) && forall c :: 0 <= c < z && ChildOf(T, c, p) ==> !IsZombie(T, c)
  }

  lemma OnlyFirst(T: Table, z: int, p: nat)
    requires FirstDead(T, z, p)
    ensures forall x :: FirstDead(T, x, p) ==> x == z
    ensures exists c :: ChildOf(T, c, p)
  {
  }

  lemma BuriedRuns(T: Table, z: nat, cur: nat)
    requires OneRuns(T, cur, false) && IsZombie(T, z)
    ensures OneRuns(T[z := None], cur, false)
  {
    var T' := T[z := None];
    forall i | Has(T', i) && T'[i].value.state == Running ensures i == cur {
      assert Has(T, i);
    }
  }

  lemma DeadOne(T: Table, i: nat, status: nat)
    requires Has(T, i)
    ensures Has(AfterDeath(T, i, status), i)
    ensures AfterDeath(T, i, status)[i].value == T[i].value.(status := status, state := Zombie, why := WaitNone)
  {
  }

  lemma DeathRuns(T: Table, cur: nat, status: nat)
    requires OnlyRuns(T, cur) && Has(T, cur)
    ensures OnlyRuns(AfterDeath(T, cur, status), cur) && IsZombie(AfterDeath(T, cur, status), cur)
  {
    var T' := AfterDeath(T, cur, status);
    forall i | Has(T', i) && T'[i].value.state == Running ensures i == cur {
      assert Has(T, i);
    }
  }

  ghost predicate PipeMade(F: map<nat, File>, F': map<nat, File>, P: map<nat, Pipe>, P': map<nat, Pipe>, r: nat,
                           w: nat) {
    exists p :: p !in P && r !in F && w !in F && r != w && F' == F[r := End(p, false)][w := End(p, true)]
                && P' == P[p := Fresh().(readers := 1, writers := 1)]
  }

  lemma PipeIsMade(F: map<nat, File>, P: map<nat, Pipe>, p: nat, r: nat, w: nat)
    requires p !in P && r !in F && w !in F && r != w
    ensures PipeMade(F, F[r := End(p, false)][w := End(p, true)], P,
                     P[p := Fresh().(readers := 1)][p := WithEnd(Fresh().(readers := 1), true)], r, w)
  {
    assert P[p := Fresh().(readers := 1)][p := WithEnd(Fresh().(readers := 1), true)]
        == P[p := Fresh().(readers := 1, writers := 1)];
  }

  /** The current task still runs and nobody else started to. */
  lemma SameRunner(T: Table, T': Table, cur: nat)
    requires OneRuns(T, cur, false) && Has(T', cur) && |T'| == |T| && T'[cur].value.state == Running
    requires Nudged(T[cur := T'[cur]], T')
    ensures OneRuns(T', cur, false)
  {
    forall i | Has(T', i) && T'[i].value.state == Running ensures i == cur {
      assert i != cur ==> Has(T, i);
    }
  }

  /** The end being closed is one its pipe counts. */
  ghost predicate Closable(F: map<nat, File>, P: map<nat, Pipe>, f: nat) {
    f in F
    && (F[f].End? ==> F[f].pipe in P && if F[f].writable then P[F[f].pipe].writers > 0 else P[F[f].pipe].readers > 0)
  }

  lemma StillRuns(T: Table, cur: nat, t: Task)
    requires OneRuns(T, cur, false) && t.state == Running
    ensures OneRuns(T[cur := Some(t)], cur, false)
  {
    var T' := T[cur := Some(t)];
    forall i | Has(T', i) && T'[i].value.state == Running ensures i == cur {
      assert Has(T, i);
    }
  }

  lemma ParkAlone(T: Table, cur: nat, t: Task)
    requires OnlyRuns(T, cur) && Has(T, cur)
    ensures OnlyRuns(T[cur := Some(t)], cur)
  {
    var T' := T[cur := Some(t)];
    forall i | Has(T', i) && T'[i].value.state == Running ensures i == cur {
      assert i != cur ==> Has(T, i);
    }
  }

  lemma ParkJoin(T0: Table, T: Table, T': Table, c: nat)
    requires Has(T0, c) && T0[c].value.state != Blocked && |T| == |T0|
    requires (forall i :: 0 <= i < |T| && i != c ==> T[i] == T0[i])
    requires IsBlocked(T, c) && StillParked(T, T')
    ensures StillParked(T0, T') && Has(T', c) && T'[c] == T[c]
  {
    forall i | IsBlocked(T0, i) ensures Has(T', i) && T'[i] == T0[i] {
      assert IsBlocked(T, i);
    }
  }

  /** Descriptors changed in number only by being cleared keep the table tidy. */
  lemma FdsShape(T: Table, n: nat, i: nat, fds: seq<nat>)
    requires Shaped(T, n) && Tidy(T) && Has(T, i) && |fds| == MAX_FDS
    requires T[i].value.state == Zombie ==> forall k :: 0 <= k < |fds| ==> fds[k] == 0
    ensures Shaped(T[i := Some(T[i].value.(fds := fds))], n) && Tidy(T[i := Some(T[i].value.(fds := fds))])
  {
    var T' := T[i := Some(T[i].value.(fds := fds))];
    forall j ensures Has(T', j) <==> Has(T, j) {}
  }
}
