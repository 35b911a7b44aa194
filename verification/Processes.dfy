/** kernel/scheduler.c, kernel/file.c: the task table, the descriptors and pipes it holds, and what must always be
    true of them. */
module Processes {
  import opened Bytes
  import opened Signals
  import opened Pipes

  const MAX_TASKS := 64
  const MAX_FDS := 8
  const NO_PARENT := 0xFFFF_FFFF
  const SYS_EXIT := 0
  const SYS_WRITE := 1
  const SYS_READKEY := 2
  const SYS_RUN := 4
  const SYS_WAIT := 6
  const SYS_READ := 11
  const SYS_CLOSE := 12
  const SYS_PIPE := 13
  const SYS_SIGNAL := 14
  const SYS_KILL := 15
  const SYS_SIGRETURN := 16
  const SYS_SETFG := 17
  const SIG_INT := 2
  const SIG_PIPE := 13

  datatype State = Ready | Running | Blocked | Zombie

  datatype Why = WaitNone | WaitKey | WaitChild | WaitPipeRead | WaitPipeWrite

  /** file_t */
  datatype File = Console(writable: bool) | End(pipe: nat, writable: bool)

  /** task_t: the saved frame, the page-table tree (0 once destroyed), and the bookkeeping. A descriptor slot holds
      the address of a file_t, 0 when empty. */
  datatype Task = Task(regs: Regs, aspace: nat, state: State, why: Why, parent: nat, status: nat, pgid: nat,
                       pending: set<nat>, handlers: seq<nat>, trampoline: nat, active: bool, interrupted: bool,
                       ctx: nat, fds: seq<nat>)

  type Table = seq<Option<Task>>

  ghost predicate Has(T: Table, i: int) { 0 <= i < |T| && T[i].Some? }

  ghost predicate Waits(T: Table, i: int, y: Why) { Has(T, i) && T[i].value.why == y }

  ghost predicate IsZombie(T: Table, i: int) { Has(T, i) && T[i].value.state == Zombie }

  ghost predicate ChildOf(T: Table, i: int, p: int) { Has(T, i) && T[i].value.parent == p }

  /** The table holds tasks below its high-water mark only. */
  ghost predicate Shaped(T: Table, n: nat) {
    && |T| == MAX_TASKS && n <= MAX_TASKS
    && (forall i :: n <= i < |T| ==> T[i].None?)
    && (forall i :: Has(T, i) ==> |T[i].value.fds| == MAX_FDS && |T[i].value.handlers| == MAX_SIGS)
  }

  /** A task is blocked exactly when it waits for something, and a dead one holds no descriptor. */
  ghost predicate Tidy(T: Table) {
    forall i :: Has(T, i) ==>
                  && (T[i].value.state == Blocked <==> T[i].value.why != WaitNone)
                  && (T[i].value.state == Zombie ==> forall k :: 0 <= k < |T[i].value.fds| ==> T[i].value.fds[k] == 0)
  }

  /** Outside the idle loop exactly one task runs, the current one; inside it, none does. */
  ghost predicate OneRuns(T: Table, cur: nat, idle: bool) {
    && Has(T, cur) && (!idle ==> T[cur].value.state == Running)
    && forall i :: Has(T, i) && T[i].value.state == Running ==> i == cur && !idle
  }

  // ---------------------------------------------------------------------------
  // Descriptors
  // ---------------------------------------------------------------------------

  ghost function SlotAt(T: Table, i: int, k: int): nat {
    if Has(T, i) && 0 <= k < |T[i].value.fds| then T[i].value.fds[k] else 0
  }

  ghost predicate Placed(T: Table, f: nat) { exists i, k :: SlotAt(T, i, k) == f }

  /** Every descriptor slot names a file of its own, and every file but the loose ones sits in a slot. */
  ghost predicate Slotted(T: Table, F: map<nat, File>, loose: set<nat>) {
    && 0 !in F && loose <= F.Keys
    && (forall i, k :: SlotAt(T, i, k) != 0 ==> SlotAt(T, i, k) in F && SlotAt(T, i, k) !in loose)
    && (forall i, k, j, l :: SlotAt(T, i, k) != 0 && SlotAt(T, i, k) == SlotAt(T, j, l) ==> i == j && k == l)
    && (forall f :: f in F && f !in loose ==> Placed(T, f))
  }

  ghost function Ends(F: map<nat, File>, p: nat, w: bool): set<nat> {
    set f | f in F && F[f] == End(p, w)
  }

  /** A pipe's counts are the numbers of its open ends; only a bare pipe, one just made, has none. */
  ghost predicate Counted(F: map<nat, File>, P: map<nat, Pipe>, bare: set<nat>) {
    && (forall p :: p in P ==>
          P[p].Valid() && P[p].readers == |Ends(F, p, false)| && P[p].writers == |Ends(F, p, true)|)
    && (forall p :: p in P && p !in bare ==> P[p].readers + P[p].writers > 0)
    && (forall f :: f in F && F[f].End? ==> F[f].pipe in P)
  }

  /** The slots, across all tasks, that hold a file of `S`. */
  ghost function SlotsOf(T: Table, S: set<nat>): set<(int, int)> {
    set i, k | 0 <= i < |T| && 0 <= k < MAX_FDS && SlotAt(T, i, k) in S :: (i, k)
  }

  /** Files that each sit in one slot take up one slot each. */
  lemma {:induction false} OneSlotEach(T: Table, F: map<nat, File>, S: set<nat>)
    requires Slotted(T, F, {}) && S <= F.Keys && forall i :: Has(T, i) ==> |T[i].value.fds| == MAX_FDS
    ensures |SlotsOf(T, S)| == |S|
    decreases |S|
  {
    if S == {} {
      assert SlotsOf(T, S) == {};
    } else {
      var f :| f in S;
      assert Placed(T, f);
      var i, k :| SlotAt(T, i, k) == f;
      OneSlotEach(T, F, S - {f});
      assert (i, k) !in SlotsOf(T, S - {f});
      assert SlotsOf(T, S) == SlotsOf(T, S - {f}) + {(i, k)};
    }
  }

  /** In every state between kernel entries a pipe counts exactly the read and write ends in the tasks' descriptor
      tables, and it exists exactly as long as some table holds one. */
  lemma CountsAreSlots(T: Table, n: nat, F: map<nat, File>, P: map<nat, Pipe>, p: nat)
    requires Shaped(T, n) && Slotted(T, F, {}) && Counted(F, P, {})
    ensures p in P ==> P[p].readers == |SlotsOf(T, Ends(F, p, false))| && P[p].writers == |SlotsOf(T, Ends(F, p, true))|
    ensures p in P <==> SlotsOf(T, Ends(F, p, false)) + SlotsOf(T, Ends(F, p, true)) != {}
  {
    hide Slotted;
    var R, W := Ends(F, p, false), Ends(F, p, true);
    OneSlotEach(T, F, R);
    OneSlotEach(T, F, W);
    if SlotsOf(T, R) + SlotsOf(T, W) != {} {
      var s :| s in SlotsOf(T, R) + SlotsOf(T, W);
      assert SlotAt(T, s.0, s.1) in R + W;
    }
  }

  // ---------------------------------------------------------------------------
  // Waiting
  // ---------------------------------------------------------------------------

  /** The file the parked call names: the descriptor number is still in the saved frame. */
  ghost predicate Names(t: Task, F: map<nat, File>, e: File) {
    t.regs.rdi < |t.fds| && t.fds[t.regs.rdi] in F && F[t.fds[t.regs.rdi]] == e
  }

  /** A parked reader re-issues a read of an empty pipe that a writer may still fill. */
  ghost predicate ReaderOk(t: Task, F: map<nat, File>, P: map<nat, Pipe>) {
    t.regs.rax == SYS_READ
    && exists p :: Names(t, F, End(p, false)) && p in P && P[p].Valid() && P[p].Used() == 0 && P[p].writers > 0
  }

  /** A parked writer re-issues a write to a full pipe that a reader may still drain. */
  ghost predicate WriterOk(t: Task, F: map<nat, File>, P: map<nat, Pipe>) {
    t.regs.rax == SYS_WRITE
    && exists p :: && Names(t, F, End(p, true)) && p in P && P[p].Valid()
                   && P[p].Used() == PIPE_SIZE - 1 && P[p].readers > 0
  }

  /** What a program can find at the console: the characters typed, and whether Ctrl-D was. */
  datatype Input = Input(keys: seq<Byte>, eof: bool)

  /** A call that waits for a key has none to take; a read of the console has no end of input to report either. */
  ghost predicate KeyWait(rax: nat, con: Input) {
    con.keys == [] && (rax == SYS_READKEY || (rax == SYS_READ && !con.eof))
  }

  ghost predicate KeysOk(T: Table, con: Input) {
    forall i :: Waits(T, i, WaitKey) ==> KeyWait(T[i].value.regs.rax, con)
  }

  /** A task parked on its children has one, and none of them is dead. */
  ghost predicate ChildrenOk(T: Table) {
    forall i :: Waits(T, i, WaitChild) ==> T[i].value.regs.rax == SYS_WAIT && (exists c :: ChildOf(T, c, i))
                                           && forall c :: ChildOf(T, c, i) ==> !IsZombie(T, c)
  }

  ghost predicate ReadersOk(T: Table, F: map<nat, File>, P: map<nat, Pipe>) {
    forall i :: Waits(T, i, WaitPipeRead) ==> ReaderOk(T[i].value, F, P)
  }

  ghost predicate WritersOk(T: Table, F: map<nat, File>, P: map<nat, Pipe>) {
    forall i :: Waits(T, i, WaitPipeWrite) ==> WriterOk(T[i].value, F, P)
  }

  /** No wake-up was lost: whoever is parked still has what it waits for ahead of it. */
  ghost predicate Parked(T: Table, F: map<nat, File>, P: map<nat, Pipe>, con: Input) {
    KeysOk(T, con) && ChildrenOk(T) && ReadersOk(T, F, P) && WritersOk(T, F, P)
  }

  // ---------------------------------------------------------------------------
  // Address spaces
  // ---------------------------------------------------------------------------

  ghost function Space(T: Table, i: int): nat { if Has(T, i) then T[i].value.aspace else 0 }

  /** Every live tree belongs to one task, a task that is not dead has one, and CR3 holds the current task's. */
  ghost predicate Wooded(T: Table, trees: set<nat>, loose: set<nat>, cr3: nat, cur: nat) {
    && 0 !in trees && loose <= trees
    && (forall i :: Space(T, i) != 0 ==> Space(T, i) in trees && Space(T, i) !in loose)
    && (forall i, j :: Space(T, i) != 0 && Space(T, i) == Space(T, j) ==> i == j)
    && (forall h :: h in trees && h !in loose ==> exists i :: Space(T, i) == h)
    && (forall i :: Has(T, i) && T[i].value.state != Zombie ==> T[i].value.aspace != 0)
    && Has(T, cur) && cr3 != 0 && cr3 == Space(T, cur)
  }

  // ---------------------------------------------------------------------------
  // Changes that disturb no one
  // ---------------------------------------------------------------------------

  /** A task keeps what others can see of it, and stays parked only where and as it was. */
  ghost predicate QuietTask(t: Task, t': Task) {
    && t'.fds == t.fds && t'.parent == t.parent && |t'.handlers| == |t.handlers|
    && (t'.state == Zombie <==> t.state == Zombie)
    && (t'.why == WaitNone || (t'.why == t.why && t'.regs == t.regs))
  }

  ghost predicate Quiet(T: Table, T': Table) {
    && |T'| == |T|
    && (forall i :: Has(T', i) <==> Has(T, i))
    && (forall i :: Has(T, i) ==> QuietTask(T[i].value, T'[i].value))
  }

  lemma QuietShape(T: Table, T': Table, n: nat)
    requires Quiet(T, T') && Shaped(T, n)
    ensures Shaped(T', n)
  {
    forall i | n <= i < |T'| ensures T'[i].None? {
      assert !Has(T, i);
      assert !Has(T', i);
    }
    forall i | Has(T', i) ensures |T'[i].value.fds| == MAX_FDS && |T'[i].value.handlers| == MAX_SIGS {
      assert Has(T, i);
    }
  }

  lemma QuietSlots(T: Table, T': Table, F: map<nat, File>, loose: set<nat>)
    requires Quiet(T, T') && Slotted(T, F, loose)
    ensures Slotted(T', F, loose)
  {
    forall i, k ensures SlotAt(T', i, k) == SlotAt(T, i, k) {
      assert Has(T', i) <==> Has(T, i);
    }
    forall f | f in F && f !in loose ensures Placed(T', f) {
      var i, k :| SlotAt(T, i, k) == f;
      assert SlotAt(T', i, k) == f;
    }
  }

  lemma QuietParked(T: Table, T': Table, F: map<nat, File>, P: map<nat, Pipe>, con: Input)
    requires Quiet(T, T') && Parked(T, F, P, con)
    ensures Parked(T', F, P, con)
  {
    hide ReaderOk, WriterOk;
    forall i, y: Why | y != WaitNone && Waits(T', i, y)
      ensures Waits(T, i, y) && T'[i].value.regs == T[i].value.regs && T'[i].value.fds == T[i].value.fds
    {
      assert Has(T, i);
    }
    forall i | Waits(T', i, WaitPipeRead) ensures ReaderOk(T'[i].value, F, P) {
      SameReader(T[i].value, T'[i].value, F, P);
    }
    forall i | Waits(T', i, WaitPipeWrite) ensures WriterOk(T'[i].value, F, P) {
      SameReader(T[i].value, T'[i].value, F, P);
    }
    QuietChildren(T, T');
  }

  lemma SameReader(t: Task, t': Task, F: map<nat, File>, P: map<nat, Pipe>)
    requires t'.regs == t.regs && t'.fds == t.fds
    ensures ReaderOk(t, F, P) ==> ReaderOk(t', F, P)
    ensures WriterOk(t, F, P) ==> WriterOk(t', F, P)
  {
    if ReaderOk(t, F, P) {
      var p :| Names(t, F, End(p, false)) && p in P && P[p].Valid() && P[p].Used() == 0 && P[p].writers > 0;
      assert Names(t', F, End(p, false));
    }
    if WriterOk(t, F, P) {
      var p :| Names(t, F, End(p, true)) && p in P && P[p].Valid() && P[p].Used() == PIPE_SIZE - 1 && P[p].readers > 0;
      assert Names(t', F, End(p, true));
    }
  }

  lemma QuietChildren(T: Table, T': Table)
    requires Quiet(T, T') && ChildrenOk(T)
    ensures ChildrenOk(T')
  {
    forall c, i ensures ChildOf(T', c, i) <==> ChildOf(T, c, i) {
      assert Has(T', c) <==> Has(T, c);
    }
    forall c ensures IsZombie(T', c) <==> IsZombie(T, c) {
      assert Has(T', c) <==> Has(T, c);
    }
    forall i | Waits(T', i, WaitChild)
      ensures T'[i].value.regs.rax == SYS_WAIT && (exists c :: ChildOf(T', c, i))
      ensures forall c :: ChildOf(T', c, i) ==> !IsZombie(T', c)
    {
      assert Has(T, i) && Waits(T, i, WaitChild);
      var c :| ChildOf(T, c, i);
      assert ChildOf(T', c, i);
    }
  }

  lemma QuietWooded(T: Table, T': Table, trees: set<nat>, loose: set<nat>, cr3: nat, cur: nat)
    requires Quiet(T, T') && Wooded(T, trees, loose, cr3, cur) && forall i :: Space(T', i) == Space(T, i)
    ensures Wooded(T', trees, loose, cr3, cur)
  {
    forall h | h in trees && h !in loose ensures exists i :: Space(T', i) == h {
      var i :| Space(T, i) == h;
      assert Space(T', i) == h;
    }
    forall i | Has(T', i) && T'[i].value.state != Zombie ensures T'[i].value.aspace != 0 {
      assert Has(T, i) && Space(T', i) == Space(T, i);
    }
  }

  lemma QuietOne(T: Table, i: nat, t: Task)
    requires Has(T, i) && QuietTask(T[i].value, t)
    ensures Quiet(T, T[i := Some(t)])
  {
    forall j | Has(T, j) ensures QuietTask(T[j].value, T[i := Some(t)][j].value) {}
  }

  // ---------------------------------------------------------------------------
  // Waking and parking
  // ---------------------------------------------------------------------------

  function WakeOne(o: Option<Task>, y: Why): Option<Task> {
    if o.Some? && o.value.state == Blocked && o.value.why == y
    then Some(o.value.(state := Ready, why := WaitNone))
    else o
  }

  /** scheduler_wake: everyone parked on `y`, and nobody else, is ready. */
  ghost predicate Woke(T: Table, T': Table, y: Why) {
    |T'| == |T| && forall i :: 0 <= i < |T| ==> T'[i] == WakeOne(T[i], y)
  }

  ghost predicate NoWaiter(T: Table, y: Why) { forall i :: !Waits(T, i, y) }

  lemma WokeQuiet(T: Table, T': Table, y: Why)
    requires Woke(T, T', y) && Tidy(T) && y != WaitNone
    ensures Quiet(T, T') && NoWaiter(T', y) && Tidy(T')
  {
    forall i ensures Has(T', i) <==> Has(T, i) {}
    forall i | Has(T, i) ensures QuietTask(T[i].value, T'[i].value) {}
    forall i ensures !Waits(T', i, y) {
      assert Has(T', i) ==> Has(T, i);
    }
    forall i | Has(T', i) ensures Has(T, i) && (T'[i].value.state == Blocked <==> T'[i].value.why != WaitNone) {}
  }

  /** The current task parks itself, with its reason true of it now. */
  lemma ParkedBlock(T: Table, F: map<nat, File>, P: map<nat, Pipe>, con: Input, i: nat, t: Task)
    requires Parked(T, F, P, con) && Has(T, i) && T[i].value.state != Zombie && t.state == Blocked
    requires t.parent == T[i].value.parent && t.fds == T[i].value.fds
    requires t.why == WaitKey ==> KeyWait(t.regs.rax, con)
    requires t.why == WaitChild ==>
              t.regs.rax == SYS_WAIT && (exists c :: ChildOf(T, c, i))
              && forall c :: ChildOf(T, c, i) ==> !IsZombie(T, c)
    requires t.why == WaitPipeRead ==> ReaderOk(t, F, P)
    requires t.why == WaitPipeWrite ==> WriterOk(t, F, P)
    ensures Parked(T[i := Some(t)], F, P, con)
  {
    hide ReaderOk, WriterOk;
    var T' := T[i := Some(t)];
    forall j, y: Why | j != i ensures Waits(T', j, y) <==> Waits(T, j, y) {}
    forall c, p ensures ChildOf(T', c, p) <==> ChildOf(T, c, p) {}
    forall c ensures IsZombie(T', c) <==> IsZombie(T, c) {}
    forall j | Waits(T', j, WaitChild)
      ensures T'[j].value.regs.rax == SYS_WAIT && (exists c :: ChildOf(T', c, j))
      ensures forall c :: ChildOf(T', c, j) ==> !IsZombie(T', c)
    {
      assert j != i ==> Waits(T, j, WaitChild);
      var c :| ChildOf(T, c, j);
      assert ChildOf(T', c, j);
    }
  }

  // ---------------------------------------------------------------------------
  // Pipe contents
  // ---------------------------------------------------------------------------

  /** A pipe's bytes change; whoever it was not empty for cannot have been waiting to read it. */
  lemma ReadersElsewhere(T: Table, F: map<nat, File>, P: map<nat, Pipe>, p: nat, q: Pipe)
    requires ReadersOk(T, F, P) && p in P && P[p].Valid() && P[p].Used() > 0
    ensures ReadersOk(T, F, P[p := q])
  {
    hide Pipe.Used;
    forall i | Waits(T, i, WaitPipeRead) ensures ReaderOk(T[i].value, F, P[p := q]) {
      var x :| Names(T[i].value, F, End(x, false)) && x in P && P[x].Valid() && P[x].Used() == 0 && P[x].writers > 0;
      assert x != p;
    }
  }

  lemma WritersElsewhere(T: Table, F: map<nat, File>, P: map<nat, Pipe>, p: nat, q: Pipe)
    requires WritersOk(T, F, P) && p in P && P[p].Valid() && P[p].Used() < PIPE_SIZE - 1
    ensures WritersOk(T, F, P[p := q])
  {
    hide Pipe.Used;
    forall i | Waits(T, i, WaitPipeWrite) ensures WriterOk(T[i].value, F, P[p := q]) {
      var x :| Names(T[i].value, F, End(x, true)) && x in P && P[x].Valid()
               && P[x].Used() == PIPE_SIZE - 1 && P[x].readers > 0;
      assert x != p;
    }
  }

  lemma CountedSame(F: map<nat, File>, P: map<nat, Pipe>, bare: set<nat>, p: nat, q: Pipe)
    requires Counted(F, P, bare) && p in P && q.Valid() && q.readers == P[p].readers && q.writers == P[p].writers
    ensures Counted(F, P[p := q], bare)
  {
  }

  // ---------------------------------------------------------------------------
  // Opening and closing ends
  // ---------------------------------------------------------------------------

  /** The pipe with one end more. */
  function WithEnd(q: Pipe, w: bool): Pipe { if w then q.(writers := q.writers + 1) else q.(readers := q.readers + 1) }

  function WithoutEnd(q: Pipe, w: bool): Pipe
    requires if w then q.writers > 0 else q.readers > 0
  {
    if w then q.(writers := q.writers - 1) else q.(readers := q.readers - 1)
  }

  lemma EndsMore(F: map<nat, File>, f: nat, e: File, p: nat, w: bool)
    requires f !in F
    ensures |Ends(F[f := e], p, w)| == |Ends(F, p, w)| + if e == End(p, w) then 1 else 0
  {
    if e == End(p, w) {
      assert Ends(F[f := e], p, w) == Ends(F, p, w) + {f};
    } else {
      assert Ends(F[f := e], p, w) == Ends(F, p, w);
    }
  }

  lemma EndsLess(F: map<nat, File>, f: nat, p: nat, w: bool)
    requires f in F
    ensures |Ends(F - {f}, p, w)| == |Ends(F, p, w)| - if F[f] == End(p, w) then 1 else 0
  {
    assert Ends(F - {f}, p, w) == Ends(F, p, w) - {f};
  }

  lemma OpenCounted(F: map<nat, File>, P: map<nat, Pipe>, bare: set<nat>, f: nat, p: nat, w: bool)
    requires Counted(F, P, bare) && f !in F && p in P
    ensures Counted(F[f := End(p, w)], P[p := WithEnd(P[p], w)], bare - {p})
  {
    hide Pipe.Used, Ends;
    var F', P' := F[f := End(p, w)], P[p := WithEnd(P[p], w)];
    forall x | x in P'
      ensures P'[x].Valid() && P'[x].readers == |Ends(F', x, false)| && P'[x].writers == |Ends(F', x, true)|
    {
      EndsMore(F, f, End(p, w), x, false);
      EndsMore(F, f, End(p, w), x, true);
    }
  }

  lemma ConsoleCounted(F: map<nat, File>, P: map<nat, Pipe>, bare: set<nat>, f: nat, w: bool)
    requires Counted(F, P, bare) && f !in F
    ensures Counted(F[f := Console(w)], P, bare)
  {
    hide Pipe.Used, Ends;
    forall x | x in P
      ensures |Ends(F[f := Console(w)], x, false)| == |Ends(F, x, false)|
      ensures |Ends(F[f := Console(w)], x, true)| == |Ends(F, x, true)|
    {
      EndsMore(F, f, Console(w), x, false);
      EndsMore(F, f, Console(w), x, true);
    }
  }

  /** The pipes after end `f` is closed: the count goes down, and a pipe with no end left is gone. */
  ghost function AfterClose(F: map<nat, File>, P: map<nat, Pipe>, f: nat): map<nat, Pipe>
    requires f in F
    requires F[f].End? ==>
               F[f].pipe in P && if F[f].writable then P[F[f].pipe].writers > 0 else P[F[f].pipe].readers > 0
  {
    if F[f].Console? then P
    else
      var q := WithoutEnd(P[F[f].pipe], F[f].writable);
      if q.readers == 0 && q.writers == 0 then P - {F[f].pipe} else P[F[f].pipe := q]
  }

  lemma EndCounted(F: map<nat, File>, P: map<nat, Pipe>, bare: set<nat>, f: nat)
    requires Counted(F, P, bare) && f in F && F[f].End?
    ensures F[f].pipe in P && if F[f].writable then P[F[f].pipe].writers > 0 else P[F[f].pipe].readers > 0
  {
    var p, w := F[f].pipe, F[f].writable;
    assert f in Ends(F, p, w);
  }

  lemma CloseCounted(F: map<nat, File>, P: map<nat, Pipe>, f: nat)
    requires Counted(F, P, {}) && f in F
    ensures F[f].End? ==> F[f].pipe in P && if F[f].writable then P[F[f].pipe].writers > 0 else P[F[f].pipe].readers > 0
    ensures Counted(F - {f}, AfterClose(F, P, f), {})
  {
    hide Pipe.Used, Ends;
    if F[f].End? {
      EndCounted(F, P, {}, f);
    }
    var F', P' := F - {f}, AfterClose(F, P, f);
    forall x | x in P'
      ensures P'[x].Valid() && P'[x].readers == |Ends(F', x, false)| && P'[x].writers == |Ends(F', x, true)|
    {
      EndsLess(F, f, x, false);
      EndsLess(F, f, x, true);
    }
    forall g | g in F' && F'[g].End? ensures F'[g].pipe in P' {
      StillNamed(F, P, f, g);
    }
  }

  /** A pipe some other file names is not freed. */
  lemma StillNamed(F: map<nat, File>, P: map<nat, Pipe>, f: nat, g: nat)
    requires Counted(F, P, {}) && f in F && g in F && g != f && F[g].End?
    requires F[f].End? ==>
              F[f].pipe in P && if F[f].writable then P[F[f].pipe].writers > 0 else P[F[f].pipe].readers > 0
    ensures F[g].pipe in AfterClose(F, P, f)
  {
    if F[f].End? && F[f].pipe == F[g].pipe {
      var p := F[f].pipe;
      EndsLess(F, f, p, false);
      EndsLess(F, f, p, true);
      assert g in Ends(F - {f}, p, F[g].writable);
    }
  }

  /** A file and perhaps an end more: nobody parked minds. */
  lemma OpenParked(T: Table, F: map<nat, File>, P: map<nat, Pipe>, P': map<nat, Pipe>, f: nat, e: File)
    requires ReadersOk(T, F, P) && WritersOk(T, F, P) && f !in F
    requires forall p :: p in P ==>
              && p in P' && (P[p].Valid() ==> P'[p].Valid() && P'[p].Used() == P[p].Used())
              && P'[p].writers >= P[p].writers && P'[p].readers >= P[p].readers
    ensures ReadersOk(T, F[f := e], P') && WritersOk(T, F[f := e], P')
  {
    hide Pipe.Used;
    forall i | Waits(T, i, WaitPipeRead) ensures ReaderOk(T[i].value, F[f := e], P') {
      var x :| Names(T[i].value, F, End(x, false)) && x in P && P[x].Valid() && P[x].Used() == 0 && P[x].writers > 0;
      assert Names(T[i].value, F[f := e], End(x, false));
    }
    forall i | Waits(T, i, WaitPipeWrite) ensures WriterOk(T[i].value, F[f := e], P') {
      var x :| Names(T[i].value, F, End(x, true)) && x in P && P[x].Valid()
               && P[x].Used() == PIPE_SIZE - 1 && P[x].readers > 0;
      assert Names(T[i].value, F[f := e], End(x, true));
    }
  }

  lemma WithEndUsed(q: Pipe, w: bool)
    requires q.Valid()
    ensures WithEnd(q, w).Valid() && WithEnd(q, w).Used() == q.Used()
    ensures (if w then q.writers > 0 else q.readers > 0) ==>
              WithoutEnd(q, w).Valid() && WithoutEnd(q, w).Used() == q.Used()
  {
  }

  /** What a parked task's call names sits in one of its slots, so it is not the loose file being closed. */
  lemma NotLoose(T: Table, F: map<nat, File>, loose: set<nat>, i: nat, e: File, f: nat)
    requires Slotted(T, F, loose) && Has(T, i) && Names(T[i].value, F, e) && f in loose
    ensures Names(T[i].value, F - {f}, e)
  {
    var t := T[i].value;
    assert SlotAt(T, i, t.regs.rdi) == t.fds[t.regs.rdi];
  }

  /** Closing a loose end: readers stay parked if a writer is left, writers if a reader is. */
  lemma CloseReaders(T: Table, F: map<nat, File>, P: map<nat, Pipe>, loose: set<nat>, f: nat)
    requires Slotted(T, F, loose) && f in loose && Counted(F, P, {}) && ReadersOk(T, F, P)
    requires f in F
    requires F[f].End? ==>
               F[f].pipe in P && if F[f].writable then P[F[f].pipe].writers > 0 else P[F[f].pipe].readers > 0
    requires F[f].End? && F[f].writable && P[F[f].pipe].writers == 1 ==> NoWaiter(T, WaitPipeRead)
    ensures ReadersOk(T, F - {f}, AfterClose(F, P, f))
  {
    hide Pipe.Used, Slotted, Counted, Ends;
    var P' := AfterClose(F, P, f);
    forall i | Waits(T, i, WaitPipeRead) ensures ReaderOk(T[i].value, F - {f}, P') {
      var t := T[i].value;
      var x :| Names(t, F, End(x, false)) && x in P && P[x].Valid() && P[x].Used() == 0 && P[x].writers > 0;
      NotLoose(T, F, loose, i, End(x, false), f);
      StillNamed(F, P, f, t.fds[t.regs.rdi]);
      WithEndUsed(P[x], if F[f].End? then F[f].writable else false);
    }
  }

  lemma CloseWriters(T: Table, F: map<nat, File>, P: map<nat, Pipe>, loose: set<nat>, f: nat)
    requires Slotted(T, F, loose) && f in loose && Counted(F, P, {}) && WritersOk(T, F, P)
    requires f in F
    requires F[f].End? ==>
               F[f].pipe in P && if F[f].writable then P[F[f].pipe].writers > 0 else P[F[f].pipe].readers > 0
    requires F[f].End? && !F[f].writable && P[F[f].pipe].readers == 1 ==> NoWaiter(T, WaitPipeWrite)
    ensures WritersOk(T, F - {f}, AfterClose(F, P, f))
  {
    hide Pipe.Used, Slotted, Counted, Ends;
    var P' := AfterClose(F, P, f);
    forall i | Waits(T, i, WaitPipeWrite) ensures WriterOk(T[i].value, F - {f}, P') {
      var t := T[i].value;
      var x :| Names(t, F, End(x, true)) && x in P && P[x].Valid() && P[x].Used() == PIPE_SIZE - 1 && P[x].readers > 0;
      NotLoose(T, F, loose, i, End(x, true), f);
      StillNamed(F, P, f, t.fds[t.regs.rdi]);
      WithEndUsed(P[x], if F[f].End? then F[f].writable else false);
    }
  }

  lemma OpenSlots(T: Table, F: map<nat, File>, loose: set<nat>, f: nat, e: File)
    requires Slotted(T, F, loose) && f !in F && f != 0
    ensures Slotted(T, F[f := e], loose + {f})
  {
  }

  lemma CloseSlots(T: Table, F: map<nat, File>, loose: set<nat>, f: nat)
    requires Slotted(T, F, loose) && f in loose
    ensures Slotted(T, F - {f}, loose - {f})
  {
  }

  /** A loose file goes into an empty slot. */
  lemma PlaceSlots(T: Table, F: map<nat, File>, loose: set<nat>, i: nat, k: nat, f: nat)
    requires Slotted(T, F, loose) && Has(T, i) && k < |T[i].value.fds| && T[i].value.fds[k] == 0 && f in loose
    ensures Slotted(T[i := Some(T[i].value.(fds := T[i].value.fds[k := f]))], F, loose - {f})
  {
    var T' := T[i := Some(T[i].value.(fds := T[i].value.fds[k := f]))];
    forall j, l ensures SlotAt(T', j, l) == if j == i && l == k then f else SlotAt(T, j, l) {}
    forall g | g in F && g !in loose - {f} ensures Placed(T', g) {
      if g == f {
        assert SlotAt(T', i, k) == f;
      } else {
        var j, l :| SlotAt(T, j, l) == g;
        assert SlotAt(T', j, l) == g;
      }
    }
  }

  /** A slot is cleared; its file is loose until it is closed. */
  lemma ClearSlots(T: Table, F: map<nat, File>, loose: set<nat>, i: nat, k: nat)
    requires Slotted(T, F, loose) && Has(T, i) && k < |T[i].value.fds| && T[i].value.fds[k] != 0
    ensures T[i].value.fds[k] in F
    ensures Slotted(T[i := Some(T[i].value.(fds := T[i].value.fds[k := 0]))], F, loose + {T[i].value.fds[k]})
  {
    var f, T' := T[i].value.fds[k], T[i := Some(T[i].value.(fds := T[i].value.fds[k := 0]))];
    assert SlotAt(T, i, k) == f;
    forall j, l ensures SlotAt(T', j, l) == if j == i && l == k then 0 else SlotAt(T, j, l) {}
    forall g | g in F && g !in loose + {f} ensures Placed(T', g) {
      var j, l :| SlotAt(T, j, l) == g;
      assert SlotAt(T', j, l) == g;
    }
  }

  /** A task that is not parked changes its descriptors. */
  lemma FdsParked(T: Table, F: map<nat, File>, P: map<nat, Pipe>, con: Input, i: nat, fds: seq<nat>)
    requires Parked(T, F, P, con) && Has(T, i) && T[i].value.why == WaitNone
    ensures Parked(T[i := Some(T[i].value.(fds := fds))], F, P, con)
  {
    hide ReaderOk, WriterOk;
    var T' := T[i := Some(T[i].value.(fds := fds))];
    forall j, y: Why | y != WaitNone ensures Waits(T', j, y) <==> Waits(T, j, y) {}
    forall j | j != i && Has(T', j) ensures T'[j] == T[j] {}
    forall c, p ensures ChildOf(T', c, p) <==> ChildOf(T, c, p) {}
    forall c ensures IsZombie(T', c) <==> IsZombie(T, c) {}
    forall j | Waits(T', j, WaitChild) ensures exists c :: ChildOf(T', c, j) {
      var c :| ChildOf(T, c, j);
      assert ChildOf(T', c, j);
    }
  }

  lemma FdsWooded(T: Table, trees: set<nat>, loose: set<nat>, cr3: nat, cur: nat, i: nat, fds: seq<nat>)
    requires Wooded(T, trees, loose, cr3, cur) && Has(T, i)
    ensures Wooded(T[i := Some(T[i].value.(fds := fds))], trees, loose, cr3, cur)
  {
    var T' := T[i := Some(T[i].value.(fds := fds))];
    forall j ensures Space(T', j) == Space(T, j) {}
    forall h | h in trees && h !in loose ensures exists j :: Space(T', j) == h {
      var j :| Space(T, j) == h;
      assert Space(T', j) == h;
    }
  }

  /** A pipe with no ends yet. */
  lemma NewPipeCounted(F: map<nat, File>, P: map<nat, Pipe>, p: nat)
    requires Counted(F, P, {}) && p !in P
    ensures Counted(F, P[p := Fresh()], {p})
  {
    assert Ends(F, p, false) == {} && Ends(F, p, true) == {};
  }

  lemma NewPipeParked(T: Table, F: map<nat, File>, P: map<nat, Pipe>, p: nat, q: Pipe)
    requires ReadersOk(T, F, P) && WritersOk(T, F, P) && p !in P
    ensures ReadersOk(T, F, P[p := q]) && WritersOk(T, F, P[p := q])
  {
    hide Pipe.Used;
    forall i | Waits(T, i, WaitPipeRead) ensures ReaderOk(T[i].value, F, P[p := q]) {
      var x :| Names(T[i].value, F, End(x, false)) && x in P && P[x].Valid() && P[x].Used() == 0 && P[x].writers > 0;
    }
    forall i | Waits(T, i, WaitPipeWrite) ensures WriterOk(T[i].value, F, P[p := q]) {
      var x :| Names(T[i].value, F, End(x, true)) && x in P && P[x].Valid()
               && P[x].Used() == PIPE_SIZE - 1 && P[x].readers > 0;
    }
  }

  lemma FreePipeCounted(F: map<nat, File>, P: map<nat, Pipe>, p: nat)
    requires Counted(F, P, {p}) && p in P && P[p].readers == 0 && P[p].writers == 0
    ensures Counted(F, P - {p}, {})
  {
    forall f | f in F && F[f].End? ensures F[f].pipe in P - {p} {
      assert f in Ends(F, F[f].pipe, F[f].writable);
    }
  }

  lemma FreePipeParked(T: Table, F: map<nat, File>, P: map<nat, Pipe>, p: nat)
    requires ReadersOk(T, F, P) && WritersOk(T, F, P) && p in P && P[p].readers == 0 && P[p].writers == 0
    ensures ReadersOk(T, F, P - {p}) && WritersOk(T, F, P - {p})
  {
    hide Pipe.Used;
    forall i | Waits(T, i, WaitPipeRead) ensures ReaderOk(T[i].value, F, P - {p}) {
      var x :| Names(T[i].value, F, End(x, false)) && x in P && P[x].Valid() && P[x].Used() == 0 && P[x].writers > 0;
    }
    forall i | Waits(T, i, WaitPipeWrite) ensures WriterOk(T[i].value, F, P - {p}) {
      var x :| Names(T[i].value, F, End(x, true)) && x in P && P[x].Valid()
               && P[x].Used() == PIPE_SIZE - 1 && P[x].readers > 0;
    }
  }

  // ---------------------------------------------------------------------------
  // Birth and death
  // ---------------------------------------------------------------------------

  ghost predicate NoFds(t: Task) { forall k :: 0 <= k < |t.fds| ==> t.fds[k] == 0 }

  /** A new task at the high-water mark, with no descriptors yet and a tree nobody has. */
  lemma BornShape(T: Table, n: nat, t: Task)
    requires Shaped(T, n) && n < MAX_TASKS && Tidy(T)
    requires t.state == Ready && t.why == WaitNone && |t.fds| == MAX_FDS && |t.handlers| == MAX_SIGS
    ensures Shaped(T[n := Some(t)], n + 1) && Tidy(T[n := Some(t)])
  {
    forall i | i != n ensures Has(T[n := Some(t)], i) <==> Has(T, i) {}
  }

  lemma BornSlots(T: Table, n: nat, F: map<nat, File>, loose: set<nat>, t: Task)
    requires Slotted(T, F, loose) && n < |T| && T[n].None? && NoFds(t)
    ensures Slotted(T[n := Some(t)], F, loose)
  {
    var T' := T[n := Some(t)];
    assert !Has(T, n);
    forall i, k ensures SlotAt(T', i, k) == SlotAt(T, i, k) {}
    forall f | f in F && f !in loose ensures Placed(T', f) {
      var i, k :| SlotAt(T, i, k) == f;
      assert SlotAt(T', i, k) == f;
    }
  }

  lemma BornParked(T: Table, n: nat, F: map<nat, File>, P: map<nat, Pipe>, con: Input, t: Task)
    requires Parked(T, F, P, con) && n < |T| && T[n].None? && t.state == Ready && t.why == WaitNone
    ensures Parked(T[n := Some(t)], F, P, con)
  {
    hide ReaderOk, WriterOk;
    var T' := T[n := Some(t)];
    forall i, y: Why | y != WaitNone && Waits(T', i, y) ensures Waits(T, i, y) && T'[i] == T[i] {}
    BornChildren(T, n, t);
  }

  lemma BornChildren(T: Table, n: nat, t: Task)
    requires n < |T| && T[n].None? && ChildrenOk(T) && t.state == Ready && t.why == WaitNone
    ensures ChildrenOk(T[n := Some(t)])
  {
    var T' := T[n := Some(t)];
    assert !Has(T, n);
    forall i | Waits(T', i, WaitChild)
      ensures T'[i].value.regs.rax == SYS_WAIT && (exists c :: ChildOf(T', c, i))
      ensures forall c :: ChildOf(T', c, i) ==> !IsZombie(T', c)
    {
      assert Waits(T, i, WaitChild);
      var c :| ChildOf(T, c, i);
      assert ChildOf(T', c, i);
      forall d | ChildOf(T', d, i) ensures !IsZombie(T', d) {
        assert d != n ==> ChildOf(T, d, i) && !IsZombie(T, d);
      }
    }
  }

  lemma BornWooded(T: Table, n: nat, trees: set<nat>, loose: set<nat>, cr3: nat, cur: nat, t: Task)
    requires Wooded(T, trees, loose, cr3, cur) && n < |T| && T[n].None? && t.aspace in loose
    ensures Wooded(T[n := Some(t)], trees, loose - {t.aspace}, cr3, cur)
  {
    var T' := T[n := Some(t)];
    BornSpaces(T, n, t);
    forall h | h in trees && h !in loose - {t.aspace} ensures exists i :: Space(T', i) == h {
      if h == t.aspace {
        assert Space(T', n) == h;
      } else {
        var i :| Space(T, i) == h;
        assert Space(T', i) == h;
      }
    }
    BornApart(T, n, trees, loose, t);
    forall i | Has(T', i) && T'[i].value.state != Zombie ensures T'[i].value.aspace != 0 {
      assert i != n ==> Has(T, i) && T[i] == T'[i];
    }
  }

  lemma BornSpaces(T: Table, n: nat, t: Task)
    requires n < |T| && T[n].None?
    ensures forall i :: Space(T[n := Some(t)], i) == if i == n then t.aspace else Space(T, i)
  {
    assert !Has(T, n);
    forall i ensures Space(T[n := Some(t)], i) == if i == n then t.aspace else Space(T, i) {}
  }

  lemma BornApart(T: Table, n: nat, trees: set<nat>, loose: set<nat>, t: Task)
    requires n < |T| && T[n].None? && t.aspace in loose
    requires (forall i, j :: Space(T, i) != 0 && Space(T, i) == Space(T, j) ==> i == j)
    requires 0 !in trees && loose <= trees
    requires (forall i :: Space(T, i) != 0 ==> Space(T, i) in trees && Space(T, i) !in loose)
    ensures var T' := T[n := Some(t)];
            && (forall i :: Space(T', i) != 0 ==> Space(T', i) in trees && Space(T', i) !in loose - {t.aspace})
            && (forall i, j :: Space(T', i) != 0 && Space(T', i) == Space(T', j) ==> i == j)
  {
    var T' := T[n := Some(t)];
    assert !Has(T, n);
    forall i ensures Space(T', i) == if i == n then t.aspace else Space(T, i) {}
  }

  /** parent_alive */
  ghost predicate ParentAlive(T: Table, p: int) { p != NO_PARENT && Has(T, p) && T[p].value.state != Zombie }

  /** The table after task `i` dies with no descriptors left and its parent, if it waits for a child, is woken. */
  ghost function AfterDeath(T: Table, i: nat, status: nat): Table
    requires Has(T, i)
  {
    var t := T[i].value;
    var T1 := T[i := Some(t.(status := status, state := Zombie, why := WaitNone))];
    if ParentAlive(T1, t.parent) then T1[t.parent := WakeOne(T1[t.parent], WaitChild)] else T1
  }

  lemma DeathShape(T: Table, n: nat, i: nat, status: nat, F: map<nat, File>, loose: set<nat>)
    requires Shaped(T, n) && Tidy(T) && Has(T, i) && NoFds(T[i].value) && Slotted(T, F, loose)
    ensures Shaped(AfterDeath(T, i, status), n) && Tidy(AfterDeath(T, i, status))
    ensures Slotted(AfterDeath(T, i, status), F, loose)
  {
    var T' := AfterDeath(T, i, status);
    forall j ensures Has(T', j) <==> Has(T, j) {}
    forall j, k ensures SlotAt(T', j, k) == SlotAt(T, j, k) {}
    forall f | f in F && f !in loose ensures Placed(T', f) {
      var j, k :| SlotAt(T, j, k) == f;
      assert SlotAt(T', j, k) == f;
    }
  }

  lemma DeathParked(T: Table, F: map<nat, File>, P: map<nat, Pipe>, con: Input, i: nat, status: nat)
    requires |T| == MAX_TASKS && Tidy(T) && Parked(T, F, P, con) && Has(T, i) && T[i].value.why == WaitNone
    ensures Parked(AfterDeath(T, i, status), F, P, con)
  {
    hide ReaderOk, WriterOk;
    var T' := AfterDeath(T, i, status);
    forall j, y: Why | y != WaitNone && Waits(T', j, y) ensures Waits(T, j, y) && T'[j] == T[j] && j != i {}
    DeathChildren(T, i, status);
  }

  lemma DeathChildren(T: Table, i: nat, status: nat)
    requires |T| == MAX_TASKS && Tidy(T) && ChildrenOk(T) && Has(T, i) && T[i].value.why == WaitNone
    ensures ChildrenOk(AfterDeath(T, i, status))
  {
    var T' := AfterDeath(T, i, status);
    forall c, p ensures ChildOf(T', c, p) <==> ChildOf(T, c, p) {}
    forall j | Waits(T', j, WaitChild)
      ensures T'[j].value.regs.rax == SYS_WAIT && (exists c :: ChildOf(T', c, j))
      ensures forall c :: ChildOf(T', c, j) ==> !IsZombie(T', c)
    {
      assert Waits(T, j, WaitChild) && T'[j] == T[j];
      var c :| ChildOf(T, c, j);
      assert ChildOf(T', c, j);
      forall d | ChildOf(T', d, j) ensures !IsZombie(T', d) {
        assert d != i ==> ChildOf(T, d, j) && !IsZombie(T, d);
      }
    }
  }

  lemma DeathSpaces(T: Table, i: nat, status: nat)
    requires Has(T, i)
    ensures var T' := AfterDeath(T, i, status);
            && (forall j :: Has(T', j) <==> Has(T, j))
            && forall j :: Has(T, j) ==>
                             && T'[j].value.aspace == T[j].value.aspace
                             && (T'[j].value.state != Zombie ==> T[j].value.state != Zombie)
  {
  }

  lemma DeathWooded(T: Table, trees: set<nat>, loose: set<nat>, cr3: nat, cur: nat, i: nat, status: nat)
    requires Wooded(T, trees, loose, cr3, cur) && Has(T, i)
    ensures Wooded(AfterDeath(T, i, status), trees, loose, cr3, cur)
  {
    hide AfterDeath;
    var T' := AfterDeath(T, i, status);
    DeathSpaces(T, i, status);
    forall j ensures Space(T', j) == Space(T, j) {}
    forall h | h in trees && h !in loose ensures exists j :: Space(T', j) == h {
      var j :| Space(T, j) == h;
      assert Space(T', j) == h;
    }
  }

  /** A dead task's tree is destroyed; it is not the one in CR3. */
  lemma FelledWooded(T: Table, trees: set<nat>, cr3: nat, cur: nat, i: nat)
    requires Wooded(T, trees, {}, cr3, cur) && IsZombie(T, i) && i != cur && T[i].value.aspace != 0
    ensures T[i].value.aspace in trees && T[i].value.aspace != cr3
    ensures Wooded(T[i := Some(T[i].value.(aspace := 0))], trees - {T[i].value.aspace}, {}, cr3, cur)
  {
    var h, T' := T[i].value.aspace, T[i := Some(T[i].value.(aspace := 0))];
    assert Space(T, i) == h;
    forall j ensures Space(T', j) == if j == i then 0 else Space(T, j) {}
    forall g | g in trees - {h} ensures exists j :: Space(T', j) == g {
      var j :| Space(T, j) == g;
      assert Space(T', j) == g;
    }
  }

  /** Dropping a dead task's tree changes nothing else anyone can see. */
  lemma FelledQuiet(T: Table, i: nat)
    requires Has(T, i) && T[i].value.why == WaitNone
    ensures Quiet(T, T[i := Some(T[i].value.(aspace := 0))])
  {
    QuietOne(T, i, T[i].value.(aspace := 0));
  }

  /** A dead task whose tree is gone leaves the table for good. */
  lemma BuriedShape(T: Table, n: nat, i: nat)
    requires Shaped(T, n) && Tidy(T) && i < |T|
    ensures Shaped(T[i := None], n) && Tidy(T[i := None])
  {
    forall j ensures Has(T[i := None], j) <==> j != i && Has(T, j) {}
  }

  lemma BuriedSlots(T: Table, F: map<nat, File>, loose: set<nat>, i: nat)
    requires Slotted(T, F, loose) && Tidy(T) && IsZombie(T, i)
    ensures Slotted(T[i := None], F, loose)
  {
    var T' := T[i := None];
    forall j, k ensures SlotAt(T', j, k) == SlotAt(T, j, k) {}
    forall f | f in F && f !in loose ensures Placed(T', f) {
      var j, k :| SlotAt(T, j, k) == f;
      assert SlotAt(T', j, k) == f;
    }
  }

  lemma BuriedParked(T: Table, F: map<nat, File>, P: map<nat, Pipe>, con: Input, i: nat)
    requires Tidy(T) && Parked(T, F, P, con) && IsZombie(T, i)
    ensures Parked(T[i := None], F, P, con)
  {
    hide ReaderOk, WriterOk;
    var T' := T[i := None];
    forall j, y: Why | Waits(T', j, y) ensures Waits(T, j, y) && T'[j] == T[j] {}
    BuriedChildren(T, i);
  }

  lemma BuriedChildren(T: Table, i: nat)
    requires Tidy(T) && ChildrenOk(T) && IsZombie(T, i)
    ensures ChildrenOk(T[i := None])
  {
    var T' := T[i := None];
    forall j | Waits(T', j, WaitChild)
      ensures T'[j].value.regs.rax == SYS_WAIT && (exists c :: ChildOf(T', c, j))
      ensures forall c :: ChildOf(T', c, j) ==> !IsZombie(T', c)
    {
      assert Waits(T, j, WaitChild);
      var c :| ChildOf(T, c, j);
      assert c != i;
      assert ChildOf(T', c, j);
      forall d | ChildOf(T', d, j) ensures !IsZombie(T', d) {
        assert ChildOf(T, d, j) && !IsZombie(T, d);
      }
    }
  }

  lemma BuriedWooded(T: Table, trees: set<nat>, cr3: nat, cur: nat, i: nat)
    requires Wooded(T, trees, {}, cr3, cur) && Has(T, i) && i != cur && T[i].value.aspace == 0
    ensures Wooded(T[i := None], trees, {}, cr3, cur)
  {
    var T' := T[i := None];
    forall j ensures Space(T', j) == Space(T, j) {}
    forall h | h in trees ensures exists j :: Space(T', j) == h {
      var j :| Space(T, j) == h;
      assert Space(T', j) == h;
    }
  }
}
