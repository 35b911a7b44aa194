/** kernel/signal.c: delivering a signal to a ring-3 handler and coming back from it. */
module Signals {
  import opened Bytes

  /** registers_t: the frame an interrupt leaves, 22 words. */
  datatype Regs = Regs(rdi: nat, rsi: nat, rbp: nat, rbx: nat, rdx: nat, rcx: nat, rax: nat,
                       r8: nat, r9: nat, r10: nat, r11: nat, r12: nat, r13: nat, r14: nat, r15: nat,
                       intNo: nat, errCode: nat, rip: nat, cs: nat, rflags: nat, rsp: nat, ss: nat)

  const FRAME_WORDS := 22
  const FRAME_BYTES := 176      // sizeof(registers_t)
  const RED_ZONE := 128
  const REGION_START := 0x40_0000   // USER_REGION_START
  const SPACE_END := 0xA0_0000      // USER_SPACE_END
  const USER_CS := 0x1B
  const USER_SS := 0x23
  const MAX_SIGS := 32
  const SIG_KILL := 9
  const SIG_SEGV := 11

  /** user_range_ok */
  predicate RangeOk(ptr: nat, len: nat) { REGION_START <= ptr < SPACE_END && len <= SPACE_END - ptr }

  /** Every byte of the range lies in the ring-3 region. */
  lemma RangeMeans(ptr: nat, len: nat)
    ensures RangeOk(ptr, len) <==> 0x40_0000 <= ptr < 0xA0_0000 && ptr + len <= 0xA0_0000
  {
  }

  /** Bits 1 and 9 of the flags (USER_MODE_RFLAGS) or-ed in. */
  function WithFlags(x: nat): nat {
    x + (if x / 2 % 2 == 0 then 2 else 0) + (if x / 512 % 2 == 0 then 512 else 0)
  }

  /** Bit 1 and bit 9, the interrupt flag, are set, and every other bit is as it was. */
  lemma FlagBits(x: nat, k: nat)
    ensures BitOf(WithFlags(x), k) == if k == 1 || k == 9 then 1 else BitOf(x, k)
    ensures WithFlags(x) / 2 % 2 == 1 && WithFlags(x) / 512 % 2 == 1
  {
    var y := if x / 2 % 2 == 0 then x + 2 else x;
    Flag1(x, y);
    Flag9(y, WithFlags(x));
    Bits1And9(x);
    Bits1And9(y);
    if x / 2 % 2 == 0 {
      SetBit(x, 1, k);
    }
    if y / 512 % 2 == 0 {
      SetBit(y, 9, k);
    }
  }

  lemma Bits1And9(x: nat)
    ensures BitOf(x, 1) == x / 2 % 2 && BitOf(x, 9) == x / 512 % 2
    ensures Pow2(1) == 2 && Pow2(9) == 512
  {
    var a := x / 16;
    assert x / 2 / 2 / 2 / 2 == a;
    assert BitOf(x, 4) == BitOf(x / 2, 3) == BitOf(x / 2 / 2, 2) == BitOf(x / 2 / 2 / 2, 1) == BitOf(a, 0);
    assert BitOf(x, 9) == BitOf(x / 2, 8) == BitOf(x / 2 / 2, 7) == BitOf(x / 2 / 2 / 2, 6) == BitOf(a, 5);
    assert BitOf(a, 5) == BitOf(a / 2, 4) == BitOf(a / 2 / 2, 3) == BitOf(a / 2 / 2 / 2, 2);
    assert BitOf(a / 2 / 2 / 2, 2) == BitOf(a / 2 / 2 / 2 / 2, 1) == BitOf(a / 2 / 2 / 2 / 2 / 2, 0);
    assert a / 2 / 2 / 2 / 2 / 2 == a / 32 == x / 512;
    assert Pow2(3) == 8 && Pow2(6) == 64;
  }

  lemma FlagsTwice(x: nat)
    ensures WithFlags(WithFlags(x)) == WithFlags(x)
  {
    var y := if x / 2 % 2 == 0 then x + 2 else x;
    Flag1(x, y);
    Flag9(y, if y / 512 % 2 == 0 then y + 512 else y);
  }

  /** Setting bit 1 carries nowhere. */
  lemma Flag1(x: nat, y: nat)
    requires y == if x / 2 % 2 == 0 then x + 2 else x
    ensures y / 2 % 2 == 1 && y / 512 == x / 512
  {
    var q, r := x / 4, x % 4;
    assert x == 4 * q + r && x / 2 == 2 * q + r / 2 && x / 512 == q / 128;
    assert y == 4 * q + (if r < 2 then r + 2 else r);
  }

  /** Nor does setting bit 9, which leaves bit 1 alone. */
  lemma Flag9(y: nat, z: nat)
    requires z == if y / 512 % 2 == 0 then y + 512 else y
    ensures z / 512 % 2 == 1 && z / 2 % 2 == y / 2 % 2
  {
    if y / 512 % 2 == 0 {
      Carried(y, y / 512, y / 2);
    }
  }

  lemma Carried(y: nat, q: nat, h: nat)
    requires q == y / 512 && h == y / 2
    ensures (y + 512) / 512 == q + 1 && (y + 512) / 2 == h + 256 && (h + 256) % 2 == h % 2
  {
  }

  function Words(r: Regs): (ws: seq<nat>)
    ensures |ws| == FRAME_WORDS
  {
    [r.rdi, r.rsi, r.rbp, r.rbx, r.rdx, r.rcx, r.rax, r.r8, r.r9, r.r10, r.r11, r.r12, r.r13, r.r14, r.r15,
     r.intNo, r.errCode, r.rip, r.cs, r.rflags, r.rsp, r.ss]
  }

  function FromWords(w: seq<nat>): (r: Regs)
    requires |w| == FRAME_WORDS
  {
    Regs(w[0], w[1], w[2], w[3], w[4], w[5], w[6], w[7], w[8], w[9], w[10], w[11], w[12], w[13], w[14],
         w[15], w[16], w[17], w[18], w[19], w[20], w[21])
  }

  ghost predicate Fits(ws: seq<nat>) { forall i :: 0 <= i < |ws| ==> ws[i] < WORD_MOD }

  /** A frame that returns to ring 3 with interrupts on. */
  ghost predicate Ring3(r: Regs) {
    Fits(Words(r)) && r.cs == USER_CS && r.ss == USER_SS && WithFlags(r.rflags) == r.rflags
  }

  /** The words `ws` stored at `a`. */
  function PutWords(mem: seq<Byte>, a: nat, ws: seq<nat>): (m: seq<Byte>)
    requires a + 8 * |ws| <= |mem| && Fits(ws)
    ensures |m| == |mem| && forall x :: 0 <= x < |mem| && !(a <= x < a + 8 * |ws|) ==> m[x] == mem[x]
    decreases |ws|
  {
    if ws == [] then mem else PutWords(PutWord(mem, a, ws[0]), a + 8, ws[1..])
  }

  function GetWords(mem: seq<Byte>, a: nat, n: nat): (ws: seq<nat>)
    requires a + 8 * n <= |mem|
    ensures |ws| == n
    decreases n
  {
    if n == 0 then [] else [Word(mem, a)] + GetWords(mem, a + 8, n - 1)
  }

  lemma {:induction false} GetPut(mem: seq<Byte>, a: nat, ws: seq<nat>)
    requires a + 8 * |ws| <= |mem| && Fits(ws)
    ensures GetWords(PutWords(mem, a, ws), a, |ws|) == ws
    decreases |ws|
  {
    hide Word, PutWord;
    if ws != [] {
      var m := PutWord(mem, a, ws[0]);
      GetPut(m, a + 8, ws[1..]);
      WordFrame(m, PutWords(m, a + 8, ws[1..]), a);
    }
  }

  lemma {:induction false} GetFrame(m: seq<Byte>, m': seq<Byte>, a: nat, n: nat)
    requires |m'| == |m| && a + 8 * n <= |m| && forall x :: a <= x < a + 8 * n ==> m'[x] == m[x]
    ensures GetWords(m', a, n) == GetWords(m, a, n)
    decreases n
  {
    hide Word;
    if n > 0 {
      WordFrame(m, m', a);
      GetFrame(m, m', a + 8, n - 1);
    }
  }

  /** Where the interrupted frame is saved: below the red zone, aligned, in 64-bit arithmetic. */
  function ContextAt(rsp: nat): nat
    requires rsp < WORD_MOD
  {
    var sp := (rsp + WORD_MOD - RED_ZONE) % WORD_MOD;
    (sp - sp % 16 + WORD_MOD - FRAME_BYTES) % WORD_MOD
  }

  lemma ContextSteps(rsp: nat, ctx: nat)
    requires rsp < WORD_MOD
    requires var sp := (rsp + WORD_MOD - RED_ZONE) % WORD_MOD; ctx == (sp - sp % 16 + WORD_MOD - FRAME_BYTES) % WORD_MOD
    ensures ContextAt(rsp) == ctx
  {
  }

  /** A context that passes the range check was not reached by wrapping, and is aligned. */
  lemma ContextBelow(rsp: nat)
    requires rsp < WORD_MOD && RangeOk(ContextAt(rsp), FRAME_BYTES + 8)
    ensures var ctx := ContextAt(rsp);
            ctx % 16 == 0 && ctx + FRAME_BYTES + RED_ZONE <= rsp < ctx + FRAME_BYTES + RED_ZONE + 16
  {
    var sp := (rsp + WORD_MOD - RED_ZONE) % WORD_MOD;
    var al := sp - sp % 16;
    AlignDown(sp);
    assert sp == if rsp >= RED_ZONE then rsp - RED_ZONE else rsp + WORD_MOD - RED_ZONE;
    assert ContextAt(rsp) == if al >= FRAME_BYTES then al - FRAME_BYTES else al + WORD_MOD - FRAME_BYTES;
    Step16(al);
  }

  /** Where the frame goes, and the stack pointer right below it. */
  lemma ContextPlace(rsp: nat)
    requires rsp < WORD_MOD && RangeOk(ContextAt(rsp), FRAME_BYTES + 8)
    ensures var ctx := ContextAt(rsp);
            ctx % 16 == 0 && ctx + 304 <= rsp < ctx + 320 && (ctx + WORD_MOD - 8) % WORD_MOD + 8 == ctx
  {
    hide ContextAt;
    ContextBelow(rsp);
    MinusEight(ContextAt(rsp));
  }

  lemma AlignDown(sp: nat)
    ensures (sp - sp % 16) % 16 == 0
  {
  }

  lemma Step16(al: nat)
    requires al % 16 == 0
    ensures al >= FRAME_BYTES ==> (al - FRAME_BYTES) % 16 == 0
  {
    var k := al / 16;
    assert al == 16 * k && al - FRAME_BYTES == 16 * (k - 11);
  }

  /** What delivery leaves in memory and in the registers. */
  ghost function Forged(mem: seq<Byte>, r: Regs, trampoline: nat): seq<Byte>
    requires r.rsp < WORD_MOD && Fits(Words(r)) && trampoline < WORD_MOD && |mem| >= SPACE_END
    requires RangeOk(ContextAt(r.rsp), FRAME_BYTES + 8)
  {
    var ctx := ContextAt(r.rsp);
    PutWord(PutWords(mem, ctx, Words(r)), ctx - 8, trampoline)
  }

  function Entered(r: Regs, handler: nat, sig: nat): Regs
    requires r.rsp < WORD_MOD
  {
    r.(rip := handler, rdi := sig, rsp := (ContextAt(r.rsp) + WORD_MOD - 8) % WORD_MOD)
  }

  /** The frame sigreturn makes of the saved words. */
  function Restored(r: Regs): Regs {
    r.(cs := USER_CS, ss := USER_SS, rflags := WithFlags(r.rflags))
  }

  lemma WordsBack(r: Regs)
    ensures FromWords(Words(r)) == r
  {
  }

  /** Delivery and return, with the saved area untouched in between, restore the interrupted frame exactly. */
  lemma RoundTrip(mem: seq<Byte>, r: Regs, trampoline: nat, later: seq<Byte>)
    requires Ring3(r) && r.rsp < WORD_MOD && trampoline < WORD_MOD && |mem| >= SPACE_END
    requires RangeOk(ContextAt(r.rsp), FRAME_BYTES + 8)
    requires |later| == |mem| && var ctx := ContextAt(r.rsp);
             forall x :: ctx <= x < ctx + FRAME_BYTES ==> later[x] == Forged(mem, r, trampoline)[x]
    ensures RangeOk(ContextAt(r.rsp), FRAME_BYTES)
    ensures Restored(FromWords(GetWords(later, ContextAt(r.rsp), FRAME_WORDS))) == r
  {
    hide Words, FromWords, ContextAt, PutWords, GetWords, PutWord;
    var ctx := ContextAt(r.rsp);
    var saved := PutWords(mem, ctx, Words(r));
    GetPut(mem, ctx, Words(r));
    GetFrame(saved, later, ctx, FRAME_WORDS);
    WordsBack(r);
  }

  /** The forged frame lies wholly below the red zone, the handler is entered as after a call, and its return
      address is the trampoline. */
  lemma ForgedBelow(mem: seq<Byte>, r: Regs, handler: nat, sig: nat, trampoline: nat)
    requires r.rsp < WORD_MOD && Fits(Words(r)) && trampoline < WORD_MOD && |mem| >= SPACE_END
    requires RangeOk(ContextAt(r.rsp), FRAME_BYTES + 8)
    ensures var m, e := Forged(mem, r, trampoline), Entered(r, handler, sig);
            e.rsp % 16 == 8 && e.rsp + 8 + FRAME_BYTES <= r.rsp - RED_ZONE && |m| == |mem| && e.rsp + 8 <= |m|
            && Word(m, e.rsp) == trampoline
            && forall x :: 0 <= x < |mem| && !(e.rsp <= x < e.rsp + 8 + FRAME_BYTES) ==> m[x] == mem[x]
  {
    hide Words, ContextAt, PutWords, PutWord, Word;
    ContextBelow(r.rsp);
    var ctx := ContextAt(r.rsp);
    MinusEight(ctx);
  }

  lemma MinusEight(ctx: nat)
    requires ctx % 16 == 0 && REGION_START <= ctx < SPACE_END
    ensures (ctx + WORD_MOD - 8) % WORD_MOD == ctx - 8 && (ctx - 8) % 16 == 8
  {
    var k := ctx / 16;
    assert ctx - 8 == 16 * (k - 1) + 8;
  }

  /** registers_t in memory: the frame `r`, one word after another from `a` on. */
  ghost predicate FrameAt(mem: seq<Byte>, a: nat, r: Regs) {
    && a + 176 <= |mem|
    && Word(mem, a) == r.rdi && Word(mem, a + 8) == r.rsi && Word(mem, a + 16) == r.rbp && Word(mem, a + 24) == r.rbx
    && Word(mem, a + 32) == r.rdx && Word(mem, a + 40) == r.rcx && Word(mem, a + 48) == r.rax
    && Word(mem, a + 56) == r.r8 && Word(mem, a + 64) == r.r9 && Word(mem, a + 72) == r.r10
    && Word(mem, a + 80) == r.r11 && Word(mem, a + 88) == r.r12 && Word(mem, a + 96) == r.r13
    && Word(mem, a + 104) == r.r14 && Word(mem, a + 112) == r.r15
    && Word(mem, a + 120) == r.intNo && Word(mem, a + 128) == r.errCode
    && Word(mem, a + 136) == r.rip && Word(mem, a + 144) == r.cs && Word(mem, a + 152) == r.rflags
    && Word(mem, a + 160) == r.rsp && Word(mem, a + 168) == r.ss
  }

  lemma {:induction false} WordsAt(mem: seq<Byte>, a: nat, n: nat, k: nat)
    requires a + 8 * n <= |mem| && k < n
    ensures GetWords(mem, a, n)[k] == Word(mem, a + 8 * k)
    decreases n
  {
    hide Word;
    if k > 0 {
      WordsAt(mem, a + 8, n - 1, k - 1);
    }
  }

  /** The words read back into a frame are the frame that lies there. */
  lemma FrameThere(mem: seq<Byte>, a: nat)
    requires a + FRAME_BYTES <= |mem|
    ensures FrameAt(mem, a, FromWords(GetWords(mem, a, FRAME_WORDS)))
  {
    hide Word, GetWords;
    forall k: nat | k < FRAME_WORDS ensures GetWords(mem, a, FRAME_WORDS)[k] == Word(mem, a + 8 * k) {
      WordsAt(mem, a, FRAME_WORDS, k);
    }
  }

  lemma FrameWritten(mem: seq<Byte>, later: seq<Byte>, a: nat, r: Regs)
    requires a + FRAME_BYTES <= |mem| && Fits(Words(r)) && |later| == |mem|
    requires forall x :: a <= x < a + FRAME_BYTES ==> later[x] == PutWords(mem, a, Words(r))[x]
    ensures FrameAt(later, a, r)
  {
    hide Word, GetWords, PutWords, Words, FromWords;
    GetPut(mem, a, Words(r));
    GetFrame(PutWords(mem, a, Words(r)), later, a, FRAME_WORDS);
    FrameThere(later, a);
    WordsBack(r);
  }

  /** A stack that can take the frame: from 304 bytes above the bottom of the ring-3 region to 128 above its end. */
  lemma StackTakes(rsp: nat)
    requires rsp < WORD_MOD
    ensures RangeOk(ContextAt(rsp), FRAME_BYTES + 8) <==> 0x40_0130 <= rsp < 0xA0_0080
  {
    var sp := (rsp + WORD_MOD - RED_ZONE) % WORD_MOD;
    var al := sp - sp % 16;
    AlignDown(sp);
    assert sp == if rsp >= RED_ZONE then rsp - RED_ZONE else rsp + WORD_MOD - RED_ZONE;
    assert ContextAt(rsp) == if al >= FRAME_BYTES then al - FRAME_BYTES else al + WORD_MOD - FRAME_BYTES;
    Top16(al);
  }

  lemma Top16(al: nat)
    requires al % 16 == 0
    ensures al <= 0xA0_0000 - 8 <==> al < 0xA0_0000
  {
    var k := al / 16;
    assert al == 16 * k && 0xA0_0000 == 16 * 0xA_0000;
  }

  /** What delivery comes to, word by word: the old frame right above the return address, the handler's address in rip,
      the signal in rdi, and nothing else of the frame or of memory changed. */
  lemma DeliveryMeans(mem: seq<Byte>, r: Regs, handler: nat, sig: nat, trampoline: nat)
    requires r.rsp < WORD_MOD && Fits(Words(r)) && trampoline < WORD_MOD && |mem| >= SPACE_END
    requires RangeOk(ContextAt(r.rsp), FRAME_BYTES + 8)
    ensures var m, e, ctx := Forged(mem, r, trampoline), Entered(r, handler, sig), ContextAt(r.rsp);
            && e.rip == handler && e.rdi == sig && e == r.(rip := e.rip, rdi := e.rdi, rsp := e.rsp)
            && e.rsp + 8 == ctx && ctx % 16 == 0 && ctx + 304 <= r.rsp < ctx + 320
            && FrameAt(m, ctx, r) && e.rsp + 8 <= |m| == |mem| && Word(m, e.rsp) == trampoline
            && forall x :: 0 <= x < |mem| && !(e.rsp <= x < e.rsp + 184) ==> m[x] == mem[x]
  {
    hide Words, ContextAt, PutWords, PutWord, Word, FrameAt;
    ContextBelow(r.rsp);
    var ctx := ContextAt(r.rsp);
    MinusEight(ctx);
    FrameWritten(mem, Forged(mem, r, trampoline), ctx, r);
  }

  /** The check covers [ctx, ctx + 184) but the writes are [ctx - 8, ctx + 176): they stay inside the ring-3 region
      exactly when the stack pointer leaves 16 more bytes than the check asks for. */
  lemma WritesContained(rsp: nat)
    requires rsp < WORD_MOD && RangeOk(ContextAt(rsp), FRAME_BYTES + 8)
    ensures var ctx := ContextAt(rsp);
            (REGION_START <= ctx - 8 && ctx + FRAME_BYTES <= SPACE_END) <==>
              rsp >= REGION_START + FRAME_BYTES + RED_ZONE + 16
  {
    hide ContextAt;
    ContextBelow(rsp);
  }

  /** The sixteen stack positions at which delivery passes the check and writes eight bytes below the region. */
  lemma WritesBelowRegion(rsp: nat)
    requires rsp < WORD_MOD
    ensures RangeOk(ContextAt(rsp), FRAME_BYTES + 8) && ContextAt(rsp) - 8 < REGION_START
            <==> REGION_START + FRAME_BYTES + RED_ZONE <= rsp < REGION_START + FRAME_BYTES + RED_ZONE + 16
  {
    if RangeOk(ContextAt(rsp), FRAME_BYTES + 8) {
      ContextBelow(rsp);
    }
  }

  /** The lowest pending signal, 0 if none of 1..31 is. */
  ghost predicate IsLowest(pending: set<nat>, sig: nat) {
    if sig == 0 then forall i :: 1 <= i < MAX_SIGS ==> i !in pending
    else 1 <= sig < MAX_SIGS && sig in pending && forall i :: 1 <= i < sig ==> i !in pending
  }

  method LowestPending(pending: set<nat>) returns (sig: nat)
    ensures IsLowest(pending, sig)
    ensures sig == 0 <==> forall i :: 1 <= i < 32 ==> i !in pending
    ensures sig != 0 ==> 1 <= sig < 32 && sig in pending && forall i :: 1 <= i < sig ==> i !in pending
  {
    sig := 0;
    var i := 1;
    while i < MAX_SIGS
      invariant 1 <= i <= MAX_SIGS && forall j :: 1 <= j < i ==> j !in pending
    {
      if i in pending {
        return i;
      }
      i := i + 1;
    }
  }

  /** One task as signals see it: its frame, its memory, and the signal fields of task_t. */
  class Target {
    var regs: Regs
    var mem: seq<Byte>
    var pending: set<nat>
    var handlers: seq<nat>
    var trampoline: nat
    var active: bool
    var ctx: nat
    var status: int               // -1 while the task lives, else its exit status

    ghost predicate Valid()
      reads this
    {
      && |mem| >= SPACE_END && |handlers| == MAX_SIGS && trampoline < WORD_MOD && Fits(Words(regs))
      && regs.rsp < WORD_MOD
      && forall i :: 0 <= i < MAX_SIGS ==> handlers[i] < WORD_MOD
    }

    constructor (r: Regs, m: seq<Byte>)
      requires |m| >= SPACE_END && Fits(Words(r)) && r.rsp < WORD_MOD
      ensures Valid() && regs == r && mem == m && pending == {} && !active && status == -1 && ctx == 0
    {
      regs, mem, pending, active, ctx, status, trampoline := r, m, {}, false, 0, -1, 0;
      handlers := seq(MAX_SIGS, i => 0);
    }

    /** signal_install_handler: a kill cannot be caught, and both addresses must lie in the ring-3 region. */
    method Install(sig: nat, handler: nat, tramp: nat) returns (ok: bool)
      requires Valid()
      modifies `handlers, `trampoline
      ensures Valid()
      ensures ok <==> 0 < sig < 32 && sig != 9 && (handler == 0 || 0x40_0000 <= handler < 0xA0_0000)
                      && 0x40_0000 <= tramp < 0xA0_0000
      ensures ok ==> handlers == old(handlers)[sig := handler] && trampoline == tramp
      ensures !ok ==> handlers == old(handlers) && trampoline == old(trampoline)
    {
      if sig == 0 || sig >= MAX_SIGS || sig == SIG_KILL {
        return false;
      }
      if handler != 0 && !RangeOk(handler, 1) {
        return false;
      }
      if !RangeOk(tramp, 1) {
        return false;
      }
      handlers := handlers[sig := handler];
      trampoline := tramp;
      ok := true;
    }

    /** deliver_to_handler: the frame is saved and the handler entered, or the task dies of a stack that cannot take
        it. */
    method Deliver(sig: nat)
      requires Valid() && 0 < sig < MAX_SIGS && sig in pending && !active
      modifies this
      ensures |mem| == |old(mem)| && handlers == old(handlers) && trampoline == old(trampoline)
      ensures if RangeOk(ContextAt(old(regs.rsp)), FRAME_BYTES + 8)
              then regs == Entered(old(regs), handlers[sig], sig) && mem == Forged(old(mem), old(regs), trampoline)
                   && pending == old(pending) - {sig} && active && ctx == ContextAt(old(regs.rsp))
                   && status == old(status)
              else status == 128 + SIG_SEGV && mem == old(mem) && regs == old(regs)
      ensures if 0x40_0130 <= old(regs.rsp) < 0xA0_0080
              then && status == old(status) && regs.rip == handlers[sig] && regs.rdi == sig
                   && regs == old(regs).(rip := regs.rip, rdi := regs.rdi, rsp := regs.rsp)
                   && regs.rsp + 8 == ctx && ctx % 16 == 0 && ctx + 304 <= old(regs.rsp) < ctx + 320
                   && FrameAt(mem, ctx, old(regs)) && regs.rsp + 8 <= |mem| && Word(mem, regs.rsp) == trampoline
                   && forall x :: 0 <= x < |mem| && !(regs.rsp <= x < regs.rsp + 184) ==> mem[x] == old(mem)[x]
              else status == 139
    {
      hide Words, PutWord, PutWords, ContextAt, FrameAt, Word;
      StackTakes(regs.rsp);
      var sp := (regs.rsp + WORD_MOD - RED_ZONE) % WORD_MOD;
      sp := sp - sp % 16;
      sp := (sp + WORD_MOD - FRAME_BYTES) % WORD_MOD;
      ContextSteps(regs.rsp, sp);
      if !RangeOk(sp, FRAME_BYTES + 8) {
        status := 128 + SIG_SEGV;
        return;
      }
      ContextBelow(regs.rsp);
      MinusEight(sp);
      DeliveryMeans(mem, regs, handlers[sig], sig, trampoline);
      mem := PutWords(mem, sp, Words(regs));
      ctx := sp;
      sp := (sp + WORD_MOD - 8) % WORD_MOD;
      mem := PutWord(mem, sp, trampoline);
      regs := regs.(rip := handlers[sig], rdi := sig, rsp := sp);
      pending := pending - {sig};
      active := true;
    }

    /** check_signals: on a return to ring 3 with no handler running, the lowest pending signal kills or is
        delivered. */
    method CheckSignals()
      requires Valid() && status == -1
      modifies this
      ensures old(regs.cs % 4 != 3 || active || IsLowest(pending, 0)) ==>
                regs == old(regs) && mem == old(mem) && pending == old(pending) && active == old(active)
                && ctx == old(ctx) && status == -1
      ensures old(regs.cs % 4 == 3 && !active) ==>
                forall sig :: 0 < sig < MAX_SIGS && IsLowest(old(pending), sig) ==>
                  if old(handlers)[sig] == 0 || sig == SIG_KILL
                  then status == 128 + sig && regs == old(regs) && mem == old(mem) && pending == old(pending) - {sig}
                  else if RangeOk(ContextAt(old(regs.rsp)), FRAME_BYTES + 8)
                  then regs == Entered(old(regs), old(handlers)[sig], sig)
                       && mem == Forged(old(mem), old(regs), old(trampoline))
                       && pending == old(pending) - {sig} && active && ctx == ContextAt(old(regs.rsp)) && status == -1
                  else status == 128 + SIG_SEGV && mem == old(mem) && regs == old(regs)
      ensures old(regs.cs % 4 == 3 && !active) ==>
                forall sig :: 0 < sig < 32 && IsLowest(old(pending), sig) && old(handlers)[sig] != 0 && sig != 9 ==>
                  if 0x40_0130 <= old(regs.rsp) < 0xA0_0080
                  then && status == -1 && regs.rip == old(handlers)[sig] && regs.rdi == sig
                       && regs == old(regs).(rip := regs.rip, rdi := regs.rdi, rsp := regs.rsp)
                       && regs.rsp + 8 == ctx && ctx % 16 == 0 && ctx + 304 <= old(regs.rsp) < ctx + 320
                       && FrameAt(mem, ctx, old(regs)) && regs.rsp + 8 <= |mem|
                       && Word(mem, regs.rsp) == old(trampoline)
                  else status == 139
    {
      hide Words, Forged, Entered, ContextAt, RangeOk, FrameAt, Word;
      if regs.cs % 4 != 3 {
        return;
      }
      if active {
        return;
      }
      var sig := LowestPending(pending);
      if sig == 0 {
        return;
      }
      if handlers[sig] == 0 || sig == SIG_KILL {
        pending := pending - {sig};
        status := 128 + sig;
        return;
      }
      Deliver(sig);
    }

    /** signal_sigreturn: with a handler running, the saved frame is restored with privilege and interrupts forced;
        at any other moment the caller dies. */
    method SigReturn()
      requires Valid() && status == -1
      modifies this
      ensures mem == old(mem) && pending == old(pending) && handlers == old(handlers)
      ensures if old(active) && RangeOk(old(ctx), FRAME_BYTES)
              then regs == Restored(FromWords(GetWords(mem, old(ctx), FRAME_WORDS))) && !active && ctx == 0
                   && status == -1
              else status == 128 + SIG_SEGV && regs == old(regs)
      ensures if old(active) && 0x40_0000 <= old(ctx) <= 0xA0_0000 - 176
              then && regs.cs == 0x1B && regs.ss == 0x23 && regs.rflags / 512 % 2 == 1 && regs.rflags / 2 % 2 == 1
                   && exists r: Regs ::
                        && FrameAt(mem, old(ctx), r) && regs == r.(cs := 0x1B, ss := 0x23, rflags := regs.rflags)
                        && forall k :: k != 1 && k != 9 ==> BitOf(regs.rflags, k) == BitOf(r.rflags, k)
              else status == 139
    {
      hide Words, FromWords, GetWords, FrameAt;
      if !active {
        status := 128 + SIG_SEGV;
        return;
      }
      if !RangeOk(ctx, FRAME_BYTES) {
        status := 128 + SIG_SEGV;
        return;
      }
      regs := FromWords(GetWords(mem, ctx, FRAME_WORDS));
      ghost var r := regs;
      FrameThere(mem, ctx);
      forall k: nat ensures k != 1 && k != 9 ==> BitOf(WithFlags(r.rflags), k) == BitOf(r.rflags, k) {
        FlagBits(r.rflags, k);
      }
      FlagBits(r.rflags, 1);
      regs := regs.(cs := USER_CS);
      regs := regs.(ss := USER_SS);
      regs := regs.(rflags := WithFlags(regs.rflags));
      active := false;
      ctx := 0;
    }

    /** A signal delivered to a handler that does whatever it likes to memory and registers, short of the saved area,
        and then returns through the trampoline: the program goes on exactly where it was. */
    method Interrupt(sig: nat, later: seq<Byte>, regsLater: Regs)
      requires Valid() && status == -1 && 0 < sig < MAX_SIGS && sig in pending && !active && Ring3(regs)
      requires RangeOk(ContextAt(regs.rsp), FRAME_BYTES + 8) && |later| == |mem| && Fits(Words(regsLater))
      requires regsLater.rsp < WORD_MOD
      requires var c := ContextAt(regs.rsp);
               forall x :: c <= x < c + FRAME_BYTES ==> later[x] == Forged(mem, regs, trampoline)[x]
      modifies this
      ensures regs == old(regs) && !active && status == -1 && pending == old(pending) - {sig} && mem == later
    {
      hide Words, FromWords, GetWords, Forged, ContextAt, Restored;
      RoundTrip(mem, regs, trampoline, later);
      Deliver(sig);
      mem := later;
      regs := regsLater;
      SigReturn();
    }
  }
}
