/** kernel/elf.c: checking an ELF64 executable and loading its segments into a task's tree. */
module Elf {
  import opened Bytes
  import opened Frames
  import opened PageTables
  import opened Paging

  const EHDR := 64              // sizeof(struct elf64_ehdr)
  const PHDR := 56              // sizeof(struct elf64_phdr)
  const MAX_PHNUM := 32
  const PT_LOAD := 1
  const LOAD_MIN := 0x40_0000   // USER_REGION_START
  const LOAD_MAX := 0x7C_0000   // USER_STACK_BASE

  /** One program header; the physical address and alignment fields are not read. */
  datatype Phdr = Phdr(kind: nat, flags: nat, offset: nat, vaddr: nat, filesz: nat, memsz: nat) {
    predicate Loadable() { kind == PT_LOAD }
    predicate Writable() { flags / 2 % 2 == 1 }             // PF_W
    function First(): nat { vaddr / FRAME }
    function Pages(): nat { memsz / FRAME }
    predicate Spans(page: nat, n: nat) { First() <= page < First() + n }
    predicate Covers(page: nat) { Loadable() && Spans(page, Pages()) }
  }

  function PhdrAt(file: seq<Byte>, a: nat): Phdr
    requires a + PHDR <= |file|
  {
    Phdr(LE32(file, a), LE32(file, a + 4), Word(file, a + 8), Word(file, a + 16), Word(file, a + 32),
         Word(file, a + 40))
  }

  /** range_in_file: written with a subtraction that cannot wrap. */
  predicate RangeInFile(offset: nat, length: nat, size: nat) { offset <= size && length <= size - offset }

  /** A 64-bit little-endian x86-64 executable whose program header table lies in the file. */
  predicate HeaderOk(file: seq<Byte>) {
    && |file| >= EHDR
    && file[0] == 0x7F && file[1] == 0x45 && file[2] == 0x4C && file[3] == 0x46
    && file[4] == 2 && file[5] == 1 && file[6] == 1
    && LE16(file, 18) == 62 && LE16(file, 16) == 2
    && LE16(file, 54) == PHDR && 0 < LE16(file, 56) <= MAX_PHNUM
    && RangeInFile(Word(file, 32), LE16(file, 56) * PHDR, |file|)
  }

  function Phnum(file: seq<Byte>): nat
    requires HeaderOk(file)
  {
    LE16(file, 56)
  }

  function Nth(file: seq<Byte>, i: nat): Phdr
    requires HeaderOk(file) && i < Phnum(file)
  {
    PhdrAt(file, Word(file, 32) + i * PHDR)
  }

  /** A segment's bytes are in the file, and it covers whole pages. */
  predicate SegmentOk(file: seq<Byte>, ph: Phdr) {
    RangeInFile(ph.offset, ph.filesz, |file|) && ph.filesz <= ph.memsz && ph.vaddr % FRAME == 0 && ph.memsz % FRAME == 0
  }

  /** What elf_validate accepts. */
  ghost predicate WellFormed(file: seq<Byte>) {
    && HeaderOk(file)
    && (forall i: nat :: i < Phnum(file) && Nth(file, i).Loadable() ==> SegmentOk(file, Nth(file, i)))
    && exists i: nat :: i < Phnum(file) && Nth(file, i).Loadable()
  }

  // ---------------------------------------------------------------------------
  // The file, field by field
  // ---------------------------------------------------------------------------

  /** Where program header `k` lies. */
  ghost function HeaderAt(file: seq<Byte>, k: nat): nat
    requires |file| >= 64
  {
    Word(file, 32) + 56 * k
  }

  /** Header `k` lies in the file and describes a segment to load. */
  ghost predicate IsLoad(file: seq<Byte>, k: nat) {
    |file| >= 64 && HeaderAt(file, k) + 56 <= |file| && LE32(file, HeaderAt(file, k)) == 1
  }

  /** Program header `k`, read from the file where the format puts each field. */
  lemma HeaderFields(file: seq<Byte>, k: nat)
    requires HeaderOk(file) && k < Phnum(file)
    ensures HeaderAt(file, k) + 56 <= |file|
    ensures var at, ph := HeaderAt(file, k), Nth(file, k);
            && (ph.Loadable() <==> IsLoad(file, k)) && (ph.Writable() <==> LE32(file, at + 4) / 2 % 2 == 1)
            && ph.offset == Word(file, at + 8) && ph.vaddr == Word(file, at + 16)
            && ph.filesz == Word(file, at + 32) && ph.memsz == Word(file, at + 40)
  {
    hide LE32, Word, LE16;
  }

  /** What elf_validate asks of the header. */
  lemma HeaderMeans(file: seq<Byte>)
    ensures HeaderOk(file) <==>
              && |file| >= 64 && file[0] == 0x7F && file[1] == 0x45 && file[2] == 0x4C && file[3] == 0x46
              && file[4] == 2 && file[5] == 1 && file[6] == 1 && LE16(file, 16) == 2 && LE16(file, 18) == 62
              && LE16(file, 54) == 56 && 1 <= LE16(file, 56) <= 32 && Word(file, 32) + 56 * LE16(file, 56) <= |file|
  {
    hide LE16, Word;
  }

  /** What elf_validate asks of a segment: its bytes in the file, no fewer in memory, whole pages. */
  lemma SegmentMeans(file: seq<Byte>, k: nat)
    requires HeaderOk(file) && k < Phnum(file)
    ensures HeaderAt(file, k) + 56 <= |file|
    ensures var at := HeaderAt(file, k);
            SegmentOk(file, Nth(file, k)) <==>
              && Word(file, at + 8) + Word(file, at + 32) <= |file| && Word(file, at + 32) <= Word(file, at + 40)
              && Word(file, at + 16) % 4096 == 0 && Word(file, at + 40) % 4096 == 0
  {
    hide LE32, Word, LE16, HeaderOk, PhdrAt, Phnum;
    HeaderFields(file, k);
  }

  /** elf_validate. */
  method Validate(file: seq<Byte>) returns (ok: bool)
    ensures ok <==> WellFormed(file)
    ensures ok <==>
              && |file| >= 64 && file[0] == 0x7F && file[1] == 0x45 && file[2] == 0x4C && file[3] == 0x46
              && file[4] == 2 && file[5] == 1 && file[6] == 1 && LE16(file, 16) == 2 && LE16(file, 18) == 62
              && LE16(file, 54) == 56 && 1 <= LE16(file, 56) <= 32 && Word(file, 32) + 56 * LE16(file, 56) <= |file|
              && (exists k: nat :: k < LE16(file, 56) && IsLoad(file, k))
              && forall k: nat :: k < LE16(file, 56) && IsLoad(file, k) ==>
                   var at := HeaderAt(file, k);
                   && Word(file, at + 8) + Word(file, at + 32) <= |file| && Word(file, at + 32) <= Word(file, at + 40)
                   && Word(file, at + 16) % 4096 == 0 && Word(file, at + 40) % 4096 == 0
  {
    hide PhdrAt, LE16, LE32, Word;
    HeaderMeans(file);
    if !HeaderOk(file) {
      return false;
    }
    forall k: nat | k < Phnum(file)
      ensures && HeaderAt(file, k) + 56 <= |file| && (Nth(file, k).Loadable() <==> IsLoad(file, k))
              && (SegmentOk(file, Nth(file, k)) <==>
                    var at := HeaderAt(file, k);
                    && Word(file, at + 8) + Word(file, at + 32) <= |file| && Word(file, at + 32) <= Word(file, at + 40)
                    && Word(file, at + 16) % 4096 == 0 && Word(file, at + 40) % 4096 == 0)
    {
      HeaderFields(file, k);
      SegmentMeans(file, k);
    }
    var loadable := 0;
    var i := 0;
    while i < Phnum(file)
      invariant 0 <= i <= Phnum(file) && loadable >= 0
      invariant forall j: nat :: j < i && Nth(file, j).Loadable() ==> SegmentOk(file, Nth(file, j))
      invariant loadable > 0 <==> exists j: nat :: j < i && Nth(file, j).Loadable()
    {
      var ph := Nth(file, i);
      if ph.kind == PT_LOAD {
        loadable := loadable + 1;
        if !RangeInFile(ph.offset, ph.filesz, |file|) {
          return false;
        }
        if ph.memsz < ph.filesz {
          return false;
        }
        if ph.vaddr % FRAME != 0 || ph.memsz % FRAME != 0 {
          return false;
        }
      }
      i := i + 1;
    }
    ok := loadable != 0;
  }

  // ---------------------------------------------------------------------------
  // The memory image
  // ---------------------------------------------------------------------------

  /** Byte `j` of the segment's memory: from the file, then zero. */
  function SegmentByte(file: seq<Byte>, ph: Phdr, j: nat): Byte
    requires SegmentOk(file, ph)
  {
    if j < ph.filesz then file[ph.offset + j] else 0
  }

  /** The page of the segment that starts at its byte `at`. */
  function PageFrom(file: seq<Byte>, ph: Phdr, at: nat): (s: seq<Byte>)
    requires SegmentOk(file, ph)
    ensures |s| == FRAME
  {
    seq<Byte>(FRAME, j requires 0 <= j < FRAME => SegmentByte(file, ph, at + j))
  }

  /** Page `k` of the segment. */
  function SegmentPage(file: seq<Byte>, ph: Phdr, k: nat): (s: seq<Byte>)
    requires SegmentOk(file, ph)
  {
    PageFrom(file, ph, k * FRAME)
  }

  datatype PageImage = PageImage(bytes: seq<Byte>, writable: bool)

  ghost function SegmentImage(file: seq<Byte>, ph: Phdr, n: nat): map<nat, PageImage>
    requires SegmentOk(file, ph)
  {
    map q: nat | ph.First() <= q < ph.First() + n
    && ph.Spans(q, n) :: PageImage(SegmentPage(file, ph, q - ph.First()), ph.Writable())
  }

  /** The pages described by the first `i` program headers, later segments over earlier ones. */
  ghost function Image(file: seq<Byte>, i: nat): map<nat, PageImage>
    requires WellFormed(file) && i <= Phnum(file)
  {
    if i == 0 then map[]
    else
      var ph := Nth(file, i - 1);
      if ph.Loadable() then Image(file, i - 1) + SegmentImage(file, ph, ph.Pages()) else Image(file, i - 1)
  }

  /** A page shows the last segment that covers it. */
  lemma {:induction false} ImageLast(file: seq<Byte>, i: nat, k: nat, page: nat)
    requires WellFormed(file) && k < i <= Phnum(file) && Nth(file, k).Covers(page)
    requires forall j: nat :: k < j < i ==> !Nth(file, j).Covers(page)
    ensures page in Image(file, i)
    ensures Image(file, i)[page] ==
            PageImage(SegmentPage(file, Nth(file, k), page - Nth(file, k).First()), Nth(file, k).Writable())
  {
    hide PhdrAt, SegmentPage;
    if k < i - 1 {
      ImageLast(file, i - 1, k, page);
      assert !Nth(file, i - 1).Covers(page);
    }
  }

  /** A page no segment covers is not in the image. */
  lemma {:induction false} ImageOnly(file: seq<Byte>, i: nat, page: nat)
    requires WellFormed(file) && i <= Phnum(file) && page in Image(file, i)
    ensures exists k: nat :: k < i && Nth(file, k).Covers(page)
  {
    hide PhdrAt, SegmentPage;
    if Nth(file, i - 1).Covers(page) {
    } else {
      ImageOnly(file, i - 1, page);
    }
  }

  // ---------------------------------------------------------------------------
  // Loading
  // ---------------------------------------------------------------------------

  /** Tree `h` holds the image `img` in frames that were free, and is otherwise as it was. */
  ghost predicate Loaded(a: Space, b: Space, h: nat, img: map<nat, PageImage>) {
    && h in a.trees && h in b.trees && a.used <= b.used
    && OnlyTree(a.trees, b.trees, h)
    && (forall q :: q in img ==> Shows(b, h, q, img[q]) && b.trees[h].leaves[q].frame !in a.used)
    && SameOutside(a.trees[h].leaves, b.trees[h].leaves, img.Keys)
    && PagesKept(a.pages, b.pages, a.used)
  }

  ghost predicate SameOutside(before: map<nat, Leaf>, after: map<nat, Leaf>, S: set<nat>) {
    && (forall q :: q !in S ==> (q in after <==> q in before))
    && (forall q :: q !in S && q in before ==> after[q] == before[q])
  }

  lemma SameOutsideStep(before: map<nat, Leaf>, after: map<nat, Leaf>, S: set<nat>, q: nat, l: Leaf)
    requires SameOutside(before, after, S)
    ensures SameOutside(before, after[q := l], S + {q})
  {
  }

  /** Trees other than `h` are as they were, and `h` keeps its upper tables. */
  ghost predicate OnlyTree(before: Trees, after: Trees, h: nat)
    requires h in before && h in after
  {
    after == before[h := before[h].(pts := after[h].pts, leaves := after[h].leaves)]
  }

  lemma OnlyTreeStep(trees0: Trees, trees1: Trees, trees2: Trees, h: nat)
    requires h in trees0 && h in trees1 && h in trees2 && OnlyTree(trees0, trees1, h) && OnlyTree(trees1, trees2, h)
    ensures OnlyTree(trees0, trees2, h)
  {
  }

  /** Page `q` of tree `h` reads as `im` says. */
  ghost predicate Shows(b: Space, h: nat, q: nat, im: PageImage) {
    && h in b.trees && q in b.trees[h].leaves
    && b.trees[h].leaves[q].writable == im.writable
    && b.trees[h].leaves[q].frame in b.used && b.trees[h].leaves[q].frame in b.pages
    && b.pages[b.trees[h].leaves[q].frame] == im.bytes
  }

  lemma LoadedNone(a: Space, h: nat)
    requires h in a.trees
    ensures Loaded(a, a, h, map[])
  {
    assert a.trees == a.trees[h := a.trees[h]];
  }

  /** One more page put in place. */
  lemma LoadStep(a: Space, b: Space, c: Space, h: nat, img: map<nat, PageImage>, q: nat, im: PageImage, frame: nat)
    requires Loaded(a, b, h, img) && frame !in b.used && h in c.trees && frame in c.used && b.used <= c.used
    requires c.trees == b.trees[h := b.trees[h].(pts := c.trees[h].pts,
                                                 leaves := b.trees[h].leaves[q := Leaf(frame, im.writable)])]
    requires c.pages == b.pages[frame := im.bytes]
    ensures Loaded(a, c, h, img[q := im])
  {
    hide Shows, OnlyTree, SameOutside;
    SameOutsideStep(a.trees[h].leaves, b.trees[h].leaves, img.Keys, q, Leaf(frame, im.writable));
    assert img[q := im].Keys == img.Keys + {q};
    assert OnlyTree(b.trees, c.trees, h) by {
      OnlyTreeOf(b.trees, c.trees, h, b.trees[h].leaves[q := Leaf(frame, im.writable)]);
    }
    OnlyTreeStep(a.trees, b.trees, c.trees, h);
    forall r | r in img ensures r in b.trees[h].leaves {
      ShowsTree(b, h, r, img[r]);
    }
    forall r | r in img && r != q ensures Shows(c, h, r, img[r]) && c.trees[h].leaves[r].frame !in a.used {
      ShowsKept(b, c, h, r, img[r], frame);
    }
    assert Shows(c, h, q, im) by { ShowsNew(c, h, q, im, frame); }
  }

  lemma OnlyTreeOf(before: Trees, after: Trees, h: nat, leaves: map<nat, Leaf>)
    requires h in before && h in after && after == before[h := before[h].(pts := after[h].pts, leaves := leaves)]
    ensures OnlyTree(before, after, h)
  {
  }

  lemma ShowsKept(b: Space, c: Space, h: nat, r: nat, im: PageImage, frame: nat)
    requires Shows(b, h, r, im) && frame !in b.used && b.used <= c.used && h in c.trees
    requires r in c.trees[h].leaves && c.trees[h].leaves[r] == b.trees[h].leaves[r]
    requires forall x :: x in b.pages && x != frame ==> x in c.pages && c.pages[x] == b.pages[x]
    ensures Shows(c, h, r, im) && r in b.trees[h].leaves
  {
  }

  lemma ShowsNew(c: Space, h: nat, q: nat, im: PageImage, frame: nat)
    requires h in c.trees && q in c.trees[h].leaves && c.trees[h].leaves[q] == Leaf(frame, im.writable)
    requires frame in c.used && frame in c.pages && c.pages[frame] == im.bytes
    ensures Shows(c, h, q, im)
  {
  }

  lemma LoadTried(a: Space, b: Space, c: Space, h: nat, img: map<nat, PageImage>, frame: nat, bytes: seq<Byte>)
    requires Loaded(a, b, h, img) && frame !in b.used && b.used <= c.used && c.trees == b.trees
    requires c.pages == b.pages[frame := bytes]
    ensures Loaded(a, c, h, img)
  {
    hide Shows;
    forall r | r in img ensures Shows(c, h, r, img[r]) {
      ShowsTree(b, h, r, img[r]);
      ShowsKept(b, c, h, r, img[r], frame);
    }
  }

  lemma ShowsTree(b: Space, h: nat, r: nat, im: PageImage)
    requires Shows(b, h, r, im)
    ensures h in b.trees && r in b.trees[h].leaves
  {
  }

  /** The bytes put into a frame: zeros, with the part the file supplies copied over the start. */
  function FillPage(file: seq<Byte>, ph: Phdr, page: nat): (s: seq<Byte>)
    requires SegmentOk(file, ph)
  {
    if page < ph.filesz then
      var remaining := ph.filesz - page;
      var chunk := if remaining < FRAME then remaining else FRAME;
      Splice(Zeros(FRAME), 0, file[ph.offset + page..ph.offset + page + chunk])
    else Zeros(FRAME)
  }

  lemma FillIsPage(file: seq<Byte>, ph: Phdr, page: nat)
    requires SegmentOk(file, ph)
    ensures FillPage(file, ph, page) == PageFrom(file, ph, page)
  {
    hide SegmentOk, Splice;
    SegmentInFile(file, ph);
    var s := FillPage(file, ph, page);
    forall j | 0 <= j < FRAME ensures |s| == FRAME && s[j] == SegmentByte(file, ph, page + j) {
      if page < ph.filesz {
        var chunk := if ph.filesz - page < FRAME then ph.filesz - page else FRAME;
        var part := file[ph.offset + page..ph.offset + page + chunk];
        assert |part| == chunk && s == Splice(Zeros(FRAME), 0, part);
        SpliceAt(Zeros(FRAME), part, j);
        assert j < chunk ==> part[j] == file[ph.offset + page + j];
      }
    }
  }

  lemma SpliceAt(z: seq<Byte>, part: seq<Byte>, j: nat)
    requires |part| <= |z| && j < |z|
    ensures Splice(z, 0, part)[j] == if j < |part| then part[j] else z[j]
  {
  }

  lemma SegmentInFile(file: seq<Byte>, ph: Phdr)
    requires SegmentOk(file, ph)
    ensures ph.offset + ph.filesz <= |file|
  {
  }

  /** One page of load_segment. It succeeds exactly when there is a frame for the page and one for its table if that is
      missing. When it fails no frame is left, and the last one, if there was one, belongs to nothing. */
  method LoadPage(P: Paging, h: nat, file: seq<Byte>, ph: Phdr, k: nat, ghost a: Space,
                  ghost img: map<nat, PageImage>) returns (ok: bool)
    requires P.Valid() && SegmentOk(file, ph) && Loaded(a, P.Now(), h, img) && UserPage(ph.First() + k)
    modifies P, P.pool.bitmap
    ensures P.Valid()
    ensures ok ==> Loaded(a, P.Now(), h, img[ph.First() + k := PageImage(SegmentPage(file, ph, k), ph.Writable())])
    ensures !ok ==> Loaded(a, P.Now(), h, img) && P.trees == old(P.trees) && P.Room() == 0
    ensures h in old(P.trees) && (ok <==> old(P.Room()) >= 1 + Missing(old(P.trees)[h].pts, (ph.First() + k) / SLOTS))
    ensures ok ==> h in P.trees && P.trees[h].pts.Keys == old(P.trees)[h].pts.Keys + {(ph.First() + k) / SLOTS}
    ensures ok ==> P.Room() == old(P.Room()) - 1 - Missing(old(P.trees)[h].pts, (ph.First() + k) / SLOTS)
    ensures !ok ==>
              || old(P.Room()) == 0
              || (old(P.Room()) == 1 && exists x :: P.IsLoose(x) && P.pool.Used() == old(P.pool.Used()) + {x})
  {
    hide Paging.Valid, FramePool.Used, Loaded, PageFrom, FillPage, TableAdded, SegmentOk, Paging.Room, Loose;
    P.PoolOk();
    P.RoomLeft();
    LoadedIn(a, P.Now(), h, img);
    ghost var b := P.Now();
    var frame := P.TakeFrame();
    P.RoomLeft();
    if frame == 0 {
      return false;
    }
    var bytes := FillPage(file, ph, k * FRAME);
    FillIsPage(file, ph, k * FRAME);
    P.pages := P.pages[frame := bytes];
    ghost var used1 := P.pool.Used();
    ok := P.MapPage(h, ph.First() + k, frame, ph.Writable());
    if !ok {
      LoadTried(a, b, P.Now(), h, img, frame, bytes);
      P.StillLoose(used1, frame);
      return;
    }
    AddedUsed(b.trees[h].pts, P.trees[h].pts, (ph.First() + k) / SLOTS, used1, P.pool.Used());
    AddedKeys(b.trees[h].pts, P.trees[h].pts, (ph.First() + k) / SLOTS, used1, P.pool.Used());
    LoadStep(a, b, P.Now(), h, img, ph.First() + k, PageImage(bytes, ph.Writable()), frame);
  }

  lemma AddedUsed(pts: map<nat, nat>, pts': map<nat, nat>, s: nat, used: set<nat>, used': set<nat>)
    requires TableAdded(pts, pts', s, used, used')
    ensures used <= used'
  {
  }

  lemma AddedKeys(pts: map<nat, nat>, pts': map<nat, nat>, s: nat, used: set<nat>, used': set<nat>)
    requires TableAdded(pts, pts', s, used, used') && s in pts'
    ensures pts'.Keys == pts.Keys + {s}
  {
  }

  // ---------------------------------------------------------------------------
  // What a load costs
  // ---------------------------------------------------------------------------

  /** The 2 MiB slots pages of the image lie in. */
  ghost function SlotsOf(img: map<nat, PageImage>): set<nat> { set q | q in img :: q / SLOTS }

  /** The frames that putting `c` pages in place takes, when the image they make is `img` and the slots `S` had
      their page tables before: one a page, one a table. */
  ghost function Bill(S: set<nat>, c: nat, img: map<nat, PageImage>): nat { c + |SlotsOf(img) - S| }

  /** So far it has cost that. */
  ghost predicate Billed(pts: map<nat, nat>, room: int, S: set<nat>, R: int, c: nat, img: map<nat, PageImage>) {
    pts.Keys == S + SlotsOf(img) && room == R - Bill(S, c, img)
  }

  lemma BillStep(S: set<nat>, c: nat, img: map<nat, PageImage>, q: nat, x: PageImage)
    ensures SlotsOf(img[q := x]) == SlotsOf(img) + {q / SLOTS}
    ensures Bill(S, c + 1, img[q := x]) == Bill(S, c, img) + 1 + if q / SLOTS in S + SlotsOf(img) then 0 else 1
  {
    hide SlotsOf;
    SlotsMore(img, q, x);
    OneMore(SlotsOf(img), S, q / SLOTS);
  }

  lemma SlotsMore(img: map<nat, PageImage>, q: nat, x: PageImage)
    ensures SlotsOf(img[q := x]) == SlotsOf(img) + {q / SLOTS}
  {
    var img', r := img[q := x], q / SLOTS;
    forall s | s in SlotsOf(img) + {r} ensures s in SlotsOf(img') {
      if s in SlotsOf(img) {
        var p :| p in img && p / SLOTS == s;
        assert p in img';
      } else {
        assert q in img';
      }
    }
    forall s | s in SlotsOf(img') ensures s in SlotsOf(img) + {r} {
      var p :| p in img' && p / SLOTS == s;
      assert p == q || p in img;
    }
  }

  lemma OneMore(A: set<nat>, S: set<nat>, r: nat)
    ensures |(A + {r}) - S| == |A - S| + if r in S + A then 0 else 1
  {
    if r in S + A {
      assert (A + {r}) - S == A - S;
    } else {
      assert (A + {r}) - S == (A - S) + {r};
    }
  }

  lemma BillMore(S: set<nat>, c: nat, img: map<nat, PageImage>, c': nat, img': map<nat, PageImage>)
    requires c <= c' && img.Keys <= img'.Keys
    ensures Bill(S, c, img) <= Bill(S, c', img')
  {
    forall s | s in SlotsOf(img) ensures s in SlotsOf(img') {
      var p :| p in img && p / SLOTS == s;
      assert p in img';
    }
    Fewer(SlotsOf(img) - S, SlotsOf(img') - S);
  }

  lemma {:induction false} Fewer(A: set<nat>, B: set<nat>)
    requires A <= B
    ensures |A| <= |B|
    decreases |A|
  {
    if A != {} {
      var x :| x in A;
      Fewer(A - {x}, B - {x});
    }
  }

  /** The pages of the first `i` segments, those that overlap counted each time. */
  ghost function PagesOf(file: seq<Byte>, i: nat): nat
    requires HeaderOk(file) && i <= Phnum(file)
  {
    if i == 0 then 0
    else PagesOf(file, i - 1) + if Nth(file, i - 1).Loadable() then Nth(file, i - 1).Pages() else 0
  }

  lemma {:induction false} ImageGrows(file: seq<Byte>, i: nat, j: nat)
    requires WellFormed(file) && i <= j <= Phnum(file)
    ensures PagesOf(file, i) <= PagesOf(file, j) && Image(file, i).Keys <= Image(file, j).Keys
    decreases j
  {
    hide HeaderOk, PhdrAt, SegmentOk, SegmentImage;
    if i < j {
      ImageGrows(file, i, j - 1);
    }
  }

  lemma LoadedIn(a: Space, b: Space, h: nat, img: map<nat, PageImage>)
    requires Loaded(a, b, h, img)
    ensures h in a.trees && h in b.trees
  {
  }

  /** load_segment: the whole segment is in place, or the load stops with the pages placed so far. Nothing is mapped
      outside the window a program may occupy. With `c` pages loaded before it, onto a tree that had the tables of slots
      `S` and with `R` frames free, it succeeds exactly when it lies in the window and the frames suffice. */
  method LoadSegment(P: Paging, h: nat, file: seq<Byte>, ph: Phdr, ghost a: Space, ghost img: map<nat, PageImage>,
                     ghost S: set<nat>, ghost R: int, ghost c: nat)
    returns (ok: bool, ghost n: nat)
    requires P.Valid() && SegmentOk(file, ph) && ph.vaddr < WORD_MOD && ph.memsz < WORD_MOD
    requires Loaded(a, P.Now(), h, img)
    requires h in P.trees && Billed(P.trees[h].pts, P.Room(), S, R, c, img)
    modifies P, P.pool.bitmap
    ensures P.Valid() && n <= ph.Pages() && Loaded(a, P.Now(), h, img + SegmentImage(file, ph, n))
    ensures n > 0 ==> InWindow(ph)
    ensures ok ==> InWindow(ph) && n == ph.Pages()
    ensures !InWindow(ph) ==> !ok && P.Now() == old(P.Now())
    ensures ok <==> InWindow(ph) && R >= Bill(S, c + ph.Pages(), img + SegmentImage(file, ph, ph.Pages()))
    ensures ok ==> h in P.trees
                   && Billed(P.trees[h].pts, P.Room(), S, R, c + ph.Pages(), img + SegmentImage(file, ph, ph.Pages()))
  {
    hide Paging.Valid, FramePool.Used, Loaded, PageFrom, SegmentOk, Paging.Room, Bill, SlotsOf, SegmentImage;
    P.PoolOk();
    var start := ph.vaddr;
    var end := (ph.vaddr + ph.memsz) % WORD_MOD;
    WindowTest(ph, end);
    ImageNone(file, ph, img);
    n := 0;
    if end < start {
      return false, n;
    }
    if start < LOAD_MIN || end > LOAD_MAX {
      return false, n;
    }
    var k := 0;
    while k < ph.Pages()
      invariant 0 <= k <= ph.Pages() && n == k && P.Valid()
      invariant Loaded(a, P.Now(), h, img + SegmentImage(file, ph, k))
      invariant h in P.trees && Billed(P.trees[h].pts, P.Room(), S, R, c + k, img + SegmentImage(file, ph, k))
    {
      ok := LoadNext(P, h, file, ph, k, a, img, S, R, c);
      if !ok {
        return false, n;
      }
      k := k + 1;
      n := k;
    }
    P.RoomLeft();
    ok := true;
  }

  /** Its loop body: one more page in place and paid for, or not enough frames for the segment. */
  method LoadNext(P: Paging, h: nat, file: seq<Byte>, ph: Phdr, k: nat, ghost a: Space, ghost img: map<nat, PageImage>,
                  ghost S: set<nat>, ghost R: int, ghost c: nat)
    returns (ok: bool)
    requires P.Valid() && SegmentOk(file, ph) && InWindow(ph) && k < ph.Pages()
    requires Loaded(a, P.Now(), h, img + SegmentImage(file, ph, k))
    requires h in P.trees && Billed(P.trees[h].pts, P.Room(), S, R, c + k, img + SegmentImage(file, ph, k))
    modifies P, P.pool.bitmap
    ensures P.Valid() && h in P.trees
    ensures ok ==> Loaded(a, P.Now(), h, img + SegmentImage(file, ph, k + 1))
                   && Billed(P.trees[h].pts, P.Room(), S, R, c + k + 1, img + SegmentImage(file, ph, k + 1))
    ensures !ok ==> Loaded(a, P.Now(), h, img + SegmentImage(file, ph, k))
                    && R < Bill(S, c + ph.Pages(), img + SegmentImage(file, ph, ph.Pages()))
  {
    hide Paging.Valid, FramePool.Used, Loaded, PageFrom, SegmentOk, Paging.Room, Bill, SlotsOf, SegmentImage;
    WindowPages(file, ph, k);
    ImageMore(file, ph, img, k);
    ghost var img' := img + SegmentImage(file, ph, k);
    BillStep(S, c + k, img', ph.First() + k, PageImage(SegmentPage(file, ph, k), ph.Writable()));
    ok := LoadPage(P, h, file, ph, k, a, img');
    if !ok {
      SegmentGrows(file, ph, img, k + 1);
      BillMore(S, c + k + 1, img + SegmentImage(file, ph, k + 1), c + ph.Pages(),
               img + SegmentImage(file, ph, ph.Pages()));
    }
  }

  lemma SegmentGrows(file: seq<Byte>, ph: Phdr, img: map<nat, PageImage>, k: nat)
    requires SegmentOk(file, ph) && k <= ph.Pages()
    ensures (img + SegmentImage(file, ph, k)).Keys <= (img + SegmentImage(file, ph, ph.Pages())).Keys
  {
    hide PageFrom, SegmentPage;
  }

  /** The segment lies between the bottom of the program window and the stack. */
  ghost predicate InWindow(ph: Phdr) { LOAD_MIN <= ph.vaddr && ph.vaddr + ph.memsz <= LOAD_MAX }

  lemma WindowTest(ph: Phdr, end: nat)
    requires ph.vaddr < WORD_MOD && ph.memsz < WORD_MOD && end == (ph.vaddr + ph.memsz) % WORD_MOD
    ensures InWindow(ph) <==> end >= ph.vaddr && ph.vaddr >= LOAD_MIN && end <= LOAD_MAX
  {
    if ph.vaddr + ph.memsz < WORD_MOD {
      assert end == ph.vaddr + ph.memsz;
    } else {
      assert end == ph.vaddr + ph.memsz - WORD_MOD;
    }
  }

  lemma WindowPages(file: seq<Byte>, ph: Phdr, k: nat)
    requires SegmentOk(file, ph) && InWindow(ph) && k < ph.Pages()
    ensures UserPage(ph.First() + k) && LOAD_MIN / FRAME <= ph.First() + k < LOAD_MAX / FRAME
  {
    assert ph.vaddr == ph.First() * FRAME && ph.memsz == ph.Pages() * FRAME;
  }

  lemma ImageNone(file: seq<Byte>, ph: Phdr, img: map<nat, PageImage>)
    requires SegmentOk(file, ph)
    ensures img + SegmentImage(file, ph, 0) == img
  {
  }

  lemma ImageMore(file: seq<Byte>, ph: Phdr, img: map<nat, PageImage>, k: nat)
    requires SegmentOk(file, ph)
    ensures (img + SegmentImage(file, ph, k))[ph.First() + k := PageImage(SegmentPage(file, ph, k), ph.Writable())] ==
            img + SegmentImage(file, ph, k + 1)
  {
    hide PageFrom;
  }

  /** All loadable segments lie in the program's window. */
  ghost predicate AllInWindow(file: seq<Byte>, i: nat)
    requires HeaderOk(file) && i <= Phnum(file)
  {
    forall j: nat :: j < i && Nth(file, j).Loadable() ==> InWindow(Nth(file, j))
  }

  /** elf_load: it succeeds exactly when the file is well formed, its segments lie in the window and as many frames
      are free as their pages and the page tables they lack take; then the tree holds exactly the image the file
      describes. On failure the tree is still a sound tree, with some of the image in it. */
  method Load(P: Paging, h: nat, file: seq<Byte>) returns (ok: bool, entry: nat)
    requires P.Valid() && h in P.trees
    modifies P, P.pool.bitmap
    ensures P.Valid() && h in P.trees
    ensures ok ==> WellFormed(file) && AllInWindow(file, Phnum(file)) && entry == Word(file, 24)
                   && Loaded(old(P.Now()), P.Now(), h, Image(file, Phnum(file)))
    ensures ok <==> WellFormed(file) && AllInWindow(file, Phnum(file))
                    && old(P.Room()) >=
                       Bill(old(P.trees)[h].pts.Keys, PagesOf(file, Phnum(file)), Image(file, Phnum(file)))
    ensures !WellFormed(file) ==> !ok && P.Now() == old(P.Now())
    ensures !ok ==>
              exists img :: Loaded(old(P.Now()), P.Now(), h, img)
                            && forall q :: q in img ==> LOAD_MIN / FRAME <= q < LOAD_MAX / FRAME
  {
    hide Paging.Valid, FramePool.Used, Loaded, PageFrom, SegmentOk, HeaderOk, PhdrAt, SegmentImage, Paging.Room, Bill,
         SlotsOf;
    P.PoolOk();
    ghost var a := P.Now();
    LoadedNone(a, h);
    ghost var S, R := P.trees[h].pts.Keys, P.Room();
    BillNone(S);
    entry := 0;
    var valid := Validate(file);
    if !valid {
      return false, entry;
    }
    var i := 0;
    while i < Phnum(file)
      invariant 0 <= i <= Phnum(file) && P.Valid() && AllInWindow(file, i)
      invariant Loaded(a, P.Now(), h, Image(file, i))
      invariant h in P.trees && Billed(P.trees[h].pts, P.Room(), S, R, PagesOf(file, i), Image(file, i))
    {
      var ph := Nth(file, i);
      if ph.kind == PT_LOAD {
        ghost var img := Image(file, i);
        ghost var n;
        NthSmall(file, i);
        ok, n := LoadSegment(P, h, file, ph, a, img, S, R, PagesOf(file, i));
        ImageGrows(file, i + 1, Phnum(file));
        BillMore(S, PagesOf(file, i + 1), Image(file, i + 1), PagesOf(file, Phnum(file)), Image(file, Phnum(file)));
        if !ok {
          PartialWindow(file, i, n);
          LoadedIn(a, P.Now(), h, img + SegmentImage(file, ph, n));
          return false, entry;
        }
      }
      i := i + 1;
    }
    LoadedIn(a, P.Now(), h, Image(file, i));
    HeaderSize(file);
    P.RoomLeft();
    entry := Word(file, 24);
    ok := true;
  }

  lemma BillNone(S: set<nat>)
    ensures SlotsOf(map[]) == {} && Bill(S, 0, map[]) == 0
  {
    assert SlotsOf(map[]) - S == {};
  }

  lemma HeaderSize(file: seq<Byte>)
    requires HeaderOk(file)
    ensures |file| >= EHDR
  {
  }

  lemma NthSmall(file: seq<Byte>, i: nat)
    requires HeaderOk(file) && i < Phnum(file)
    ensures Nth(file, i).vaddr < WORD_MOD && Nth(file, i).memsz < WORD_MOD
  {
  }

  lemma {:induction false} ImageWindow(file: seq<Byte>, i: nat, q: nat)
    requires WellFormed(file) && i <= Phnum(file) && AllInWindow(file, i) && q in Image(file, i)
    ensures LOAD_MIN / FRAME <= q < LOAD_MAX / FRAME
  {
    hide PhdrAt, PageFrom, HeaderOk;
    ImageOnly(file, i, q);
    var k: nat :| k < i && Nth(file, k).Covers(q);
    WindowPages(file, Nth(file, k), q - Nth(file, k).First());
  }

  lemma PartialWindow(file: seq<Byte>, i: nat, n: nat)
    requires WellFormed(file) && i < Phnum(file) && AllInWindow(file, i) && Nth(file, i).Loadable()
    requires n <= Nth(file, i).Pages()
    requires n > 0 ==> InWindow(Nth(file, i))
    ensures forall q :: q in Image(file, i) + SegmentImage(file, Nth(file, i), n) ==>
              LOAD_MIN / FRAME <= q < LOAD_MAX / FRAME
  {
    hide PhdrAt, PageFrom, HeaderOk, Image;
    var ph := Nth(file, i);
    forall q | q in Image(file, i) + SegmentImage(file, ph, n) ensures LOAD_MIN / FRAME <= q < LOAD_MAX / FRAME {
      if q in SegmentImage(file, ph, n) {
        WindowPages(file, ph, q - ph.First());
      } else {
        ImageWindow(file, i, q);
      }
    }
  }

  /** What ring 3 sees after a load into an empty tree: exactly the image, page by page, writable where the last
      segment covering the page is, and nothing else; all of it between the bottom of the program window and the stack.
      */
  lemma ImageSeen(P: Paging, a: Space, h: nat, file: seq<Byte>, page: nat)
    requires P.Valid() && WellFormed(file) && Loaded(a, P.Now(), h, Image(file, Phnum(file))) && page < PAGES
    requires h in a.trees && a.trees[h].leaves == map[] && AllInWindow(file, Phnum(file))
    ensures Walk(P.tables, h, page).Access? <==> page in Image(file, Phnum(file))
    ensures Walk(P.tables, h, page).Access? ==> LOAD_MIN / FRAME <= page < LOAD_MAX / FRAME
    ensures page in Image(file, Phnum(file)) ==>
              var w, im := Walk(P.tables, h, page), Image(file, Phnum(file))[page];
              w.writable == im.writable && w.frame in P.pages && P.pages[w.frame] == im.bytes
  {
    hide FramePool.Used, HeaderOk, Image, Walk, Ownership, Spells, Neat, AllInWindow, InWindow;
    if page in Image(file, Phnum(file)) {
      ImageWindow(file, Phnum(file), page);
    }
    LoadedIn(a, P.Now(), h, Image(file, Phnum(file)));
    WalkIsTree(P.tables, P.boot, P.trees[h], page);
  }

  /** Program header `k` describes a segment that covers page `q`. */
  ghost predicate CoveredBy(file: seq<Byte>, k: nat, q: nat) {
    && IsLoad(file, k)
    && var at := HeaderAt(file, k);
       Word(file, at + 16) <= q * 4096 < Word(file, at + 16) + Word(file, at + 40)
  }

  /** The last program header that does. */
  ghost predicate LastCover(file: seq<Byte>, k: nat, q: nat) {
    && |file| >= 64 && k < LE16(file, 56) && CoveredBy(file, k, q)
    && forall j: nat :: k < j < LE16(file, 56) ==> !CoveredBy(file, j, q)
  }

  lemma CoverMeans(file: seq<Byte>, k: nat, q: nat)
    requires WellFormed(file) && k < Phnum(file)
    ensures CoveredBy(file, k, q) <==> Nth(file, k).Covers(q)
  {
    hide LE32, Word, LE16, HeaderOk, PhdrAt, Phnum;
    HeaderFields(file, k);
    var ph := Nth(file, k);
    if ph.Loadable() {
      assert SegmentOk(file, ph);
      assert ph.vaddr == ph.First() * FRAME && ph.memsz == ph.Pages() * FRAME;
    }
  }

  /** A page of the image, from the bytes of the file. */
  lemma ImageRaw(file: seq<Byte>, k: nat, q: nat)
    requires WellFormed(file) && LastCover(file, k, q)
    ensures HeaderAt(file, k) + 56 <= |file| && q in Image(file, Phnum(file))
    ensures var at, im := HeaderAt(file, k), Image(file, Phnum(file))[q];
            && (im.writable <==> LE32(file, at + 4) / 2 % 2 == 1) && |im.bytes| == 4096
            && Word(file, at + 16) <= q * 4096 && Word(file, at + 8) + Word(file, at + 32) <= |file|
            && forall j :: 0 <= j < 4096 ==>
                 var x := q * 4096 + j - Word(file, at + 16);
                 im.bytes[j] == if x < Word(file, at + 32) then file[Word(file, at + 8) + x] else 0
  {
    hide LE32, Word, LE16, HeaderOk, PhdrAt, Image, CoveredBy, Nth;
    Headers(file);
    HeaderFields(file, k);
    SegmentMeans(file, k);
    forall j: nat | k <= j < Phnum(file) ensures CoveredBy(file, j, q) <==> Nth(file, j).Covers(q) {
      CoverMeans(file, j, q);
    }
    ImageLast(file, Phnum(file), k, q);
    PageRaw(file, Nth(file, k), q);
  }

  lemma PageRaw(file: seq<Byte>, ph: Phdr, q: nat)
    requires SegmentOk(file, ph) && ph.First() <= q
    ensures ph.vaddr <= q * 4096 && ph.offset + ph.filesz <= |file|
    ensures var s := SegmentPage(file, ph, q - ph.First());
            |s| == 4096 && forall j :: 0 <= j < 4096 ==>
              var x := q * 4096 + j - ph.vaddr;
              s[j] == if x < ph.filesz then file[ph.offset + x] else 0
  {
    assert ph.vaddr == ph.First() * FRAME;
    var at := (q - ph.First()) * FRAME;
    var s := SegmentPage(file, ph, q - ph.First());
    assert at == q * 4096 - ph.vaddr;
    forall j | 0 <= j < 4096 ensures s[j] == SegmentByte(file, ph, q * 4096 + j - ph.vaddr) {
      assert PageFrom(file, ph, at)[j] == SegmentByte(file, ph, at + j);
    }
  }

  /** Where elf_load lets segments lie: between the bottom of the ring-3 region and the stack. */
  lemma WindowMeans(file: seq<Byte>)
    requires HeaderOk(file)
    ensures AllInWindow(file, Phnum(file)) <==>
              forall k: nat :: k < LE16(file, 56) && IsLoad(file, k) ==>
                var at := HeaderAt(file, k);
                0x40_0000 <= Word(file, at + 16) && Word(file, at + 16) + Word(file, at + 40) <= 0x7C_0000
  {
    hide LE32, Word, LE16, HeaderOk, PhdrAt, Nth;
    Headers(file);
    forall k: nat | k < Phnum(file)
      ensures HeaderAt(file, k) + 56 <= |file| && (Nth(file, k).Loadable() <==> IsLoad(file, k))
              && Nth(file, k).vaddr == Word(file, HeaderAt(file, k) + 16)
              && Nth(file, k).memsz == Word(file, HeaderAt(file, k) + 40)
    {
      HeaderFields(file, k);
    }
  }

  lemma Headers(file: seq<Byte>)
    requires HeaderOk(file)
    ensures |file| >= 64 && Phnum(file) == LE16(file, 56)
  {
  }

  /** After a load into an empty tree ring 3 sees the file: a page is there exactly when some segment covers it; the
      last one that does says whether it is writable; its bytes are those of the file, and zero past them. */
  lemma FileSeen(P: Paging, a: Space, h: nat, file: seq<Byte>, q: nat)
    requires P.Valid() && WellFormed(file) && Loaded(a, P.Now(), h, Image(file, Phnum(file))) && q < PAGES
    requires h in a.trees && a.trees[h].leaves == map[] && AllInWindow(file, Phnum(file))
    ensures |file| >= 64
    ensures Walk(P.tables, h, q).Access? <==> exists k: nat :: k < LE16(file, 56) && CoveredBy(file, k, q)
    ensures forall k: nat :: LastCover(file, k, q) ==>
              var w, at := Walk(P.tables, h, q), HeaderAt(file, k);
              && w.Access? && w.frame in P.pages && |P.pages[w.frame]| == 4096
              && at + 56 <= |file| && (w.writable <==> LE32(file, at + 4) / 2 % 2 == 1)
              && Word(file, at + 16) <= q * 4096 && Word(file, at + 8) + Word(file, at + 32) <= |file|
              && forall j :: 0 <= j < 4096 ==>
                   var x := q * 4096 + j - Word(file, at + 16);
                   P.pages[w.frame][j] == if x < Word(file, at + 32) then file[Word(file, at + 8) + x] else 0
  {
    hide LE32, Word, LE16, HeaderOk, PhdrAt, Image, CoveredBy, Nth, Walk, Loaded, Paging.Valid, AllInWindow, LastCover;
    Headers(file);
    ImageSeen(P, a, h, file, q);
    if q in Image(file, Phnum(file)) {
      ImageOnly(file, Phnum(file), q);
      var k: nat :| k < Phnum(file) && Nth(file, k).Covers(q);
      CoverMeans(file, k, q);
    }
    if k: nat :| k < LE16(file, 56) && CoveredBy(file, k, q) {
      var l := SomeLast(file, k, q);
      ImageRaw(file, l, q);
    }
    forall k: nat | LastCover(file, k, q)
      ensures var w, at := Walk(P.tables, h, q), HeaderAt(file, k);
              && w.Access? && w.frame in P.pages && |P.pages[w.frame]| == 4096
              && at + 56 <= |file| && (w.writable <==> LE32(file, at + 4) / 2 % 2 == 1)
              && Word(file, at + 16) <= q * 4096 && Word(file, at + 8) + Word(file, at + 32) <= |file|
              && forall j :: 0 <= j < 4096 ==>
                   var x := q * 4096 + j - Word(file, at + 16);
                   P.pages[w.frame][j] == if x < Word(file, at + 32) then file[Word(file, at + 8) + x] else 0
    {
      ImageRaw(file, k, q);
    }
  }

  /** A page some header covers is covered last by one. */
  lemma SomeLast(file: seq<Byte>, k: nat, q: nat) returns (l: nat)
    requires |file| >= 64 && k < LE16(file, 56) && CoveredBy(file, k, q)
    ensures LastCover(file, l, q)
  {
    hide CoveredBy;
    l := k;
    var j := k + 1;
    while j < LE16(file, 56)
      invariant k < j <= LE16(file, 56) && k <= l < j && CoveredBy(file, l, q)
      invariant forall i: nat :: l < i < j ==> !CoveredBy(file, i, q)
    {
      if CoveredBy(file, j, q) {
        l := j;
      }
      j := j + 1;
    }
  }
}
