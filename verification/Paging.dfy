/** The page tables of the kernel (kvm.c), of the user process (mm.c) and of the video memory
    (vmem.c), filled in physical memory, against the two-level page walk of section 5.2 of the
    Intel 80386 Programmer's Reference Manual. */
module Paging {

  const PAGE_SIZE: int := 0x1000
  const NR_PDE: int := 1024
  const PT_SIZE: int := 0x40_0000
  const PHY_MEM: int := 0x800_0000
  const KOFFSET: int := 0xC000_0000
  const VMEM_ADDR: int := 0xA_0000
  const SCR_SIZE: int := 320 * 200

  datatype Option<T> = None | Some(value: T)

  /** Physical memory as 32-bit words. */
  type Words = seq<int>

  /** Where the linker put the four page-aligned tables in physical memory. */
  datatype Layout = Layout(kpdir: int, kptable: int, updir: int, table: int) {

    /** `pages` pages at address a, inside physical memory. */
    static predicate IsRegion(a: int, pages: int) {
      0 <= a && a % 0x1000 == 0 && a + 0x1000 * pages <= 0x800_0000
    }

    static predicate Apart(a: int, pagesA: int, b: int, pagesB: int) {
      a + 0x1000 * pagesA <= b || b + 0x1000 * pagesB <= a
    }

    predicate Valid() {
      && IsRegion(kpdir, 1) && IsRegion(kptable, 32) && IsRegion(updir, 1) && IsRegion(table, 1)
      && Apart(kpdir, 1, kptable, 32) && Apart(kpdir, 1, updir, 1) && Apart(kpdir, 1, table, 1)
      && Apart(kptable, 32, updir, 1) && Apart(kptable, 32, table, 1) && Apart(updir, 1, table, 1)
    }
  }

  /** make_pde and make_pte: the frame with the present, writable and user bits. */
  function MakeEntry(addr: int): int {
    (addr / 0x1000) * 0x1000 + 7
  }

  /** The i-th word of the table at a physical address. */
  function Entry(m: Words, base: int, i: int): int {
    if 0 <= base / 4 + i < |m| then m[base / 4 + i] else 0
  }

  /** The physical address of the page an entry names. */
  function Frame(entry: int): int {
    (entry / 0x1000) * 0x1000
  }

  predicate Present(entry: int) {
    entry % 2 == 1
  }

  /** The page walk: page directory entry, page table entry, frame; None where the present bit of
      an entry is clear. */
  function Walk(m: Words, directory: int, va: int): Option<int> {
    var pde := Entry(m, directory, va / 0x40_0000);
    if !Present(pde) then None
    else
      var pte := Entry(m, Frame(pde), (va / 0x1000) % 1024);
      if !Present(pte) then None
      else Some(Frame(pte) + va % 0x1000)
  }

  predicate IsAddress(va: int) {
    0 <= va < 0x1_0000_0000
  }

  // ----- what the three functions leave in memory -----

  /** The kernel directory after `done` iterations of the loop that fills it. */
  function PdeSoFar(l: Layout, i: int, done: int): int {
    if 0 <= i < done then MakeEntry(l.kptable + 0x1000 * i)
    else if 768 <= i < 768 + done then MakeEntry(l.kptable + 0x1000 * (i - 768))
    else 0
  }

  /** The kernel directory entry of each 4 MB: the first 128 MB twice, at 0 and at KOFFSET. */
  function KernelPde(l: Layout, i: int): int {
    PdeSoFar(l, i, 32)
  }

  /** The entry that maps page j onto itself. */
  function IdentityPte(j: int): int {
    0x1000 * j + 7
  }

  /** The video page table after `done` iterations of the loop that fills it. */
  function VideoPte(j: int, done: int): int {
    if 160 <= j < 160 + done then IdentityPte(j) else 0
  }

  /** The kernel directory and page tables after init_page. */
  ghost predicate KernelTables(m: Words, l: Layout) {
    && (forall i :: 0 <= i < 1024 ==> Entry(m, l.kpdir, i) == KernelPde(l, i))
    && (forall j :: 0 <= j < 32768 ==> Entry(m, l.kptable, j) == IdentityPte(j))
  }

  /** The user directory after init_mm, from entry `first` on: the kernel half of the kernel's. */
  ghost predicate UserDirectory(m: Words, l: Layout, first: nat) {
    forall i :: first <= i < 1024 ==> Entry(m, l.updir, i) == if i < 768 then 0 else KernelPde(l, i)
  }

  /** The video page table after create_video_mapping. */
  ghost predicate VideoTable(m: Words, l: Layout) {
    && Entry(m, l.updir, 0) == MakeEntry(l.table)
    && forall j :: 0 <= j < 1024 ==> Entry(m, l.table, j) == VideoPte(j, 16)
  }

  /** The kernel sees physical memory at 0 and at KOFFSET, and nothing else. */
  function KernelMap(va: int): Option<int> {
    if va < PHY_MEM then Some(va)
    else if KOFFSET <= va < KOFFSET + PHY_MEM then Some(va - KOFFSET)
    else None
  }

  /** The user process sees the kernel mapping at KOFFSET, the 16 pages of the video memory in
      place, and nothing else. */
  function UserMap(va: int): Option<int> {
    if VMEM_ADDR <= va < VMEM_ADDR + 0x1_0000 then Some(va)
    else if KOFFSET <= va < KOFFSET + PHY_MEM then Some(va - KOFFSET)
    else None
  }

  /** The two agree on the kernel half, and the video pages cover the whole screen. */
  lemma MapsAgree(va: int)
    requires IsAddress(va)
    ensures KOFFSET <= va ==> UserMap(va) == KernelMap(va)
    ensures VMEM_ADDR <= va < VMEM_ADDR + SCR_SIZE ==> UserMap(va) == Some(va)
  {
  }

  // ----- the walks -----

  /** The page at address a starts at a word that is a multiple of 1024. */
  lemma PageInWords(a: int)
    requires a % 0x1000 == 0
    ensures a == 0x1000 * (a / 0x1000) && a / 4 == 0x400 * (a / 0x1000)
  {
  }

  lemma IdentityFrame(j: int)
    ensures Present(IdentityPte(j)) && Frame(IdentityPte(j)) == 0x1000 * j
  {
    var e := 0x1000 * j + 7;
    assert e == 2 * (0x800 * j + 3) + 1;
    assert e / 0x1000 == j;
  }

  lemma PageEntry(j: int)
    ensures MakeEntry(0x1000 * j) == IdentityPte(j)
  {
  }

  lemma EntryOfTable(a: int)
    requires a % 0x1000 == 0
    ensures Present(MakeEntry(a)) && Frame(MakeEntry(a)) == a
  {
    IdentityFrame(a / 0x1000);
    assert a == 0x1000 * (a / 0x1000);
    assert MakeEntry(a) == IdentityPte(a / 0x1000);
    hide *;
  }

  /** An address is page number times page size plus offset. */
  lemma SplitAddress(va: int)
    requires IsAddress(va)
    ensures 0 <= va / 0x40_0000 < 1024 && 0 <= (va / 0x1000) % 1024 < 1024
    ensures va == 0x1000 * (1024 * (va / 0x40_0000) + (va / 0x1000) % 1024) + va % 0x1000
  {
  }

  /** Entry j of the t-th kernel page table is entry 1024 t + j of kptable. */
  lemma KernelTableEntry(m: Words, l: Layout, t: int, j: int)
    requires l.Valid()
    ensures Entry(m, l.kptable + 0x1000 * t, j) == Entry(m, l.kptable, 1024 * t + j)
  {
  }

  /** The kernel directory translates every address as KernelMap says. */
  lemma KernelWalk(m: Words, l: Layout, va: int)
    requires l.Valid() && KernelTables(m, l) && IsAddress(va)
    ensures Walk(m, l.kpdir, va) == KernelMap(va)
  {
    DirectoryWalk(m, l, l.kpdir, va);
  }

  /** A directory whose entry for va is the kernel's translates va like the kernel. */
  lemma DirectoryWalk(m: Words, l: Layout, directory: int, va: int)
    requires l.Valid() && KernelTables(m, l) && IsAddress(va)
    requires Entry(m, directory, va / 0x40_0000) == KernelPde(l, va / 0x40_0000)
    ensures Walk(m, directory, va) == KernelMap(va)
  {
    var i, j := va / 0x40_0000, (va / 0x1000) % 1024;
    SplitAddress(va);
    var t := if i < 32 then i else i - 768;
    hide KernelTables, Layout.Valid, Entry, MakeEntry, Frame, Present, IdentityPte;
    if 0 <= t < 32 {
      assert KernelPde(l, i) == MakeEntry(l.kptable + 0x1000 * t);
      TableWalk(m, l, directory, va, t);
      assert KernelMap(va) == Some(0x1000 * (1024 * t + j) + va % 0x1000);
    } else {
      assert KernelPde(l, i) == 0 && KernelMap(va) == None;
      assert !Present(0);
    }
  }

  /** An address whose directory entry names the t-th kernel page table is mapped into the t-th 4 MB. */
  lemma TableWalk(m: Words, l: Layout, directory: int, va: int, t: int)
    requires l.Valid() && KernelTables(m, l) && IsAddress(va) && 0 <= t < 32
    requires Entry(m, directory, va / 0x40_0000) == MakeEntry(l.kptable + 0x1000 * t)
    ensures Walk(m, directory, va) == Some(0x1000 * (1024 * t + (va / 0x1000) % 1024) + va % 0x1000)
  {
    var j := (va / 0x1000) % 1024;
    EntryOfTable(l.kptable + 0x1000 * t);
    KernelTableEntry(m, l, t, j);
    IdentityFrame(1024 * t + j);
    hide KernelTables, Layout.Valid, Entry, MakeEntry, Frame, Present, IdentityPte;
  }

  /** The user directory translates every address as UserMap says. */
  lemma UserWalk(m: Words, l: Layout, va: int)
    requires l.Valid() && IsAddress(va)
    requires KernelTables(m, l) && VideoTable(m, l) && UserDirectory(m, l, 1)
    ensures Walk(m, l.updir, va) == UserMap(va)
  {
    var i, j := va / 0x40_0000, (va / 0x1000) % 1024;
    SplitAddress(va);
    if i == 0 {
      EntryOfTable(l.table);
      IdentityFrame(j);
    } else if i >= 768 {
      DirectoryWalk(m, l, l.updir, va);
    }
    hide Entry, Frame, MakeEntry, IdentityPte;
  }

  // ----- the code -----

  /** Two memories agree outside n words from word `first` on. */
  ghost predicate SameOutside(m: Words, m': Words, first: int, n: int) {
    |m| == |m'| && forall w :: 0 <= w < |m| && !(first <= w < first + n) ==> m'[w] == m[w]
  }

  /** memset of n words to zero. */
  method ClearWords(mem: array<int>, first: int, n: nat)
    requires 0 <= first && first + n <= mem.Length
    modifies mem
    ensures forall w :: first <= w < first + n ==> mem[w] == 0
    ensures SameOutside(old(mem[..]), mem[..], first, n)
  {
    var i := 0;
    while i < n
      invariant 0 <= i <= n
      invariant forall w :: first <= w < first + i ==> mem[w] == 0
      invariant forall w :: 0 <= w < mem.Length && !(first <= w < first + n) ==> mem[w] == old(mem[w])
    {
      mem[first + i] := 0;
      i := i + 1;
    }
  }

  /** memcpy of n words between disjoint tables. */
  method CopyWords(mem: array<int>, to: int, from: int, n: nat)
    requires 0 <= to && to + n <= mem.Length && 0 <= from && from + n <= mem.Length
    requires to + n <= from || from + n <= to
    modifies mem
    ensures forall w :: to <= w < to + n ==> mem[w] == old(mem[from + (w - to)])
    ensures SameOutside(old(mem[..]), mem[..], to, n)
  {
    var i := 0;
    while i < n
      invariant 0 <= i <= n
      invariant forall w :: to <= w < to + i ==> mem[w] == old(mem[from + (w - to)])
      invariant forall w :: 0 <= w < mem.Length && !(to <= w < to + n) ==> mem[w] == old(mem[w])
    {
      mem[to + i] := mem[from + i];
      i := i + 1;
    }
  }

  /** Word addresses of the kernel tables. */
  lemma KernelPlaces(l: Layout)
    requires l.Valid()
    ensures 0 <= l.kpdir / 4 && l.kpdir / 4 + 1024 <= 0x200_0000
    ensures 0 <= l.kptable / 4 && l.kptable / 4 + 32768 <= 0x200_0000
    ensures 4 * (l.kptable / 4) == l.kptable
  {
    PageInWords(l.kpdir);
    PageInWords(l.kptable);
  }

  /** Clearing and filling the kernel directory; `ptable` ends behind the last page table. */
  method FillDirectory(mem: array<int>, l: Layout) returns (ptable: int)
    requires l.Valid() && mem.Length == 0x200_0000
    modifies mem
    ensures ptable == l.kptable / 4 + 32768
    ensures forall w :: l.kpdir / 4 <= w < l.kpdir / 4 + 1024 ==> mem[w] == KernelPde(l, w - l.kpdir / 4)
    ensures SameOutside(old(mem[..]), mem[..], l.kpdir / 4, 1024)
  {
    KernelPlaces(l);
    hide MakeEntry, Layout.Valid;
    var pdir := l.kpdir / 4;
    ptable := l.kptable / 4;
    ClearWords(mem, pdir, NR_PDE);
    var pdirIdx := 0;
    while pdirIdx < PHY_MEM / PT_SIZE
      invariant 0 <= pdirIdx <= 32 && ptable == l.kptable / 4 + 1024 * pdirIdx
      invariant forall w :: pdir <= w < pdir + 1024 ==> mem[w] == PdeSoFar(l, w - pdir, pdirIdx)
      invariant forall w :: 0 <= w < mem.Length && !(pdir <= w < pdir + 1024) ==> mem[w] == old(mem[w])
    {
      assert 4 * ptable == l.kptable + 0x1000 * pdirIdx;
      mem[pdir + pdirIdx] := MakeEntry(4 * ptable);
      mem[pdir + pdirIdx + KOFFSET / PT_SIZE] := MakeEntry(4 * ptable);
      ptable := ptable + 1024;
      pdirIdx := pdirIdx + 1;
    }
  }

  /** The string-store loop of init_page: it stores eax, going down by 4 bytes and by one page,
      until eax turns negative.  `stores` counts the iterations. */
  method FillTables(mem: array<int>, l: Layout, ptable: int) returns (ghost stores: nat)
    requires l.Valid() && mem.Length == 0x200_0000
    requires ptable == l.kptable / 4 + 32768
    modifies mem
    ensures forall w :: l.kptable / 4 <= w < l.kptable / 4 + 32768 ==> mem[w] == IdentityPte(w - l.kptable / 4)
    ensures SameOutside(old(mem[..]), mem[..], l.kptable / 4, 32768)
    ensures stores == PHY_MEM / PAGE_SIZE
  {
    ghost var first := l.kptable / 4;
    stores := 0;
    var eax := PHY_MEM - PAGE_SIZE + 7;
    var edi := 4 * (ptable - 1);
    var again := true;
    while again
      invariant 0 <= stores <= 32768
      invariant eax == IdentityPte(32767 - stores) && edi == 4 * (first + 32767 - stores)
      invariant again <==> stores < 32768
      invariant forall w :: first + 32768 - stores <= w < first + 32768 ==> mem[w] == IdentityPte(w - first)
      invariant forall w :: 0 <= w < mem.Length && !(first <= w < first + 32768) ==> mem[w] == old(mem[w])
      decreases 32768 - stores
    {
      mem[edi / 4] := eax;
      edi := edi - 4;
      eax := eax - PAGE_SIZE;
      again := eax >= 0;
      stores := stores + 1;
    }
  }

  lemma KernelTablesFromWords(m: Words, l: Layout)
    requires l.Valid() && |m| == 0x200_0000
    requires forall w :: l.kpdir / 4 <= w < l.kpdir / 4 + 1024 ==> m[w] == KernelPde(l, w - l.kpdir / 4)
    requires forall w :: l.kptable / 4 <= w < l.kptable / 4 + 32768 ==> m[w] == IdentityPte(w - l.kptable / 4)
    ensures KernelTables(m, l)
  {
    forall i | 0 <= i < 1024
      ensures Entry(m, l.kpdir, i) == KernelPde(l, i)
    {
      assert m[l.kpdir / 4 + i] == KernelPde(l, l.kpdir / 4 + i - l.kpdir / 4);
    }
    forall j | 0 <= j < 32768
      ensures Entry(m, l.kptable, j) == IdentityPte(j)
    {
      assert m[l.kptable / 4 + j] == IdentityPte(l.kptable / 4 + j - l.kptable / 4);
    }
  }

  /** The words of a directory that names the 32 kernel page tables from KOFFSET on, and also from 0 on if
      `withLow`; every entry used is present, writable and open to the user. */
  ghost predicate DirectoryWords(m: Words, first: int, kptable: int, withLow: bool) {
    && 0 <= first && first + 1024 <= |m|
    && forall w :: first <= w < first + 1024 ==>
         var i := w - first;
         m[w] == if withLow && i < 32 then kptable + 0x1000 * i + 7
                 else if 768 <= i < 800 then kptable + 0x1000 * (i - 768) + 7
                 else 0
  }

  /** The words of a table that maps the pages from `low` to `high` onto themselves, with the same bits. */
  ghost predicate IdentityWords(m: Words, first: int, size: int, low: int, high: int) {
    && 0 <= first && first + size <= |m|
    && forall w :: first <= w < first + size ==>
         var j := w - first;
         m[w] == if low <= j < high then 0x1000 * j + 7 else 0
  }

  lemma DirectoryWordsFromEntries(m: Words, l: Layout)
    requires |m| == 0x200_0000 && 0 <= l.kpdir / 4 && l.kpdir / 4 + 1024 <= |m| && l.kptable % 0x1000 == 0
    requires forall i :: 0 <= i < 1024 ==> Entry(m, l.kpdir, i) == KernelPde(l, i)
    ensures DirectoryWords(m, l.kpdir / 4, l.kptable, true)
  {
    var d := l.kpdir / 4;
    forall w | d <= w < d + 1024
      ensures m[w] == if w - d < 32 then l.kptable + 0x1000 * (w - d) + 7
                      else if 768 <= w - d < 800 then l.kptable + 0x1000 * (w - d - 768) + 7 else 0
    {
      assert Entry(m, l.kpdir, w - d) == m[w];
    }
  }

  lemma IdentityWordsFromEntries(m: Words, l: Layout)
    requires |m| == 0x200_0000 && 0 <= l.kptable / 4 && l.kptable / 4 + 32768 <= |m|
    requires forall j :: 0 <= j < 32768 ==> Entry(m, l.kptable, j) == IdentityPte(j)
    ensures IdentityWords(m, l.kptable / 4, 32768, 0, 32768)
  {
    var t := l.kptable / 4;
    forall w | t <= w < t + 32768
      ensures m[w] == 0x1000 * (w - t) + 7
    {
      assert Entry(m, l.kptable, w - t) == m[w];
    }
  }

  lemma KernelWords(m: Words, l: Layout)
    requires l.Valid() && |m| == 0x200_0000 && KernelTables(m, l)
    ensures DirectoryWords(m, l.kpdir / 4, l.kptable, true) && IdentityWords(m, l.kptable / 4, 32768, 0, 32768)
  {
    KernelPlaces(l);
    assert l.kptable % 0x1000 == 0;
    hide Layout.Valid, KernelPde, IdentityPte, Entry, DirectoryWords, IdentityWords;
    DirectoryWordsFromEntries(m, l);
    IdentityWordsFromEntries(m, l);
  }

  lemma UserWords(m: Words, l: Layout)
    requires l.Valid() && |m| == 0x200_0000 && UserDirectory(m, l, 0)
    ensures DirectoryWords(m, l.updir / 4, l.kptable, false)
  {
    var d := l.updir / 4;
    forall w | d <= w < d + 1024
      ensures m[w] == if 768 <= w - d < 800 then l.kptable + 0x1000 * (w - d - 768) + 7 else 0
    {
      assert Entry(m, l.updir, w - d) == m[w];
    }
  }

  lemma VideoTableWords(m: Words, l: Layout)
    requires l.Valid() && |m| == 0x200_0000 && VideoTable(m, l)
    ensures IdentityWords(m, l.table / 4, 1024, 160, 176) && m[l.updir / 4] == l.table + 7
  {
    var t := l.table / 4;
    assert Entry(m, l.updir, 0) == m[l.updir / 4];
    forall w | t <= w < t + 1024
      ensures m[w] == if 160 <= w - t < 176 then 0x1000 * (w - t) + 7 else 0
    {
      assert Entry(m, l.table, w - t) == VideoPte(w - t, 16) == m[w];
    }
  }

  /** init_page: the result is the directory base put into CR3. */
  method InitPage(mem: array<int>, l: Layout) returns (cr3: int)
    requires l.Valid() && mem.Length == 0x200_0000
    modifies mem
    ensures KernelTables(mem[..], l) && cr3 == l.kpdir
    ensures DirectoryWords(mem[..], l.kpdir / 4, l.kptable, true)
    ensures IdentityWords(mem[..], l.kptable / 4, 32768, 0, 32768)
    ensures forall w :: 0 <= w < mem.Length ==>
              l.kpdir / 4 <= w < l.kpdir / 4 + 1024 || l.kptable / 4 <= w < l.kptable / 4 + 32768 || mem[w] == old(mem[w])
  {
    var ptable := FillDirectory(mem, l);
    hide KernelPde, IdentityPte;
    ghost var stores := FillTables(mem, l, ptable);
    KernelTablesFromWords(mem[..], l);
    KernelWords(mem[..], l);
    hide DirectoryWords, IdentityWords;
    cr3 := (l.kpdir / 0x1000) * 0x1000;
  }

  /** init_mm. */
  method InitMm(mem: array<int>, l: Layout) returns (ucr3: int)
    requires l.Valid() && mem.Length == 0x200_0000 && KernelTables(mem[..], l)
    modifies mem
    ensures KernelTables(mem[..], l) && UserDirectory(mem[..], l, 0) && ucr3 == l.updir
    ensures DirectoryWords(mem[..], l.updir / 4, l.kptable, false)
    ensures SameOutside(old(mem[..]), mem[..], l.updir / 4, 1024)
  {
    ghost var before := mem[..];
    ClearWords(mem, l.updir / 4, NR_PDE);
    CopyWords(mem, l.updir / 4 + KOFFSET / PT_SIZE, l.kpdir / 4 + KOFFSET / PT_SIZE, PHY_MEM / PT_SIZE);
    ucr3 := (l.updir / 0x1000) * 0x1000;
    TablesFrame(before, mem[..], l, l.updir / 4, 1024);
    forall i | 0 <= i < 1024
      ensures Entry(mem[..], l.updir, i) == if i < 768 then 0 else KernelPde(l, i)
    {
      assert Entry(before, l.kpdir, i) == KernelPde(l, i);
    }
    UserWords(mem[..], l);
  }

  /** The kernel tables do not change when the words of another table do. */
  lemma TablesFrame(m: Words, m': Words, l: Layout, first: int, n: int)
    requires l.Valid() && |m| == 0x200_0000 && KernelTables(m, l) && SameOutside(m, m', first, n)
    requires first + n <= l.kpdir / 4 || l.kpdir / 4 + 1024 <= first
    requires first + n <= l.kptable / 4 || l.kptable / 4 + 32768 <= first
    ensures KernelTables(m', l)
  {
    forall i | 0 <= i < 1024
      ensures Entry(m', l.kpdir, i) == KernelPde(l, i)
    {
      assert Entry(m, l.kpdir, i) == KernelPde(l, i);
    }
    forall j | 0 <= j < 32768
      ensures Entry(m', l.kptable, j) == IdentityPte(j)
    {
      assert Entry(m, l.kptable, j) == IdentityPte(j);
    }
  }

  /** Only the video table and the first entry of the user directory differ. */
  ghost predicate OnlyVideoWords(m: Words, m': Words, l: Layout) {
    && |m| == |m'|
    && forall w :: 0 <= w < |m| && w != l.updir / 4 && !(l.table / 4 <= w < l.table / 4 + 1024) ==> m'[w] == m[w]
  }

  /** What the memory before create_video_mapping must be like for an address from 4 MB on to be
      translated afterwards as it was: its page table is neither page written, or it is the video
      table and already agrees with what is written there, or it is the user directory itself. */
  predicate UntouchedByVideo(m: Words, l: Layout, va: int) {
    var pde, j := Entry(m, l.updir, va / 0x40_0000), (va / 0x1000) % 1024;
    var pte := Entry(m, Frame(pde), j);
    !Present(pde)
    || if Frame(pde) == l.table then
         if 160 <= j < 176 then Present(pte) && Frame(pte) == 0x1000 * j else !Present(pte)
       else Frame(pde) == l.updir && j == 0 ==> Present(pte) && Frame(pte) == l.table
  }

  /** create_video_mapping keeps the translation of an address from 4 MB on, whatever the user
      directory was before, in exactly these cases. */
  lemma VideoKeepsOthers(m: Words, m': Words, l: Layout, va: int)
    requires l.Valid() && |m| == 0x200_0000 && OnlyVideoWords(m, m', l) && VideoTable(m', l)
    requires IsAddress(va) && 0x40_0000 <= va
    ensures Walk(m', l.updir, va) == Walk(m, l.updir, va) <==> UntouchedByVideo(m, l, va)
  {
    var i, j := va / 0x40_0000, (va / 0x1000) % 1024;
    SplitAddress(va);
    var pde := Entry(m, l.updir, i);
    var frame := Frame(pde);
    EntryKept(m, m', l, l.updir, i);
    EntryKept(m, m', l, frame, j);
    IdentityFrame(j);
    EntryOfTable(l.table);
    assert !Present(0);
    hide Layout.Valid, OnlyVideoWords, Entry, Frame, Present, IdentityPte, MakeEntry;
    if frame == l.table {
      assert Entry(m', frame, j) == VideoPte(j, 16);
    } else if frame == l.updir && j == 0 {
      assert Entry(m', frame, j) == MakeEntry(l.table);
    } else {
      assert Entry(m', frame, j) == Entry(m, frame, j);
    }
  }

  lemma EntryKept(m: Words, m': Words, l: Layout, page: int, j: int)
    requires l.Valid() && |m| == 0x200_0000 && OnlyVideoWords(m, m', l)
    requires page % 0x1000 == 0 && 0 <= j < 1024
    ensures page != l.table && (page != l.updir || j > 0) ==> Entry(m', page, j) == Entry(m, page, j)
  {
    PageInWords(page);
    PageInWords(l.table);
    PageInWords(l.updir);
  }

  /** If the page table of an address is the video table, the address moves to the video memory. */
  lemma VideoAliased(m: Words, m': Words, l: Layout, va: int)
    requires l.Valid() && |m| == 0x200_0000 && OnlyVideoWords(m, m', l) && VideoTable(m', l)
    requires IsAddress(va) && 0x40_0000 <= va
    requires var pde := Entry(m, l.updir, va / 0x40_0000); Present(pde) && Frame(pde) == l.table
    ensures Walk(m', l.updir, va) ==
            var offset := va % 0x40_0000;
            if VMEM_ADDR <= offset < VMEM_ADDR + 0x1_0000 then Some(offset) else None
  {
    var i, j := va / 0x40_0000, (va / 0x1000) % 1024;
    SplitAddress(va);
    EntryKept(m, m', l, l.updir, i);
    IdentityFrame(j);
    hide Entry, Frame, IdentityPte;
  }

  /** The loop over the video pages, on a cleared table. */
  method FillVideoTable(mem: array<int>, table: int)
    requires 0 <= table && table + 1024 <= mem.Length
    requires forall w :: table <= w < table + 1024 ==> mem[w] == 0
    modifies mem
    ensures forall w :: table <= w < table + 1024 ==> mem[w] == VideoPte(w - table, 16)
    ensures SameOutside(old(mem[..]), mem[..], table, 1024)
  {
    var start := (VMEM_ADDR / 0x1000) % 1024;
    hide MakeEntry, IdentityPte;
    var i := 0;
    while i < SCR_SIZE / PAGE_SIZE + 1
      invariant 0 <= i <= 16 && start == 160
      invariant forall w :: table <= w < table + 1024 ==> mem[w] == VideoPte(w - table, i)
      invariant forall w :: 0 <= w < mem.Length && !(table <= w < table + 1024) ==> mem[w] == old(mem[w])
    {
      PageEntry(start + i);
      mem[table + start + i] := MakeEntry(VMEM_ADDR + PAGE_SIZE * i);
      i := i + 1;
    }
  }

  /** create_video_mapping, for any earlier contents of the user directory. */
  method CreateVideoMapping(mem: array<int>, l: Layout)
    requires l.Valid() && mem.Length == 0x200_0000
    modifies mem
    ensures VideoTable(mem[..], l)
    ensures IdentityWords(mem[..], l.table / 4, 1024, 160, 176) && mem[l.updir / 4] == l.table + 7
    ensures OnlyVideoWords(old(mem[..]), mem[..], l)
  {
    VideoPlaces(l);
    hide MakeEntry, IdentityPte, VideoPte, VideoTable, OnlyVideoWords, Layout.Valid;
    ghost var before := mem[..];
    var table := l.table / 4;
    ClearWords(mem, table, 1024);
    ghost var cleared := mem[..];
    var updir := l.updir / 4;
    mem[updir + (VMEM_ADDR / 0x40_0000) % 1024] := MakeEntry(4 * table);
    ghost var entered := mem[..];
    assert entered == cleared[updir := MakeEntry(l.table)];
    FillVideoTable(mem, table);
    VideoWords(before, cleared, entered, mem[..], l);
    VideoTableWords(mem[..], l);
  }

  /** Word addresses of the two pages. */
  lemma VideoPlaces(l: Layout)
    requires l.Valid()
    ensures 0 <= l.updir / 4 < 0x200_0000 && 0 <= l.table / 4 && l.table / 4 + 1024 <= 0x200_0000
    ensures l.updir / 4 < l.table / 4 || l.table / 4 + 1024 <= l.updir / 4
    ensures 4 * (l.table / 4) == l.table
  {
    PageInWords(l.updir);
    PageInWords(l.table);
  }

  lemma VideoWords(before: Words, cleared: Words, entered: Words, after: Words, l: Layout)
    requires l.Valid() && |before| == 0x200_0000
    requires SameOutside(before, cleared, l.table / 4, 1024)
    requires entered == cleared[l.updir / 4 := MakeEntry(l.table)]
    requires SameOutside(entered, after, l.table / 4, 1024)
    requires forall w :: l.table / 4 <= w < l.table / 4 + 1024 ==> after[w] == VideoPte(w - l.table / 4, 16)
    ensures VideoTable(after, l) && OnlyVideoWords(before, after, l)
  {
    VideoTableFromWords(after, l);
    hide MakeEntry, VideoPte, VideoTable;
  }

  lemma VideoTableFromWords(m: Words, l: Layout)
    requires l.Valid() && |m| == 0x200_0000 && m[l.updir / 4] == MakeEntry(l.table)
    requires forall w :: l.table / 4 <= w < l.table / 4 + 1024 ==>
               m[w] == VideoPte(w - l.table / 4, 16)
    ensures VideoTable(m, l)
  {
    forall j | 0 <= j < 1024
      ensures Entry(m, l.table, j) == VideoPte(j, 16)
    {
      var w := l.table / 4 + j;
      assert m[w] == VideoPte(w - l.table / 4, 16);
    }
  }

  /** The boot sequence of the mappings: afterwards both walks are known for every address. */
  method SetUpMappings(mem: array<int>, l: Layout) returns (cr3: int, ucr3: int)
    requires l.Valid() && mem.Length == 0x200_0000
    modifies mem
    ensures forall va :: IsAddress(va) ==> Walk(mem[..], cr3, va) == KernelMap(va)
    ensures forall va :: IsAddress(va) ==> Walk(mem[..], ucr3, va) == UserMap(va)
    ensures forall va :: 0 <= va < 0x1_0000_0000 ==>
              Walk(mem[..], cr3, va) == if va < 0x800_0000 then Some(va)
                                        else if 0xC000_0000 <= va < 0xC800_0000 then Some(va - 0xC000_0000) else None
    ensures forall va :: 0 <= va < 0x1_0000_0000 ==>
              Walk(mem[..], ucr3, va) == if 0xA_0000 <= va < 0xB_0000 then Some(va)
                                         else if 0xC000_0000 <= va < 0xC800_0000 then Some(va - 0xC000_0000) else None
  {
    hide KernelTables, UserDirectory, VideoTable, DirectoryWords, IdentityWords, OnlyVideoWords, SameOutside, Layout.Valid, Walk;
    cr3 := InitPage(mem, l);
    ucr3 := InitMm(mem, l);
    ghost var m := mem[..];
    CreateVideoMapping(mem, l);
    VideoKeepsTables(m, mem[..], l);
    forall va | IsAddress(va)
      ensures Walk(mem[..], cr3, va) == KernelMap(va)
      ensures Walk(mem[..], ucr3, va) == UserMap(va)
    {
      KernelWalk(mem[..], l, va);
      UserWalk(mem[..], l, va);
    }
  }

  lemma VideoKeepsTables(m: Words, m': Words, l: Layout)
    requires l.Valid() && |m| == 0x200_0000 && OnlyVideoWords(m, m', l)
    requires KernelTables(m, l) && UserDirectory(m, l, 0)
    ensures KernelTables(m', l) && UserDirectory(m', l, 1)
  {
    forall i | 0 <= i < 1024
      ensures Entry(m', l.kpdir, i) == KernelPde(l, i)
      ensures i > 0 ==> Entry(m', l.updir, i) == if i < 768 then 0 else KernelPde(l, i)
    {
      assert Entry(m, l.kpdir, i) == KernelPde(l, i);
      assert Entry(m, l.updir, i) == if i < 768 then 0 else KernelPde(l, i);
      EntryKept(m, m', l, l.kpdir, i);
      EntryKept(m, m', l, l.updir, i);
    }
    forall j | 0 <= j < 32768
      ensures Entry(m', l.kptable, j) == IdentityPte(j)
    {
      assert Entry(m, l.kptable, j) == IdentityPte(j);
    }
  }
}
