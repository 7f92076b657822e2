/** Two-level page directories whose kernel half is shared by all of them. */
module Paging {

  /** Pages of 4 KiB, tables of 1024 entries, and the first table of the kernel half. */
  const PAGES: nat := 0x10_0000
  const KERNEL_TABLE: nat := 768

  type address = a: nat | a < 0x1_0000_0000

  function PageOf(a: address): (p: nat)
    ensures p < PAGES
  {
    a / 4096
  }

  predicate IsKernelPage(p: nat)
  {
    p / 1024 >= KERNEL_TABLE
  }

  /** Bitwise or. */
  function Or(a: nat, b: nat): (r: nat)
    decreases a + b
  {
    if a == 0 || b == 0 then a + b
    else 2 * Or(a / 2, b / 2) + (if a % 2 == 1 || b % 2 == 1 then 1 else 0)
  }

  predicate Present(w: nat)
  {
    w % 2 == 1
  }

  predicate Protected(w: nat)
  {
    w / 0x200 % 2 == 1
  }

  /** A page that can be unmapped. */
  predicate Removable(w: nat)
  {
    Present(w) && !Protected(w)
  }

  function Frame(w: nat): nat
  {
    w - w % 4096
  }

  /** An entry by its bits: bit 0 says that it is there, bit 9 that it is protected, and the frame is what is left
      without the lowest twelve. */
  lemma WordBits(w: nat)
    ensures Present(w) <==> w % 2 == 1
    ensures Removable(w) <==> w % 2 == 1 && w / 0x200 % 2 == 0
    ensures Frame(w) == w / 0x1000 * 0x1000
  {
  }

  class PageDirectory {
    /** The words of the directory, and the tables they refer to. */
    const words: array<nat>
    const tables: array<array?<nat>>

    constructor ()
      ensures fresh(words) && fresh(tables) && words.Length == tables.Length == 1024
      ensures forall i :: 0 <= i < 1024 ==> words[i] == 0 && tables[i] == null
    {
      words := new nat[1024](_ => 0);
      tables := new array?<nat>[1024](_ => null);
    }
  }

  /** What writing the entry of page `p` in one directory does to the flat map of a directory: to its own, or for a
      kernel page to any. */
  function Update(ws: seq<nat>, own: bool, p: nat, w: nat): (r: seq<nat>)
    requires p < |ws|
    ensures |r| == |ws|
  {
    if own || IsKernelPage(p) then ws[p := w] else ws
  }

  /** The flat map of a new directory: the kernel half of another one, and an empty user half. */
  function Inherited(ws: seq<nat>): (r: seq<nat>)
    ensures |r| == |ws|
  {
    seq(|ws|, q requires 0 <= q < |ws| => if IsKernelPage(q) then ws[q] else 0)
  }

  /** The first page of the kernel half, and the first one of the area for tables. */
  const KERNEL_PAGE: nat := 0xC_0000
  const TABLE_PAGE: nat := 0xD_F400

  /** The words of page `i` of the kernel and its heap, and of the tables, on top of `reserved` bytes in use. */
  function KernelWord(reserved: nat, i: nat): (w: nat)
  {
    if i < reserved / 4096 then Or(Or(i * 4096, 7), 0x200) else Or(i * 4096, 7)
  }

  function TableWord(reserved: nat, i: nat): (w: nat)
  {
    Or(reserved + 4096 * 1024 + i * 4096, 0x203)
  }

  function StartWord(reserved: nat, n: nat, m: nat, p: nat): (w: nat)
  {
    if KERNEL_PAGE <= p < KERNEL_PAGE + n then KernelWord(reserved, p - KERNEL_PAGE)
    else if TABLE_PAGE <= p < TABLE_PAGE + m then TableWord(reserved, p - TABLE_PAGE)
    else 0
  }

  /** The pages mapped at the start: `n` pages of the kernel and its heap, and `m` of the tables. */
  function MapUpTo(reserved: nat, n: nat, m: nat): (ws: seq<nat>)
    ensures |ws| == PAGES
  {
    seq(PAGES, p requires 0 <= p < PAGES => StartWord(reserved, n, m, p))
  }

  function BootMap(reserved: nat): (ws: seq<nat>)
    ensures |ws| == PAGES
  {
    MapUpTo(reserved, reserved / 4096 + 1024, 258)
  }

  lemma NoneMapped(reserved: nat)
    ensures MapUpTo(reserved, 0, 0) == seq(PAGES, _ => 0)
  {
  }

  lemma AllMapped(reserved: nat)
    ensures MapUpTo(reserved, reserved / 4096 + 1024, 258) == BootMap(reserved)
  {
  }

  lemma MappedNext(reserved: nat, n: nat, m: nat)
    requires n < 0x1_0000 && m < 258
    ensures KERNEL_TABLE * 1024 <= KERNEL_PAGE + n < PAGES && KERNEL_TABLE * 1024 <= TABLE_PAGE + m < PAGES
    ensures MapUpTo(reserved, n + 1, 0) ==
      Update(MapUpTo(reserved, n, 0), true, KERNEL_PAGE + n, KernelWord(reserved, n))
    ensures MapUpTo(reserved, n, m + 1) ==
      Update(MapUpTo(reserved, n, m), true, TABLE_PAGE + m, TableWord(reserved, m))
  {
  }

  /** The kernel half starts with the memory in use, at the same place from its start on, and none of it, nor of the
      tables, can be unmapped. A frame starts at a multiple of 4096, even if the memory in use does not end at one. */
  lemma BootMapped(reserved: nat, p: nat)
    requires reserved / 4096 + 1024 < 0x1_0000 && p < PAGES
    ensures var w := BootMap(reserved)[p];
      && (w % 2 == 1 <==> 0xC_0000 <= p < 0xC_0000 + reserved / 4096 + 1024 || 0xD_F400 <= p < 0xD_F400 + 258)
      && (Present(w) <==> KERNEL_PAGE <= p < KERNEL_PAGE + reserved / 4096 + 1024 || TABLE_PAGE <= p < TABLE_PAGE + 258)
      && (p < TABLE_PAGE && Present(w) ==> Frame(w) == (p - KERNEL_PAGE) * 4096)
      && (p >= TABLE_PAGE && Present(w) ==> Frame(w) == (reserved / 4096 + 1024 + p - TABLE_PAGE) * 4096)
      && (Present(w) ==> (Removable(w) <==> KERNEL_PAGE + reserved / 4096 <= p < TABLE_PAGE))
  {
    hide KernelWord, TableWord, Present, Protected, Frame;
    NotPresent();
    WordBits(BootMap(reserved)[p]);
    if KERNEL_PAGE <= p < KERNEL_PAGE + reserved / 4096 + 1024 {
      KernelWordIs(reserved, p - KERNEL_PAGE);
    } else if TABLE_PAGE <= p < TABLE_PAGE + 258 {
      TableWordIs(reserved, p - TABLE_PAGE);
    }
  }

  lemma KernelWordIs(reserved: nat, i: nat)
    ensures var w := KernelWord(reserved, i);
      Present(w) && (Protected(w) <==> i < reserved / 4096) && Frame(w) == i * 4096
  {
    hide Or, Present, Protected, Frame;
    NotPresent();
    Aligned(i);
    Flagged(i * 4096, 7);
    Flagged(Or(i * 4096, 7), 0x200);
  }

  lemma TableWordIs(reserved: nat, i: nat)
    ensures var w := TableWord(reserved, i);
      Present(w) && Protected(w) && Frame(w) == (reserved / 4096 + 1024 + i) * 4096
  {
    hide Or, Present, Protected, Frame;
    NotPresent();
    var a := reserved + 4096 * 1024 + i * 4096;
    Flagged(a, 0x203);
    FrameOf(a, reserved / 4096 + 1024 + i, reserved % 4096);
  }

  /** The word of kernel table `i` in a directory: its frame is one of those in a row behind the first heap, and it is
      present, can be written, and is open to all. */
  predicate IsKernelWord(reserved: nat, i: nat, w: nat)
    requires i >= 768
  {
    w - w % 4096 == (reserved / 4096 + 1024 + i - 768) * 4096 && w % 8 == 7 && (reserved % 4096 == 0 ==> w % 4096 == 7)
  }

  /** The word of a new table: its frame is that of its address, and it is present and can be written. */
  predicate IsUserWord(phys: nat, w: nat)
  {
    w - w % 4096 == phys - phys % 4096 && w % 4 == 3 && (phys % 4096 == 0 ==> w == phys + 3)
  }

  lemma KernelWordFlagged(reserved: nat, i: nat)
    requires 768 <= i < 1024
    ensures var a := reserved + 4096 * 1024 + (i - 768) * 4096;
      IsKernelWord(reserved, i, Or(a, 7)) && Frame(a) == (reserved / 4096 + 1024 + i - 768) * 4096 == Frame(Or(a, 7))
  {
    hide Or;
    var a := reserved + 4096 * 1024 + (i - 768) * 4096;
    Flagged(a, 7);
    FrameOf(a, reserved / 4096 + 1024 + i - 768, reserved % 4096);
    LowFlags(a);
  }

  lemma UserWordFlagged(phys: nat)
    ensures IsUserWord(phys, Or(phys, 3))
  {
    hide Or;
    Flagged(phys, 3);
    LowFlags(phys);
  }

  /** The lowest bits of a word with its lowest bits set. */
  lemma LowFlags(a: nat)
    ensures Or(a, 3) % 4 == 3 && Or(a, 7) % 8 == 7
    ensures a % 4096 == 0 ==> Or(a, 3) == a + 3 && Or(a, 7) == a + 7
  {
    hide Or;
    OrThree(a);
    OrSeven(a);
    if a % 4096 == 0 {
      WholePages(a);
    }
  }

  lemma WholePages(a: nat)
    requires a % 4096 == 0
    ensures 4 * (a / 4) == a == 8 * (a / 8)
  {
    var q := a / 4096;
    assert a == 4096 * q;
    Divides(4, a, 1024 * q);
    Divides(8, a, 512 * q);
  }

  lemma Divides(d: nat, a: nat, q: nat)
    requires (d == 4 || d == 8) && a == d * q
    ensures a / d == q
  {
  }

  lemma OrSeven(a: nat)
    ensures Or(a, 7) == 8 * (a / 8) + 7
  {
    hide Or;
    var q, r := a / 8, a % 8;
    assert a / 2 == 4 * q + r / 2;
    OrThree(a / 2);
    OrHalf(a, 7);
  }

  lemma OrThree(a: nat)
    ensures Or(a, 3) == 4 * (a / 4) + 3
  {
    hide Or;
    OrHalf(a, 3);
    OrHalf(a / 2, 1);
    OrNone(a / 4);
  }

  lemma NotPresent()
    ensures !Present(0) && Present(7) && Present(0x203) && !Present(0x200)
    ensures !Protected(7) && Protected(0x200) && Protected(0x203)
  {
  }

  lemma Aligned(n: nat)
    ensures Frame(n * 4096) == n * 4096 && !Protected(n * 4096) && !Present(n * 4096)
  {
    FrameOf(n * 4096, n, 0);
    assert n * 4096 / 0x200 == n * 8;
  }

  lemma FrameOf(w: nat, n: nat, r: nat)
    requires w == n * 4096 + r && r < 4096
    ensures Frame(w) == n * 4096
  {
  }

  /** What flags do to an address: they are set, and the frame is that of the address. */
  lemma Flagged(a: nat, f: nat)
    requires f < 4096
    ensures Present(Or(a, f)) <==> Present(a) || Present(f)
    ensures Protected(Or(a, f)) <==> Protected(a) || Protected(f)
    ensures Frame(Or(a, f)) == Frame(a)
  {
    hide Or, Frame;
    OrHalf(a, f);
    OrShifted(a, f);
    OrHalf(a / 0x200, f / 0x200);
    OrNone(a / 4096);
    SameFrame(Or(a, f), a);
  }

  lemma SameFrame(w: nat, a: nat)
    requires w / 4096 == a / 4096
    ensures Frame(w) == Frame(a)
  {
  }

  lemma OrNone(a: nat)
    ensures Or(a, 0) == a
  {
  }

  lemma OrHalf(a: nat, b: nat)
    ensures Or(a, b) % 2 == if a % 2 == 1 || b % 2 == 1 then 1 else 0
    ensures Or(a, b) / 2 == Or(a / 2, b / 2)
  {
  }

  lemma OrEighth(a: nat, b: nat)
    ensures Or(a, b) / 8 == Or(a / 8, b / 8)
  {
    hide Or;
    OrHalf(a, b);
    OrHalf(a / 2, b / 2);
    OrHalf(a / 4, b / 4);
  }

  lemma OrShifted(a: nat, b: nat)
    ensures Or(a, b) / 0x200 == Or(a / 0x200, b / 0x200) && Or(a, b) / 4096 == Or(a / 4096, b / 4096)
  {
    hide Or;
    OrEighth(a, b);
    OrEighth(a / 8, b / 8);
    Eighths(a);
    Eighths(b);
    Eighths(Or(a, b));
    OrEighth(a / 64, b / 64);
    OrEighth(a / 0x200, b / 0x200);
  }

  lemma Eighths(a: nat)
    ensures a / 8 / 8 == a / 64 && a / 64 / 8 == a / 0x200 && a / 0x200 / 8 == a / 4096
  {
  }

  /** Where a table belongs: to all directories, or to one of them. */
  datatype Home = Kernel(i: nat) | User(d: PageDirectory, i: nat)

  function HomeOf(d: PageDirectory, i: nat): Home
  {
    if i >= KERNEL_TABLE then Kernel(i) else User(d, i)
  }

  /** All address spaces of the system. */
  class AddressSpaces {
    const base: PageDirectory
    ghost var dirs: set<PageDirectory>
    /** The tables of all directories, and where they belong. */
    ghost var home: map<array<nat>, Home>
    /** The physical memory the tables lie in, by the address of their frame. */
    ghost var memory: map<nat, array<nat>>

    ghost predicate Shape()
      reads this
    {
      && base in dirs
      && (forall d :: d in dirs ==> d.words.Length == 1024 && d.tables.Length == 1024 && d.words !in home)
      && (forall d, e :: d in dirs && e in dirs && d != e ==> d.words != e.words && d.tables != e.tables)
      && (forall t :: t in home ==> t.Length == 1024)
    }

    /** The table of word `i` exists exactly when the word says so, is at home there, and lies in the frame of the
        word. */
    ghost predicate SlotOk(d: PageDirectory, i: nat)
      requires d.words.Length == 1024 && d.tables.Length == 1024 && i < 1024
      reads this, d.words, d.tables
    {
      && (Present(d.words[i]) <==> d.tables[i] != null)
      && (d.tables[i] != null ==> d.tables[i] in home && home[d.tables[i]] == HomeOf(d, i))
      && (d.tables[i] != null ==> Frame(d.words[i]) in memory && memory[Frame(d.words[i])] == d.tables[i])
    }

    /** A word of the kernel half is the one of the base directory, and so is its table. */
    ghost predicate KernelOk(d: PageDirectory, i: nat)
      requires d.words.Length == 1024 && d.tables.Length == 1024 && i < 1024
      requires base.words.Length == base.tables.Length == 1024
      reads d.words, d.tables, base.words, base.tables
    {
      d.tables[i] != null && d.tables[i] == base.tables[i] && d.words[i] == base.words[i]
    }

    ghost predicate Valid()
      reads this, set d | d in dirs :: d.words, set d | d in dirs :: d.tables
    {
      && Shape()
      && (forall d, i :: d in dirs && 0 <= i < 1024 ==> SlotOk(d, i))
      && (forall d, i :: d in dirs && KERNEL_TABLE <= i < 1024 ==> KernelOk(d, i))
    }

    /** The entry of a page in a directory; 0 when its table is missing. */
    ghost function Word(d: PageDirectory, p: nat): nat
      requires Valid() && d in dirs && p < PAGES
      reads this, set d | d in dirs :: d.words, set d | d in dirs :: d.tables, home.Keys
    {
      assert SlotOk(d, p / 1024);
      if d.tables[p / 1024] == null then 0 else d.tables[p / 1024][p % 1024]
    }

    /** The entry the hardware comes to: from the word of the directory to the frame it gives, and from there to the
        entry in the table. */
    ghost function Walk(d: PageDirectory, virt: address): (w: nat)
      requires Valid() && d in dirs
      reads this, set d | d in dirs :: d.words, set d | d in dirs :: d.tables, home.Keys
    {
      var word := (assert SlotOk(d, virt / 0x40_0000); d.words[virt / 0x40_0000]);
      if word % 2 == 0 then 0 else memory[word - word % 4096][virt / 4096 % 1024]
    }

    /** It is that of the flat map. */
    lemma WalkIsFlat(d: PageDirectory, virt: address)
      requires Valid() && d in dirs
      ensures Walk(d, virt) == Flat(d)[PageOf(virt)]
    {
      assert SlotOk(d, virt / 0x40_0000) && PageOf(virt) / 1024 == virt / 0x40_0000;
    }

    /** A directory as a flat map from pages to entries. */
    ghost function Flat(d: PageDirectory): (ws: seq<nat>)
      requires Valid() && d in dirs
      reads this, set d | d in dirs :: d.words, set d | d in dirs :: d.tables, home.Keys
      ensures |ws| == PAGES
    {
      seq(PAGES, p requires 0 <= p < PAGES reads this, set d | d in dirs :: d.words, set d | d in dirs :: d.tables,
        home.Keys requires Valid() && d in dirs => Word(d, p))
    }

    /** The first directory, on top of `reserved` bytes of memory in use: all its kernel tables exist from the start, in
        a row of pages behind the first heap, and the kernel, the heap and the tables are mapped. More pages than a
        16-bit number counts would not be mapped in finite time. */
    constructor (reserved: nat)
      requires reserved / 4096 + 1024 < 0x1_0000
      ensures Valid() && dirs == {base} && fresh(base) && fresh(home.Keys)
      ensures Flat(base) == BootMap(reserved)
      ensures forall i :: 768 <= i < 1024 ==> IsKernelWord(reserved, i, base.words[i])
      ensures forall a :: a in memory ==> reserved / 4096 + 1024 <= a / 4096 < reserved / 4096 + 1280 && a % 4096 == 0
    {
      var d := new PageDirectory();
      base, dirs, home, memory := d, {d}, map[], map[];
      new;
      AddKernelTables(reserved);
      EnterKernel(reserved);
      EnterTables(reserved);
    }

    /** Maps the memory in use and the first heap at the start of the kernel half; what was in use is protected. */
    method EnterKernel(reserved: nat)
      requires Valid() && dirs == {base} && reserved / 4096 + 1024 < 0x1_0000 && Flat(base) == seq(PAGES, _ => 0)
      modifies home.Keys
      ensures Valid() && Flat(base) == MapUpTo(reserved, reserved / 4096 + 1024, 0)
    {
      hide *;
      var i: nat := 0;
      NoneMapped(reserved);
      while i < reserved / 4096 + 1024
        invariant i <= reserved / 4096 + 1024 && Valid() && Flat(base) == MapUpTo(reserved, i, 0)
      {
        MappedNext(reserved, i, 0);
        KernelTable(KERNEL_PAGE + i);
        Poke(base, KERNEL_PAGE + i, KernelWord(reserved, i));
        i := i + 1;
      }
    }

    /** Maps the kernel tables, the first directory and the list of its tables, protected. */
    method EnterTables(reserved: nat)
      requires Valid() && dirs == {base} && reserved / 4096 + 1024 < 0x1_0000
      requires Flat(base) == MapUpTo(reserved, reserved / 4096 + 1024, 0)
      modifies home.Keys
      ensures Valid() && Flat(base) == BootMap(reserved)
    {
      hide *;
      var i: nat := 0;
      while i < 258
        invariant i <= 258 && Valid() && Flat(base) == MapUpTo(reserved, reserved / 4096 + 1024, i)
      {
        MappedNext(reserved, reserved / 4096 + 1024, i);
        KernelTable(TABLE_PAGE + i);
        Poke(base, TABLE_PAGE + i, TableWord(reserved, i));
        i := i + 1;
      }
      AllMapped(reserved);
    }

    lemma KernelTable(p: nat)
      requires Valid() && KERNEL_TABLE * 1024 <= p < PAGES
      ensures base.tables[p / 1024] != null
    {
      assert KernelOk(base, p / 1024);
    }

    method AddKernelTables(reserved: nat)
      requires dirs == {base} && Shape() && home == map[] && memory == map[]
      requires forall i :: 0 <= i < 1024 ==> base.words[i] == 0 && base.tables[i] == null
      modifies this`home, this`memory, base.words, base.tables
      ensures dirs == {base} && Valid() && fresh(home.Keys) && Flat(base) == seq(PAGES, _ => 0)
      ensures forall i :: 768 <= i < 1024 ==> IsKernelWord(reserved, i, base.words[i])
      ensures forall a :: a in memory ==> reserved / 4096 + 1024 <= a / 4096 < reserved / 4096 + 1280 && a % 4096 == 0
    {
      var idx: nat := KERNEL_TABLE;
      while idx < 1024
        invariant KERNEL_TABLE <= idx <= 1024 && Shape() && fresh(home.Keys)
        invariant forall i :: 0 <= i < 1024 ==> SlotOk(base, i) && (base.tables[i] != null <==> KERNEL_TABLE <= i < idx)
        invariant forall t, k :: t in home && 0 <= k < 1024 ==> t[k] == 0
        invariant forall i :: 768 <= i < idx ==> IsKernelWord(reserved, i, base.words[i])
        invariant forall a :: a in memory ==> exists i :: 768 <= i < idx && a == Frame(base.words[i])
      {
        KernelWordFlagged(reserved, idx);
        AddKernelTable(idx, reserved + 4096 * 1024 + (idx - KERNEL_TABLE) * 4096);
        idx := idx + 1;
      }
      forall p | 0 <= p < PAGES
        ensures Word(base, p) == 0
      {
        assert SlotOk(base, p / 1024);
      }
    }

    method AddKernelTable(idx: nat, phys: nat)
      requires dirs == {base} && Shape() && KERNEL_TABLE <= idx < 1024
      requires forall i :: 0 <= i < 1024 ==> SlotOk(base, i)
      requires forall t, k :: t in home && 0 <= k < 1024 ==> t[k] == 0
      requires base.tables[idx] == null && Frame(phys) !in memory
      modifies this`home, this`memory, base.words, base.tables
      ensures Shape() && home.Keys >= old(home.Keys) && fresh(home.Keys - old(home.Keys))
      ensures forall i :: 0 <= i < 1024 ==> SlotOk(base, i)
      ensures forall i :: 0 <= i < 1024 && i != idx ==> base.tables[i] == old(base.tables[i])
      ensures forall i :: 0 <= i < 1024 && i != idx ==> base.words[i] == old(base.words[i])
      ensures base.tables[idx] != null && base.words[idx] == Or(phys, 7)
      ensures memory.Keys == old(memory.Keys) + {Frame(phys)}
      ensures forall t, k :: t in home && 0 <= k < 1024 ==> t[k] == 0
    {
      var t := new nat[1024](_ => 0);
      Flagged(phys, 7);
      base.words[idx] := Or(phys, 7);
      base.tables[idx] := t;
      home, memory := home[t := Kernel(idx)], memory[Frame(phys) := t];
      forall i | 0 <= i < 1024
        ensures SlotOk(base, i)
      {
        assert old(SlotOk(base, i));
      }
    }

    /** All directories agree on the kernel half. */
    lemma KernelShared(d: PageDirectory, e: PageDirectory, p: nat)
      requires Valid() && d in dirs && e in dirs && p < PAGES && IsKernelPage(p)
      ensures Flat(d)[p] == Flat(e)[p]
    {
      assert KernelOk(d, p / 1024) && KernelOk(e, p / 1024);
    }

    lemma AllShared(dir: PageDirectory)
      requires Valid() && dir in dirs
      ensures forall d, p :: d in dirs && 0 <= p < PAGES && IsKernelPage(p) ==> Flat(d)[p] == Flat(dir)[p]
    {
      hide Valid, Flat, IsKernelPage;
      forall d, p | d in dirs && 0 <= p < PAGES && IsKernelPage(p)
        ensures Flat(d)[p] == Flat(dir)[p]
      {
        KernelShared(d, dir, p);
      }
    }

    /** Adds a table to a directory; the page for it is new and blank, and has the physical address `phys`. */
    method CreateTable(dir: PageDirectory, idx: nat, phys: nat)
      requires Valid() && dir in dirs && idx < 1024 && dir.tables[idx] == null && Frame(phys) !in memory
      modifies this`home, this`memory, dir.words, dir.tables
      ensures Valid() && dirs == old(dirs) && memory.Keys == old(memory.Keys) + {Frame(phys)}
      ensures dir.words.Length == 1024 && IsUserWord(phys, dir.words[idx])
      ensures forall i :: 0 <= i < 1024 && i != idx ==> dir.words[i] == old(dir.words[i])
      ensures old(home.Keys) <= home.Keys && fresh(home.Keys - old(home.Keys))
      ensures dir.tables[idx] != null
      ensures forall d :: d in dirs ==> Flat(d) == old(Flat(d))
    {
      hide Or, Frame, IsUserWord, Protected, KernelOk;
      EnterTable(dir, idx, phys);
      forall d | d in dirs
        ensures Flat(d) == old(Flat(d))
      {
        forall q | 0 <= q < PAGES
          ensures Word(d, q) == old(Word(d, q))
        {
          assert old(SlotOk(d, q / 1024));
        }
      }
    }

    /** Stores the word and the table. */
    method EnterTable(dir: PageDirectory, idx: nat, phys: nat)
      requires Valid() && dir in dirs && idx < 1024 && dir.tables[idx] == null && Frame(phys) !in memory
      modifies this`home, this`memory, dir.words, dir.tables
      ensures Valid() && dirs == old(dirs) && memory.Keys == old(memory.Keys) + {Frame(phys)}
      ensures IsUserWord(phys, dir.words[idx])
      ensures forall i :: 0 <= i < 1024 && i != idx ==> dir.words[i] == old(dir.words[i])
      ensures forall i :: 0 <= i < 1024 && i != idx ==> dir.tables[i] == old(dir.tables[i])
      ensures old(home.Keys) <= home.Keys && fresh(home.Keys - old(home.Keys))
      ensures dir.tables[idx] != null && dir.tables[idx] in home
      ensures forall k :: 0 <= k < 1024 ==> dir.tables[idx][k] == 0
    {
      hide Or, Frame, IsUserWord, Protected;
      assert idx < KERNEL_TABLE by {
        assert idx >= KERNEL_TABLE ==> KernelOk(dir, idx);
      }
      var t := new nat[1024](_ => 0);
      Flagged(phys, 3);
      UserWordFlagged(phys);
      dir.words[idx] := Or(phys, 3);
      dir.tables[idx] := t;
      home, memory := home[t := User(dir, idx)], memory[Frame(phys) := t];
      forall d, i | d in dirs && 0 <= i < 1024
        ensures SlotOk(d, i) && (i >= KERNEL_TABLE ==> KernelOk(d, i))
      {
        assert old(SlotOk(d, i)) && (i >= KERNEL_TABLE ==> old(KernelOk(d, i)));
      }
    }

    /** Writes the entry of a page. All directories that have the table see it: that one, or all of them for a kernel
        page. */
    method Poke(dir: PageDirectory, p: nat, w: nat)
      requires Valid() && dir in dirs && p < PAGES && dir.tables[p / 1024] != null
      modifies home.Keys
      ensures Valid() && forall d :: d in dirs ==> Flat(d) == Update(old(Flat(d)), d == dir, p, w)
      ensures dir.words.Length == 1024 && forall i :: 0 <= i < 1024 ==> dir.words[i] == old(dir.words[i])
    {
      hide Frame;
      assert SlotOk(dir, p / 1024);
      var t := dir.tables[p / 1024];
      t[p % 1024] := w;
      forall d | d in dirs
        ensures Flat(d) == Update(old(Flat(d)), d == dir, p, w)
      {
        forall q | 0 <= q < PAGES
          ensures Word(d, q) == if q == p && (d == dir || IsKernelPage(p)) then w else old(Word(d, q))
        {
          assert SlotOk(d, q / 1024);
          if q / 1024 >= KERNEL_TABLE {
            assert KernelOk(d, q / 1024) && KernelOk(dir, q / 1024);
          }
        }
      }
    }

    /** The entry of a page; none when its table is missing. */
    method Peek(dir: PageDirectory, p: nat) returns (there: bool, w: nat)
      requires Valid() && dir in dirs && p < PAGES
      ensures w == Flat(dir)[p] && (there <==> dir.tables[p / 1024] != null)
      ensures there <==> dir.words[p / 1024] % 2 == 1
      ensures Present(w) ==> there
    {
      assert SlotOk(dir, p / 1024);
      there, w := dir.words[p / 1024] % 2 == 1, 0;
      if there {
        w := dir.tables[p / 1024][p % 1024];
      }
    }

    /** map: enters a page into a directory, whose table is created first if it is missing. A page that is mapped
        already is an error. */
    method Map(dir: PageDirectory, phys: nat, virt: address, flags: nat, tablePhys: nat) returns (ok: bool)
      requires Valid() && dir in dirs && Frame(tablePhys) !in memory
      modifies this`home, this`memory, dir.words, dir.tables, home.Keys
      ensures Valid() && dirs == old(dirs) && old(home.Keys) <= home.Keys && fresh(home.Keys - old(home.Keys))
      ensures ok <==> !Present(old(Flat(dir))[PageOf(virt)])
      ensures forall d :: d in dirs ==> Flat(d) == if ok
        then Update(old(Flat(d)), d == dir, PageOf(virt), Or(phys, flags)) else old(Flat(d))
      ensures dir.words.Length == 1024
      ensures forall i :: 0 <= i < 1024 && !(i == virt / 0x40_0000 && old(dir.words[i]) % 2 == 0) ==>
        dir.words[i] == old(dir.words[i])
      ensures old(dir.words[virt / 0x40_0000]) % 2 == 0 ==> IsUserWord(tablePhys, dir.words[virt / 0x40_0000])
      ensures old(memory.Keys) <= memory.Keys <= old(memory.Keys) + {Frame(tablePhys)}
    {
      hide Valid, Flat, Word, Update, SlotOk, KernelOk, IsUserWord, Or;
      var p := PageOf(virt);
      Lengths(dir);
      var there, w := Peek(dir, p);
      if !there {
        CreateTable(dir, p / 1024, tablePhys);
        there, w := Peek(dir, p);
      }
      if w % 2 == 1 {
        return false;
      }
      Poke(dir, p, Or(phys, flags));
      ok := true;
    }

    lemma Lengths(dir: PageDirectory)
      requires Valid() && dir in dirs
      ensures dir.words.Length == dir.tables.Length == 1024
    {
    }

    /** unmap: clears the entry of a page that is mapped and not protected, and tells its frame. */
    method Unmap(dir: PageDirectory, virt: address) returns (phys: nat)
      requires Valid() && dir in dirs
      modifies home.Keys
      ensures Valid()
      ensures var w := old(Flat(dir))[PageOf(virt)];
        && phys == (if Removable(w) then Frame(w) else 0)
        && forall d :: d in dirs ==> Flat(d) == if Removable(w) then Update(old(Flat(d)), d == dir, PageOf(virt), 0)
          else old(Flat(d))
    {
      hide Valid, Flat, Word, Update, SlotOk, KernelOk, Protected;
      var p := PageOf(virt);
      Lengths(dir);
      var there, w := Peek(dir, p);
      if !there || w % 2 == 0 || Protected(w) {
        return 0;
      }
      Poke(dir, p, 0);
      phys := Frame(w);
    }

    lemma Guarded(w: nat)
      ensures !Protected(w) ==> Protected(w + 0x200)
    {
      assert (w + 0x200) / 0x200 == w / 0x200 + 1;
    }

    /** Protects a mapped page from being unmapped. */
    method Protect(dir: PageDirectory, virt: address)
      requires Valid() && dir in dirs
      modifies home.Keys
      ensures Valid() && !Removable(Flat(dir)[PageOf(virt)])
      ensures var w := old(Flat(dir))[PageOf(virt)];
        forall d :: d in dirs ==> Flat(d) == if Removable(w)
          then Update(old(Flat(d)), d == dir, PageOf(virt), w + 0x200) else old(Flat(d))
    {
      hide Valid, Flat, Word, SlotOk, KernelOk, Protected;
      var p := PageOf(virt);
      Lengths(dir);
      var there, w := Peek(dir, p);
      Guarded(w);
      if there && w % 2 == 1 && !Protected(w) {
        Poke(dir, p, w + 0x200);
      }
    }

    /** The frame of a page; 0 when it is not mapped. */
    method GetPhysicalAddress(dir: PageDirectory, virt: address) returns (phys: nat)
      requires Valid() && dir in dirs
      ensures phys == if Present(Flat(dir)[PageOf(virt)]) then Frame(Flat(dir)[PageOf(virt)]) else 0
    {
      hide Valid, Flat, Word;
      var there, w := Peek(dir, PageOf(virt));
      phys := if there && w % 2 == 1 then Frame(w) else 0;
    }

    /** A new address space: its user half is empty and its kernel half that of the base directory. `granted` says
        whether there is memory for it. */
    method CreateAddressSpace(granted: bool) returns (d: PageDirectory?)
      requires Valid()
      modifies this`dirs
      ensures Valid() && (d != null <==> granted)
      ensures d == null ==> dirs == old(dirs)
      ensures d != null ==> fresh(d) && fresh(d.words) && fresh(d.tables) && dirs == old(dirs) + {d}
      ensures d != null ==> Flat(d) == Inherited(old(Flat(base)))
      ensures forall e :: e in old(dirs) ==> Flat(e) == old(Flat(e))
    {
      if !granted {
        return null;
      }
      var n := new PageDirectory();
      CopyKernel(n);
      d := n;
      dirs := dirs + {n};
      forall e, i | e in dirs && 0 <= i < 1024
        ensures SlotOk(e, i) && (i >= KERNEL_TABLE ==> KernelOk(e, i))
      {
        assert old(SlotOk(base, i)) && (i >= KERNEL_TABLE ==> old(KernelOk(base, i)));
        assert e != n ==> old(SlotOk(e, i)) && (i >= KERNEL_TABLE ==> old(KernelOk(e, i)));
      }
    }

    /** Copies the words of the kernel half, so that the new directory has the same tables. */
    method CopyKernel(d: PageDirectory)
      requires Valid() && d !in dirs && d.words.Length == d.tables.Length == 1024 && d.words !in home
      requires forall e :: e in dirs ==> e.words != d.words && e.tables != d.tables
      requires forall i :: 0 <= i < 1024 ==> d.words[i] == 0 && d.tables[i] == null
      modifies d.words, d.tables
      ensures Valid()
      ensures forall i :: 0 <= i < KERNEL_TABLE ==> d.words[i] == 0 && d.tables[i] == null
      ensures forall i :: KERNEL_TABLE <= i < 1024 ==> d.words[i] == base.words[i] && d.tables[i] == base.tables[i]
    {
      var idx := KERNEL_TABLE;
      while idx < 1024
        invariant KERNEL_TABLE <= idx <= 1024 && Valid()
        invariant forall i :: 0 <= i < KERNEL_TABLE || idx <= i < 1024 ==> d.words[i] == 0 && d.tables[i] == null
        invariant forall i :: KERNEL_TABLE <= i < idx ==> d.words[i] == base.words[i] && d.tables[i] == base.tables[i]
      {
        d.words[idx] := base.words[idx];
        d.tables[idx] := base.tables[idx];
        idx := idx + 1;
      }
    }

    /** map over a range: enters the pages counted by `RangePages` from that of `start` on, with the frames the
        allocator gives, up to the first one that is mapped already. */
    method MapRange(dir: PageDirectory, start: address, end: address, flags: nat, frames: nat -> nat,
                    tablePhys: nat -> nat)
      returns (ok: bool, ghost n: nat)
      requires Valid() && dir in dirs
      requires NewTables(tablePhys, 0, memory.Keys)
      modifies this`home, this`memory, dir.words, dir.tables, home.Keys
      ensures Valid() && dirs == old(dirs) && n <= RangePages(start, end)
      ensures ok ==> n == RangePages(start, end)
      ensures !ok ==> n < RangePages(start, end) && Present(old(Flat(dir))[PageOf(start) + n])
      ensures forall q :: PageOf(start) <= q < PageOf(start) + n ==> !Present(old(Flat(dir))[q])
      ensures forall d :: d in dirs ==> Flat(d) == Entered(old(Flat(d)), d == dir, PageOf(start), n, frames, flags)
    {
      hide *;
      var first, count := PageOf(start), RangePages(start, end);
      var i: nat := 0;
      n := 0;
      ghost var before := Flat(dir);
      NoneEntered(frames, flags);
      while i < count
        invariant Valid() && dirs == old(dirs) && n == i <= count && first + count <= PAGES
        invariant old(home.Keys) <= home.Keys && fresh(home.Keys - old(home.Keys))
        invariant NewTables(tablePhys, i, memory.Keys)
        invariant forall q :: first <= q < first + n ==> !Present(before[q])
        invariant forall d :: d in dirs ==> Flat(d) == Entered(old(Flat(d)), d == dir, first, n, frames, flags)
      {
        PageStart(first + i);
        TakeTable(tablePhys, i, memory.Keys);
        NotYet(before, true, first, n, frames, flags);
        var done := Map(dir, frames(i), (first + i) * 4096, flags, tablePhys(i));
        if !done {
          return false, n;
        }
        forall d | d in dirs
          ensures Flat(d) == Entered(old(Flat(d)), d == dir, first, n + 1, frames, flags)
        {
          OneMore(old(Flat(d)), d == dir, first, n, frames, flags);
        }
        i, n := i + 1, n + 1;
      }
      ok := true;
    }

    /** unmap over a range: unmaps page after page, but gives up after three in a row for which no frame was told. */
    method UnmapRange(dir: PageDirectory, start: address, end: address) returns (phys: nat, ghost n: nat)
      requires Valid() && dir in dirs
      modifies home.Keys
      ensures Valid() && n <= InnerPages(start, end).1
      ensures n == InnerPages(start, end).1 || (n >= 3 && ThreeSilent(old(Flat(dir)), InnerPages(start, end).0, n))
      ensures forall m :: 3 <= m < n ==> !ThreeSilent(old(Flat(dir)), InnerPages(start, end).0, m)
      ensures phys == if n == 0 then 0 else Told(old(Flat(dir))[InnerPages(start, end).0 + n - 1])
      ensures forall d :: d in dirs ==> Flat(d) == Cleared(old(Flat(d)), d == dir, InnerPages(start, end).0, n)
    {
      hide *;
      var r := InnerPages(start, end);
      var first, count := r.0, r.1;
      phys, n := 0, 0;
      var i: nat, cnt: nat := 0, 0;
      ghost var before := Flat(dir);
      NoneCleared();
      AllShared(dir);
      while i < count
        invariant Valid() && n == i <= count && cnt < 3 && cnt <= n
        invariant forall q :: first + n - cnt <= q < first + n ==> Silent(before[q])
        invariant cnt < n ==> !Silent(before[first + n - cnt - 1])
        invariant forall m :: 3 <= m <= n ==> !ThreeSilent(before, first, m)
        invariant phys == if n == 0 then 0 else Told(before[first + n - 1])
        invariant forall d :: d in dirs ==> Flat(d) == Cleared(old(Flat(d)), d == dir, first, n)
      {
        PageStart(first + i);
        ClearedNext(before, true, first, n);
        phys := Unmap(dir, (first + i) * 4096);
        forall d | d in dirs
          ensures Flat(d) == Cleared(old(Flat(d)), d == dir, first, n + 1)
        {
          SameStep(d, dir, old(Flat(d)), before, first, n);
        }
        IsSilent(before[first + i]);
        i, n := i + 1, n + 1;
        cnt := if phys == 0 then cnt + 1 else 0;
        SilentRun(before, first, n, cnt);
        if cnt == 3 {
          break;
        }
      }
    }
  }

  /** An entry whose unmapping tells no frame. */
  predicate Silent(w: nat)
  {
    !Removable(w) || Frame(w) == 0
  }

  /** What unmapping an entry tells. */
  function Told(w: nat): nat
  {
    if Removable(w) then Frame(w) else 0
  }

  lemma IsSilent(w: nat)
    ensures Told(w) == (if Removable(w) then Frame(w) else 0) && (Silent(w) <==> Told(w) == 0)
  {
  }

  /** The three pages in front of page `first + m` tell no frame. */
  ghost predicate ThreeSilent(ws: seq<nat>, first: nat, m: nat)
    requires 3 <= m && first + m <= |ws|
  {
    Silent(ws[first + m - 3]) && Silent(ws[first + m - 2]) && Silent(ws[first + m - 1])
  }

  lemma SilentRun(ws: seq<nat>, first: nat, n: nat, cnt: nat)
    requires cnt <= 3 && cnt <= n && first + n <= |ws| && (cnt < n ==> cnt == 3 || !Silent(ws[first + n - cnt - 1]))
    requires forall q :: first + n - cnt <= q < first + n ==> Silent(ws[q])
    ensures 3 <= n ==> (ThreeSilent(ws, first, n) <==> cnt == 3)
  {
  }

  lemma SameStep(d: PageDirectory, dir: PageDirectory, ws: seq<nat>, before: seq<nat>, first: nat, n: nat)
    requires first + n < |ws| == |before| && (d == dir ==> ws == before)
    requires (IsKernelPage(first + n) ==> ws[first + n] == before[first + n])
    ensures Cleared(ws, d == dir, first, n + 1) ==
      if Removable(before[first + n]) then Update(Cleared(ws, d == dir, first, n), d == dir, first + n, 0)
        else Cleared(ws, d == dir, first, n)
  {
    ClearedNext(ws, d == dir, first, n);
  }

  /** A flat map after the pages from `first` below `first + n` that can be unmapped were. */
  function Cleared(ws: seq<nat>, own: bool, first: nat, n: nat): (r: seq<nat>)
    requires first + n <= |ws|
    ensures |r| == |ws|
  {
    seq(|ws|, q requires 0 <= q < |ws| =>
      if first <= q < first + n && (own || IsKernelPage(q)) && Removable(ws[q]) then 0 else ws[q])
  }

  lemma ClearedNext(ws: seq<nat>, own: bool, first: nat, n: nat)
    requires first + n < |ws|
    ensures Cleared(ws, own, first, n)[first + n] == ws[first + n]
    ensures Cleared(ws, own, first, n + 1) == if Removable(ws[first + n])
      then Update(Cleared(ws, own, first, n), own, first + n, 0) else Cleared(ws, own, first, n)
  {
  }

  lemma NoneCleared()
    ensures forall ws, own, first: nat :: first <= |ws| ==> Cleared(ws, own, first, 0) == ws
  {
    forall ws: seq<nat>, own, first: nat | first <= |ws|
      ensures Cleared(ws, own, first, 0) == ws
    {
    }
  }

  /** The pages a range is taken to have, and whether there are any: the ends are rounded inwards in 32 bits. */
  function InnerPages(start: address, end: address): (r: (nat, nat))
    ensures r.0 + r.1 <= PAGES
  {
    var first := (start / 4096 + (if start % 4096 != 0 then 1 else 0)) % PAGES;
    var last := (end / 4096 - (if (end + 1) % 4096 != 0 then 1 else 0)) % PAGES;
    if last * 4096 < start || last < first then (0, 0) else (first, last - first + 1)
  }

  predicate IsInner(p: nat, start: address, end: address)
  {
    InnerPages(start, end).0 <= p < InnerPages(start, end).0 + InnerPages(start, end).1
  }

  /** A page all of whose bytes are in the range. */
  predicate Whole(p: nat, start: address, end: address)
  {
    start <= p * 4096 && p * 4096 + 4095 <= end
  }

  /** The pages taken are the whole pages of the range, exactly when the range does not end inside the first page or
      starts inside the last. */
  lemma InnerIsWhole(start: address, end: address)
    ensures (forall p :: 0 <= p < PAGES ==> (IsInner(p, start, end) <==> Whole(p, start, end)))
      <==> end >= 4095 || start > 0xFFFF_F000
  {
    if end >= 4095 || start > 0xFFFF_F000 {
      forall p | 0 <= p < PAGES
        ensures IsInner(p, start, end) <==> Whole(p, start, end)
      {
      }
    } else {
      assert IsInner(PAGES - 1, start, end) && !Whole(PAGES - 1, start, end);
    }
  }

  /** Unmapping the first hundred bytes of memory takes all pages there are. */
  lemma TooManyPages()
    ensures InnerPages(0, 100) == (0, PAGES) && forall p :: 0 <= p < PAGES ==> !Whole(p, 0, 100)
  {
  }

  /** From the one of number `i` on, the frames given for tables differ and are not in use. */
  ghost predicate NewTables(tablePhys: nat -> nat, i: nat, used: set<nat>)
  {
    && (forall j: nat, k: nat :: i <= j < k ==> Frame(tablePhys(j)) != Frame(tablePhys(k)))
    && (forall j: nat :: i <= j ==> Frame(tablePhys(j)) !in used)
  }

  lemma TakeTable(tablePhys: nat -> nat, i: nat, used: set<nat>)
    requires NewTables(tablePhys, i, used)
    ensures Frame(tablePhys(i)) !in used
    ensures forall now: set<nat> :: now <= used + {Frame(tablePhys(i))} ==> NewTables(tablePhys, i + 1, now)
  {
    hide Frame;
  }

  lemma PageStart(p: nat)
    requires p < PAGES
    ensures p * 4096 < 0x1_0000_0000 && PageOf(p * 4096) == p
  {
  }

  lemma OneMore(ws: seq<nat>, own: bool, first: nat, n: nat, frames: nat -> nat, flags: nat)
    requires first + n < |ws|
    ensures Entered(ws, own, first, n + 1, frames, flags) ==
      Update(Entered(ws, own, first, n, frames, flags), own, first + n, Or(frames(n), flags))
  {
  }

  lemma NoneEntered(frames: nat -> nat, flags: nat)
    ensures forall ws, own, first: nat :: first <= |ws| ==> Entered(ws, own, first, 0, frames, flags) == ws
  {
  }

  /** A flat map after the first `n` pages from `first` on were entered in a directory. */
  ghost function Entered(ws: seq<nat>, own: bool, first: nat, n: nat, frames: nat -> nat, flags: nat): (r: seq<nat>)
    requires first + n <= |ws|
    ensures |r| == |ws|
  {
    if n == 0 then ws else Update(Entered(ws, own, first, n - 1, frames, flags), own, first + n - 1,
      Or(frames(n - 1), flags))
  }

  /** Which entries that are. */
  lemma {:induction false} EnteredAt(ws: seq<nat>, own: bool, first: nat, n: nat, frames: nat -> nat, flags: nat,
                                     q: nat)
    requires first + n <= |ws| && q < |ws|
    ensures Entered(ws, own, first, n, frames, flags)[q] ==
      if first <= q < first + n && (own || IsKernelPage(q)) then Or(frames(q - first), flags) else ws[q]
  {
    if n > 0 {
      EnteredAt(ws, own, first, n - 1, frames, flags, q);
    }
  }

  lemma NotYet(ws: seq<nat>, own: bool, first: nat, n: nat, frames: nat -> nat, flags: nat)
    requires first + n < |ws|
    ensures Entered(ws, own, first, n, frames, flags)[first + n] == ws[first + n]
  {
    EnteredAt(ws, own, first, n, frames, flags, first + n);
  }

  /** Number of pages a range is taken to have, from that of `start` on up to its end, which is rounded up in 32
      bits. */
  function RangePages(start: address, end: address): (n: nat)
    ensures PageOf(start) + n <= PAGES
  {
    var from, upTo := start / 4096, (end / 4096 + (if end % 4096 == 0 then 0 else 1)) % PAGES;
    if from < upTo then upTo - from else 0
  }

  /** The pages taken for the range. */
  predicate Taken(p: nat, start: address, end: address)
  {
    PageOf(start) <= p < PageOf(start) + RangePages(start, end)
  }

  /** The page and the range, the end excluded, overlap. */
  predicate Meets(p: nat, start: address, end: address)
  {
    p * 4096 < end && start < p * 4096 + 4096
  }

  /** A byte of the range, the end excluded, lies in the page. */
  ghost predicate HasByte(p: nat, start: address, end: address)
  {
    exists a: address :: start <= a < end && PageOf(a) == p
  }

  /** The pages taken are those that overlap with the range, if and only if it does not end inside the last page. */
  lemma TakenMeet(start: address, end: address)
    ensures (forall p :: 0 <= p < PAGES ==> (Taken(p, start, end) <==> Meets(p, start, end))) <==> end <= 0xFFFF_F000
  {
    if end > 0xFFFF_F000 {
      assert Meets(PAGES - 1, start, end) && !Taken(PAGES - 1, start, end);
    }
  }

  lemma MeetsAt(p: nat, start: address, end: address)
    requires p < PAGES
    ensures HasByte(p, start, end) <==> Meets(p, start, end) && start < end
  {
    if Meets(p, start, end) && start < end {
      var a: address := if start <= p * 4096 then p * 4096 else start;
      assert PageOf(a) == p;
    }
  }

  /** The pages taken are those with a byte of the range: of one that is not empty, if and only if it does not end
      inside the last page, and of an empty one, if and only if it does or its ends do not lie inside the same page. */
  lemma TakenHaveBytes(start: address, end: address)
    ensures (forall p :: 0 <= p < PAGES ==> (Taken(p, start, end) <==> HasByte(p, start, end)))
      <==> (if start < end then end <= 0xFFFF_F000
            else end > 0xFFFF_F000 || end % 4096 == 0 || PageOf(start) != PageOf(end))
  {
    TakenMeet(start, end);
    forall p | 0 <= p < PAGES
      ensures HasByte(p, start, end) <==> Meets(p, start, end) && start < end
    {
      MeetsAt(p, start, end);
    }
    if start >= end {
      assert forall p :: Taken(p, start, end) ==> p == PageOf(end) == PageOf(start);
      assert RangePages(start, end) > 0 ==> Taken(PageOf(start), start, end);
    }
  }

  /** What mapping such a range enters into the flat map of its directory: exactly the pages with a byte of it. */
  lemma RangeEntered(ws: seq<nat>, start: address, end: address, frames: nat -> nat, flags: nat, p: nat)
    requires |ws| == PAGES && start < end <= 0xFFFF_F000 && p < PAGES
    ensures HasByte(p, start, end) ==> PageOf(start) <= p
    ensures Entered(ws, true, PageOf(start), RangePages(start, end), frames, flags)[p] ==
      if HasByte(p, start, end) then Or(frames(p - PageOf(start)), flags) else ws[p]
  {
    hide HasByte;
    TakenMeet(start, end);
    MeetsAt(p, start, end);
    EnteredAt(ws, true, PageOf(start), RangePages(start, end), frames, flags, p);
    assert Taken(p, start, end) <==> Meets(p, start, end);
  }

  /** Mapping the last two pages but for the last byte maps nothing. */
  lemma NothingTaken()
    ensures RangePages(0xFFFF_E000, 0xFFFF_FFFF) == 0
    ensures HasByte(PAGES - 2, 0xFFFF_E000, 0xFFFF_FFFF) && HasByte(PAGES - 1, 0xFFFF_E000, 0xFFFF_FFFF)
  {
    MeetsAt(PAGES - 2, 0xFFFF_E000, 0xFFFF_FFFF);
    MeetsAt(PAGES - 1, 0xFFFF_E000, 0xFFFF_FFFF);
  }
}
