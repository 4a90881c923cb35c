/** The 4-level page-table walk and the PML4 updates (kernel/src/memory/pages.cpp, pstructs.hpp, pstructs.cpp). */
module PageWalk {
  import opened LinearAddress
  import opened Options

  /** A physical address. */
  datatype Location = At(addr: bv64)

  /** The mapped 64-bit words; reading or writing anywhere else is a fault. */
  type Memory = map<Location, bv64>

  /** The indices a walk has still to follow, top table first. */
  datatype Path = End | Level(index: bv16, below: Path)

  /**
   PagingEntryDescriptor::address. The mask 0xFFF'FFFF << 12 is an int with its sign bit set, so
   widening fills the upper half with ones.
   */
  function Address(entry: bv64): bv64 {
    PageOf(entry)
  }

  /** The page an address lies in: its low 12 bits cleared. */
  function PageOf(addr: bv64): bv64 {
    addr & 0xFFFF_FFFF_FFFF_F000
  }

  function Pm4l(cr3: bv64): bv64 {
    (cr3 >> 12) << 12
  }

  function EntryAt(table: bv64, index: bv16): Location {
    At(table + 8 * (index as bv64))
  }

  /** The descent through one table per index; None when an entry is not mapped. */
  function WalkFrom(mem: Memory, table: bv64, path: Path): Option<bv64>
    decreases path
  {
    match path
    case End => Some(table)
    case Level(index, below) =>
      var at := EntryAt(table, index);
      if at in mem then WalkFrom(mem, Address(mem[at]), below) else None
  }

  function PathBelowTop(vaddr: bv64): Path {
    var ix := Extract(vaddr);
    Level(ix.pdpt, Level(ix.pd, Level(ix.pt, End)))
  }

  function WalkPath(vaddr: bv64): Path {
    Level(Extract(vaddr).pml4, PathBelowTop(vaddr))
  }

  function Walk(mem: Memory, cr3: bv64, vaddr: bv64): Option<bv64> {
    WalkFrom(mem, Pm4l(cr3), WalkPath(vaddr))
  }

  /** The tables the descent reads from. */
  function Tables(mem: Memory, table: bv64, path: Path): set<Location>
    decreases path
  {
    match path
    case End => {}
    case Level(index, below) =>
      var at := EntryAt(table, index);
      {At(table)} + if at in mem then Tables(mem, Address(mem[at]), below) else {}
  }

  /** The entries the descent reads. */
  function Reads(mem: Memory, table: bv64, path: Path): set<Location>
    decreases path
  {
    match path
    case End => {}
    case Level(index, below) =>
      var at := EntryAt(table, index);
      {at} + if at in mem then Reads(mem, Address(mem[at]), below) else {}
  }

  /** Every index selects one of the 512 entries of a table. */
  predicate InTable(path: Path) {
    match path
    case End => true
    case Level(index, below) => index < 512 && InTable(below)
  }

  // ----- the walk of the manual -----

  /** The physical-address field of cr3 or an entry: bits 51 to 12. */
  function AddressField(entry: bv64): bv64 {
    entry & 0x000F_FFFF_FFFF_F000
  }

  predicate Present(entry: bv64) {
    entry & 1 == 1
  }

  /** Bit 7, the page-size bit of an entry that is not in a page table. */
  predicate LargePage(entry: bv64) {
    entry & 0x80 != 0
  }

  /** An entry by which a walk of 4-KiB pages goes on: present and, above the last level, no large page. */
  predicate Usable(entry: bv64, below: Path) {
    Present(entry) && (below.Level? ==> !LargePage(entry))
  }

  /** The walk of 4-KiB pages of section 4.5 in volume 3A of the Intel SDM; None where it has no page. */
  function ManualWalkFrom(mem: Memory, table: bv64, path: Path): Option<bv64>
    decreases path
  {
    match path
    case End => Some(table)
    case Level(index, below) =>
      var at := EntryAt(table, index);
      if at in mem && Usable(mem[at], below) then ManualWalkFrom(mem, AddressField(mem[at]), below) else None
  }

  function ManualWalk(mem: Memory, cr3: bv64, vaddr: bv64): Option<bv64> {
    ManualWalkFrom(mem, AddressField(cr3), WalkPath(vaddr))
  }

  /** All entries on the way are mapped and usable. */
  predicate AllUsable(mem: Memory, table: bv64, path: Path)
    decreases path
  {
    match path
    case End => true
    case Level(index, below) =>
      var at := EntryAt(table, index);
      at in mem && Usable(mem[at], below) && AllUsable(mem, Address(mem[at]), below)
  }

  /** The entries the descent reads have bits 63 to 52 clear. */
  predicate HighBitsClear(mem: Memory, table: bv64, path: Path)
    decreases path
  {
    match path
    case End => true
    case Level(index, below) =>
      var at := EntryAt(table, index);
      at in mem ==> mem[at] >> 52 == 0 && HighBitsClear(mem, Address(mem[at]), below)
  }

  /** Only physical addresses, of 52 bits at most, are mapped. */
  ghost predicate Physical(mem: Memory) {
    forall at :: at in mem ==> at.addr >> 52 == 0
  }

  /** address() is the manual's field exactly for entries with bits 63 to 52 clear. */
  lemma AddressIsManualsIff(entry: bv64)
    ensures Address(entry) == AddressField(entry) <==> entry >> 52 == 0
  {
  }

  /**
   Over entries with bits 63 to 52 clear the manual translates exactly when all are usable, and the
   code does as the manual exactly then or when it faults: it never looks at the two bits.
   */
  lemma {:induction false} DescentIsManualsIff(mem: Memory, table: bv64, path: Path)
    requires HighBitsClear(mem, table, path)
    ensures ManualWalkFrom(mem, table, path).Some? <==> AllUsable(mem, table, path)
    ensures WalkFrom(mem, table, path) == ManualWalkFrom(mem, table, path) <==>
            AllUsable(mem, table, path) || WalkFrom(mem, table, path) == None
    decreases path
  {
    match path
    case End =>
    case Level(index, below) =>
      var at := EntryAt(table, index);
      if at in mem {
        AddressIsManualsIff(mem[at]);
        DescentIsManualsIff(mem, Address(mem[at]), below);
      }
  }

  /** No word of a table above 2^52 is mapped. */
  lemma HighTableFaults(mem: Memory, table: bv64, index: bv16, below: Path)
    requires Physical(mem) && PageOf(table) == table && table >> 52 != 0 && index < 512
    ensures WalkFrom(mem, table, Level(index, below)) == None
  {
    HighEntry(table, index as bv64);
  }

  lemma HighEntry(table: bv64, x: bv64)
    requires PageOf(table) == table && x < 512
    ensures (table + 8 * x) >> 52 == table >> 52
  {
  }

  lemma AddressHighBits(entry: bv64)
    ensures Address(entry) >> 52 == entry >> 52
  {
  }

  /** Where the manual translates, the code does the same exactly when no entry has a bit above 51. */
  lemma {:induction false} TranslatedAlikeIff(mem: Memory, table: bv64, path: Path)
    requires Physical(mem) && InTable(path) && ManualWalkFrom(mem, table, path).Some?
    ensures WalkFrom(mem, table, path) == ManualWalkFrom(mem, table, path) <==> HighBitsClear(mem, table, path)
    decreases path
  {
    match path
    case End =>
    case Level(index, below) =>
      var entry := mem[EntryAt(table, index)];
      AddressIsManualsIff(entry);
      if entry >> 52 == 0 {
        TranslatedAlikeIff(mem, Address(entry), below);
      } else if below.Level? {
        AddressIsPage(entry);
        AddressHighBits(entry);
        HighTableFaults(mem, Address(entry), below.index, below.below);
      }
  }

  /** Where the manual translates, the code does the same exactly when cr3 and the entries have no bit above 51. */
  lemma WalkIsManualsIff(mem: Memory, cr3: bv64, vaddr: bv64)
    requires Physical(mem) && ManualWalk(mem, cr3, vaddr).Some?
    ensures Walk(mem, cr3, vaddr) == ManualWalk(mem, cr3, vaddr) <==>
            cr3 >> 52 == 0 && HighBitsClear(mem, Pm4l(cr3), WalkPath(vaddr))
  {
    WalkPathInTable(vaddr);
    DescentFromCr3(mem, cr3, WalkPath(vaddr));
  }

  /** Without such bits the code does as the manual exactly when all entries are usable, or it faults. */
  lemma WalkIgnoresBitsIff(mem: Memory, cr3: bv64, vaddr: bv64)
    requires cr3 >> 52 == 0 && HighBitsClear(mem, Pm4l(cr3), WalkPath(vaddr))
    ensures ManualWalk(mem, cr3, vaddr).Some? <==> AllUsable(mem, Pm4l(cr3), WalkPath(vaddr))
    ensures Walk(mem, cr3, vaddr) == ManualWalk(mem, cr3, vaddr) <==>
            AllUsable(mem, Pm4l(cr3), WalkPath(vaddr)) || Walk(mem, cr3, vaddr) == None
  {
    Pm4lIsPage(cr3);
    AddressIsManualsIff(cr3);
    DescentIsManualsIff(mem, Pm4l(cr3), WalkPath(vaddr));
  }

  lemma DescentFromCr3(mem: Memory, cr3: bv64, path: Path)
    requires Physical(mem) && InTable(path) && path.Level? && ManualWalkFrom(mem, AddressField(cr3), path).Some?
    ensures WalkFrom(mem, Pm4l(cr3), path) == ManualWalkFrom(mem, AddressField(cr3), path) <==>
            cr3 >> 52 == 0 && HighBitsClear(mem, Pm4l(cr3), path)
  {
    Pm4lIsPage(cr3);
    AddressIsManualsIff(cr3);
    if cr3 >> 52 == 0 {
      TranslatedAlikeIff(mem, Pm4l(cr3), path);
    } else {
      AddressHighBits(cr3);
      HighTableFaults(mem, Pm4l(cr3), path.index, path.below);
    }
  }

  /** Four tables none of whose entries is present: the manual has no page at address 0, the code finds one. */
  lemma AbsentPageTranslated(mem: Memory)
    requires mem == map[At(0x1000) := 0x2000, At(0x2000) := 0x3000, At(0x3000) := 0x4000, At(0x4000) := 0x5000]
    ensures Walk(mem, 0x1000, 0) == Some(0x5000)
    ensures ManualWalk(mem, 0x1000, 0) == None
  {
    var path := Level(0, Level(0, Level(0, Level(0, End))));
    assert WalkPath(0) == path;
    assert Pm4l(0x1000) == 0x1000 == AddressField(0x1000);
    OneLevel(mem, 0x1000, 0, Level(0, Level(0, Level(0, End))));
    OneLevel(mem, 0x2000, 0, Level(0, Level(0, End)));
    OneLevel(mem, 0x3000, 0, Level(0, End));
    OneLevel(mem, 0x4000, 0, End);
  }

  // ----- words and tables -----

  /** All eight bytes of an entry lie in the page of its table. */
  lemma EntryInPage(table: bv64, index: bv16)
    requires PageOf(table) == table && index < 512
    ensures PageOf(EntryAt(table, index).addr) == table && PageOf(EntryAt(table, index).addr + 7) == table
  {
  }

  /** Different entries of a table are different 8-byte words. */
  lemma EntriesDistinct(table: bv64, i: bv16, j: bv16)
    requires PageOf(table) == table && i < 512 && j < 512 && i != j
    ensures EntryAt(table, i).addr >> 3 != EntryAt(table, j).addr >> 3
    ensures EntryAt(table, i) != EntryAt(table, j)
  {
    WordsDistinct(table, i as bv64, j as bv64);
  }

  lemma WordsDistinct(table: bv64, x: bv64, y: bv64)
    requires PageOf(table) == table && x < 512 && y < 512 && x != y
    ensures (table + 8 * x) >> 3 != (table + 8 * y) >> 3
  {
  }

  lemma AddressIsPage(entry: bv64)
    ensures PageOf(Address(entry)) == Address(entry)
  {
  }

  lemma Pm4lIsPage(cr3: bv64)
    ensures PageOf(Pm4l(cr3)) == Pm4l(cr3) == Address(cr3)
  {
  }

  /** Every entry the descent reads lies, with all eight bytes, in the page of the table it is read from. */
  ghost predicate StaysInPages(mem: Memory, table: bv64, path: Path)
    decreases path
  {
    match path
    case End => true
    case Level(index, below) =>
      var at := EntryAt(table, index);
      PageOf(at.addr) == table && PageOf(at.addr + 7) == table &&
      (at in mem ==> StaysInPages(mem, Address(mem[at]), below))
  }

  /** Whatever the tables hold, the descent stays inside their pages, for address() clears the low 12 bits. */
  lemma {:induction false} DescentStaysInPages(mem: Memory, table: bv64, path: Path)
    requires InTable(path) && PageOf(table) == table
    ensures StaysInPages(mem, table, path)
    decreases path
  {
    match path
    case End =>
    case Level(index, below) =>
      EntryInPage(table, index);
      var at := EntryAt(table, index);
      if at in mem {
        AddressIsPage(mem[at]);
        DescentStaysInPages(mem, Address(mem[at]), below);
      }
  }

  lemma EntriesOfDifferentTables(t: bv64, i: bv16, u: bv64, j: bv16)
    requires PageOf(t) == t && PageOf(u) == u && t != u && i < 512 && j < 512
    ensures EntryAt(t, i) != EntryAt(u, j)
  {
    EntryInPage(t, i);
    EntryInPage(u, j);
  }

  /** A descent that does not come to table `top` reads none of its entries. */
  lemma {:induction false} OffTableOffEntries(mem: Memory, table: bv64, path: Path, top: bv64, e: bv16)
    requires InTable(path) && e < 512 && PageOf(table) == table && PageOf(top) == top
    requires At(top) !in Tables(mem, table, path)
    ensures EntryAt(top, e) !in Reads(mem, table, path)
    decreases path
  {
    match path
    case End =>
    case Level(index, below) =>
      assert At(table) in Tables(mem, table, path);
      EntriesOfDifferentTables(top, e, table, index);
      var at := EntryAt(table, index);
      if at in mem {
        AddressIsPage(mem[at]);
        OffTableOffEntries(mem, Address(mem[at]), below, top, e);
      }
  }

  /** A store to a word the descent does not read changes nothing about it. */
  lemma {:induction false} StoreOffPath(mem: Memory, table: bv64, path: Path, word: Location, value: bv64)
    requires word in mem && word !in Reads(mem, table, path)
    ensures WalkFrom(mem[word := value], table, path) == WalkFrom(mem, table, path)
    decreases path
  {
    match path
    case End =>
    case Level(index, below) =>
      var at := EntryAt(table, index);
      if at in mem {
        StoreOffPath(mem, Address(mem[at]), below, word, value);
      }
  }

  /** The indices of a walk are 9 bits wide. */
  lemma WalkPathInTable(vaddr: bv64)
    ensures InTable(WalkPath(vaddr))
  {
    var ix := Extract(vaddr);
    FieldsFit(vaddr);
    NineBits(ix.pml4);
    NineBits(ix.pdpt);
    NineBits(ix.pd);
    NineBits(ix.pt);
    assert InTable(Level(ix.pt, End));
    assert InTable(Level(ix.pd, Level(ix.pt, End)));
  }

  lemma NineBits(x: bv16)
    requires x <= 0x1FF
    ensures x < 512
  {
  }

  // ----- updates of the PML4 -----

  /** The tables below the PML4 that the walk of `vaddr` reads from. */
  function LowerTables(mem: Memory, cr3: bv64, vaddr: bv64): set<Location> {
    var at := EntryAt(Pm4l(cr3), Extract(vaddr).pml4);
    if at in mem then Tables(mem, Address(mem[at]), PathBelowTop(vaddr)) else {}
  }

  /** A walk with another top index than `e` that does not come back to the PML4 page does not read entry `e`. */
  lemma OffTableNotRead(mem: Memory, cr3: bv64, e: bv16, vaddr: bv64)
    requires e < 512 && Extract(vaddr).pml4 != e && At(Pm4l(cr3)) !in LowerTables(mem, cr3, vaddr)
    ensures EntryAt(Pm4l(cr3), e) !in Reads(mem, Pm4l(cr3), WalkPath(vaddr))
  {
    WalkPathInTable(vaddr);
    OtherEntryNotRead(mem, cr3, e, Extract(vaddr).pml4, PathBelowTop(vaddr));
  }

  lemma OtherEntryNotRead(mem: Memory, cr3: bv64, e: bv16, index: bv16, below: Path)
    requires e < 512 && index < 512 && index != e && InTable(below)
    requires var at := EntryAt(Pm4l(cr3), index);
             at in mem ==> At(Pm4l(cr3)) !in Tables(mem, Address(mem[at]), below)
    ensures EntryAt(Pm4l(cr3), e) !in Reads(mem, Pm4l(cr3), Level(index, below))
  {
    Pm4lIsPage(cr3);
    EntriesDistinct(Pm4l(cr3), e, index);
    var at := EntryAt(Pm4l(cr3), index);
    if at in mem {
      AddressIsPage(mem[at]);
      OffTableOffEntries(mem, Address(mem[at]), below, Pm4l(cr3), e);
    }
  }

  /** A store of a value with a bit above 51 to a word the descent reads makes it fault or end at that value. */
  lemma {:induction false} StoreOnPath(mem: Memory, table: bv64, path: Path, word: Location, value: bv64)
    requires Physical(mem) && InTable(path) && value >> 52 != 0 && PageOf(value) == value
    requires word in Reads(mem, table, path) && WalkFrom(mem, table, path).Some?
    ensures WalkFrom(mem[word := value], table, path) in {None, Some(value)}
    decreases path
  {
    var mem' := mem[word := value];
    var at, below := EntryAt(table, path.index), path.below;
    if at != word {
      StoreOnPath(mem, Address(mem[at]), below, word, value);
    } else if below.Level? {
      HighTableFaults(mem, value, below.index, below.below);
      assert EntryAt(value, below.index) !in mem';
    }
  }

  /** Storing `value` in `word` leaves the translation of `vaddr` as it is. */
  predicate Indifferent(mem: Memory, cr3: bv64, vaddr: bv64, word: Location, value: bv64) {
    Walk(mem[word := value], cr3, vaddr) == Walk(mem, cr3, vaddr)
  }

  /**
   A new PML4 entry `e`, whatever its value, leaves the translation of an address alone exactly when
   the walk of that address does not read entry `e`.
   */
  lemma SetLeavesOthersIff(mem: Memory, cr3: bv64, e: bv16, vaddr: bv64)
    requires Physical(mem) && EntryAt(Pm4l(cr3), e) in mem && Walk(mem, cr3, vaddr).Some?
    ensures (forall value :: Indifferent(mem, cr3, vaddr, EntryAt(Pm4l(cr3), e), value)) <==>
            EntryAt(Pm4l(cr3), e) !in Reads(mem, Pm4l(cr3), WalkPath(vaddr))
  {
    var word := EntryAt(Pm4l(cr3), e);
    if word in Reads(mem, Pm4l(cr3), WalkPath(vaddr)) {
      WalkPathInTable(vaddr);
      StoreOnPath(mem, Pm4l(cr3), WalkPath(vaddr), word, 0x8000_0000_0000_0000);
      StoreOnPath(mem, Pm4l(cr3), WalkPath(vaddr), word, 0x4000_0000_0000_0000);
      assert !Indifferent(mem, cr3, vaddr, word, 0x8000_0000_0000_0000) ||
             !Indifferent(mem, cr3, vaddr, word, 0x4000_0000_0000_0000);
    } else {
      forall value
        ensures Indifferent(mem, cr3, vaddr, word, value)
      {
        SetLeavesOthers(mem, cr3, e, value, vaddr);
      }
    }
  }

  /** One direction needs nothing of memory or of the walk: an entry not read may become anything. */
  lemma SetLeavesOthers(mem: Memory, cr3: bv64, e: bv16, value: bv64, vaddr: bv64)
    requires EntryAt(Pm4l(cr3), e) in mem
    requires EntryAt(Pm4l(cr3), e) !in Reads(mem, Pm4l(cr3), WalkPath(vaddr))
    ensures Walk(mem[EntryAt(Pm4l(cr3), e) := value], cr3, vaddr) == Walk(mem, cr3, vaddr)
  {
    StoreOffPath(mem, Pm4l(cr3), WalkPath(vaddr), EntryAt(Pm4l(cr3), e), value);
  }

  /**
   Addresses with top index `e` are translated through the new entry, and by the tables as they were
   if the descent from it does not read entry `e` again.
   */
  lemma SetTakesEffect(mem: Memory, cr3: bv64, e: bv16, value: bv64, vaddr: bv64)
    requires Extract(vaddr).pml4 == e && EntryAt(Pm4l(cr3), e) in mem
    ensures var mem', below := mem[EntryAt(Pm4l(cr3), e) := value], PathBelowTop(vaddr);
            Walk(mem', cr3, vaddr) == WalkFrom(mem', Address(value), below) &&
            (EntryAt(Pm4l(cr3), e) !in Reads(mem, Address(value), below) ==>
              Walk(mem', cr3, vaddr) == WalkFrom(mem, Address(value), below))
  {
    if EntryAt(Pm4l(cr3), e) !in Reads(mem, Address(value), PathBelowTop(vaddr)) {
      StoreOffPath(mem, Address(value), PathBelowTop(vaddr), EntryAt(Pm4l(cr3), e), value);
    }
  }

  /**
   An entry cleared by DeletePM4LE is still walked, for the present bit is not looked at: its
   addresses are translated by whatever lies at physical address 0. The manual has no page for them.
   */
  lemma DeletedEntryIsWalked(mem: Memory, cr3: bv64, e: bv16, vaddr: bv64)
    requires Extract(vaddr).pml4 == e && EntryAt(Pm4l(cr3), e) in mem
    ensures var mem', below := mem[EntryAt(Pm4l(cr3), e) := 0], PathBelowTop(vaddr);
            Walk(mem', cr3, vaddr) == WalkFrom(mem', 0, below) &&
            (EntryAt(Pm4l(cr3), e) !in Reads(mem, 0, below) ==> Walk(mem', cr3, vaddr) == WalkFrom(mem, 0, below)) &&
            (cr3 >> 52 == 0 ==> ManualWalk(mem', cr3, vaddr) == None)
  {
    assert Address(0) == 0;
    SetTakesEffect(mem, cr3, e, 0, vaddr);
    Pm4lIsPage(cr3);
    AddressIsManualsIff(cr3);
  }

  // ----- the walk word by word -----

  /** The 8-byte word number `index` of a table. */
  function WordOf(table: bv64, index: bv16): Location {
    At(table + 8 * (index as bv64))
  }

  /** From `table` one word per index leads to `page`. */
  predicate WordsLead(mem: Memory, table: bv64, path: Path, page: bv64)
    decreases path
  {
    match path
    case End => table == page
    case Level(index, below) =>
      var word := WordOf(table, index);
      word in mem && WordsLead(mem, Address(mem[word]), below, page)
  }

  /** The same for the manual: all words are present, and all but the last do not map large pages. */
  predicate ManualWordsLead(mem: Memory, table: bv64, path: Path, page: bv64)
    decreases path
  {
    match path
    case End => table == page
    case Level(index, below) =>
      var word := WordOf(table, index);
      word in mem && Present(mem[word]) && (below.Level? ==> !LargePage(mem[word])) &&
      ManualWordsLead(mem, AddressField(mem[word]), below, page)
  }

  function FourLevels(i4: bv16, i3: bv16, i2: bv16, i1: bv16): Path {
    Level(i4, Level(i3, Level(i2, Level(i1, End))))
  }

  /** Bits 47 to 39, 38 to 30, 29 to 21 and 20 to 12 of a linear address. */
  function IndexFields(vaddr: bv64): Path {
    FourLevels(((vaddr >> 39) & 0x1FF) as bv16, ((vaddr >> 30) & 0x1FF) as bv16,
               ((vaddr >> 21) & 0x1FF) as bv16, ((vaddr >> 12) & 0x1FF) as bv16)
  }

  /** Which bits of a word each of these reads. */
  lemma BitsRead(word: bv64)
    ensures Address(word) == Pm4l(word) == (word >> 12) << 12 == word & 0xFFFF_FFFF_FFFF_F000
    ensures AddressField(word) == ((word << 12) >> 24) << 12
    ensures (Present(word) <==> word << 63 != 0) && (LargePage(word) <==> (word >> 7) << 63 != 0)
  {
  }

  /** The word of an entry: the address of the page-aligned table with the index in bits 11 to 3. */
  lemma EntryIsWord(table: bv64, index: bv16)
    requires PageOf(table) == table && index < 512
    ensures EntryAt(table, index).addr == table | ((index as bv64) << 3)
  {
    SumIsUnion(table, index as bv64);
  }

  lemma SumIsUnion(table: bv64, x: bv64)
    requires PageOf(table) == table && x < 512
    ensures table + 8 * x == table | (x << 3)
  {
  }

  lemma {:induction false} WalkOverWords(mem: Memory, table: bv64, path: Path, page: bv64)
    ensures WalkFrom(mem, table, path) == Some(page) <==> WordsLead(mem, table, path, page)
    decreases path
  {
    if path.Level? && EntryAt(table, path.index) in mem {
      WalkOverWords(mem, Address(mem[EntryAt(table, path.index)]), path.below, page);
    }
  }

  lemma {:induction false} ManualWalkOverWords(mem: Memory, table: bv64, path: Path, page: bv64)
    ensures ManualWalkFrom(mem, table, path) == Some(page) <==> ManualWordsLead(mem, table, path, page)
    decreases path
  {
    if path.Level? && EntryAt(table, path.index) in mem {
      ManualWalkOverWords(mem, AddressField(mem[EntryAt(table, path.index)]), path.below, page);
    }
  }

  lemma PathFields(vaddr: bv64)
    ensures WalkPath(vaddr) == IndexFields(vaddr)
  {
  }

  /** Any address is translated over the words its four index fields select, for any contents of memory. */
  lemma TranslationOverWords(mem: Memory, cr3: bv64, vaddr: bv64, page: bv64)
    ensures Walk(mem, cr3, vaddr) == Some(page) <==> WordsLead(mem, Pm4l(cr3), IndexFields(vaddr), page)
    ensures ManualWalk(mem, cr3, vaddr) == Some(page) <==>
            ManualWordsLead(mem, AddressField(cr3), IndexFields(vaddr), page)
  {
    PathFields(vaddr);
    WalkOverWords(mem, Pm4l(cr3), WalkPath(vaddr), page);
    ManualWalkOverWords(mem, AddressField(cr3), WalkPath(vaddr), page);
  }

  lemma FormedFields(ix: Indices)
    ensures IndexFields(Form(ix)) == FourLevels(ix.pml4 & 0x1FF, ix.pdpt & 0x1FF, ix.pd & 0x1FF, ix.pt & 0x1FF)
  {
  }

  /** An address formed from indices is translated over the words those indices select. */
  lemma FormedAddressTranslation(mem: Memory, cr3: bv64, ix: Indices, page: bv64)
    ensures Walk(mem, cr3, Form(ix)) == Some(page) <==>
            WordsLead(mem, Pm4l(cr3),
                      FourLevels(ix.pml4 & 0x1FF, ix.pdpt & 0x1FF, ix.pd & 0x1FF, ix.pt & 0x1FF), page)
  {
    FormedFields(ix);
    TranslationOverWords(mem, cr3, Form(ix), page);
  }

  /** Four tables, entries 1 to 4 in turn: the code finds the page; the manual does once the entries are present. */
  lemma FourTables(mem: Memory, present: Memory)
    requires mem == map[At(0x1008) := 0x2000, At(0x2010) := 0x3000, At(0x3018) := 0x4000, At(0x4020) := 0x5000]
    requires present == map[At(0x1008) := 0x2001, At(0x2010) := 0x3001, At(0x3018) := 0x4001, At(0x4020) := 0x5081]
    ensures Walk(mem, 0x1000, 0x80_8060_4000) == Some(0x5000) && ManualWalk(mem, 0x1000, 0x80_8060_4000) == None
    ensures Walk(present, 0x1000, 0x80_8060_4000) == ManualWalk(present, 0x1000, 0x80_8060_4000) == Some(0x5000)
  {
    assert WalkPath(0x80_8060_4000) == Level(1, Level(2, Level(3, Level(4, End))));
    assert Pm4l(0x1000) == 0x1000 == AddressField(0x1000);
    FourEntries(mem, 0x2000, 0x3000, 0x4000, 0x5000);
    FourEntries(present, 0x2001, 0x3001, 0x4001, 0x5081);
  }

  lemma FourEntries(mem: Memory, w4: bv64, w3: bv64, w2: bv64, w1: bv64)
    requires At(0x1008) in mem && At(0x2010) in mem && At(0x3018) in mem && At(0x4020) in mem
    requires mem[At(0x1008)] == w4 && mem[At(0x2010)] == w3 && mem[At(0x3018)] == w2 && mem[At(0x4020)] == w1
    requires Address(w4) == AddressField(w4) == 0x2000 && Address(w3) == AddressField(w3) == 0x3000
    requires Address(w2) == AddressField(w2) == 0x4000 && Address(w1) == AddressField(w1) == 0x5000
    ensures WalkFrom(mem, 0x1000, Level(1, Level(2, Level(3, Level(4, End))))) == Some(0x5000)
    ensures !Present(w4) ==> ManualWalkFrom(mem, 0x1000, Level(1, Level(2, Level(3, Level(4, End))))) == None
    ensures Usable(w4, Level(2, End)) && Usable(w3, Level(3, End)) && Usable(w2, Level(4, End)) && Present(w1) ==>
              ManualWalkFrom(mem, 0x1000, Level(1, Level(2, Level(3, Level(4, End))))) == Some(0x5000)
  {
    OneLevel(mem, 0x1000, 1, Level(2, Level(3, Level(4, End))));
    OneLevel(mem, 0x2000, 2, Level(3, Level(4, End)));
    OneLevel(mem, 0x3000, 3, Level(4, End));
    OneLevel(mem, 0x4000, 4, End);
    OneManualLevel(mem, 0x1000, 1, Level(2, Level(3, Level(4, End))));
    OneManualLevel(mem, 0x2000, 2, Level(3, Level(4, End)));
    OneManualLevel(mem, 0x3000, 3, Level(4, End));
    OneManualLevel(mem, 0x4000, 4, End);
  }

  lemma OneManualLevel(mem: Memory, table: bv64, index: bv16, below: Path)
    ensures var at := EntryAt(table, index);
            ManualWalkFrom(mem, table, Level(index, below)) ==
            (if at in mem && Usable(mem[at], below) then ManualWalkFrom(mem, AddressField(mem[at]), below) else None) &&
            (at in mem ==> ManualWalkFrom(mem, AddressField(mem[at]), End) == Some(AddressField(mem[at])))
  {
  }

  lemma OneLevel(mem: Memory, table: bv64, index: bv16, below: Path)
    ensures var at := EntryAt(table, index);
            WalkFrom(mem, table, Level(index, below)) ==
            (if at in mem then WalkFrom(mem, Address(mem[at]), below) else None) &&
            (at in mem ==> WalkFrom(mem, Address(mem[at]), End) == Some(Address(mem[at])))
  {
  }

  /** Where an entry leads back to the PML4 the walk can read entry `e` one level down, and sees the update. */
  lemma SelfReferenceSeesUpdate(mem: Memory, cr3: bv64, s: bv16, e: bv16, value: bv64, vaddr: bv64)
    requires s < 512 && e < 512 && s != e
    requires EntryAt(Pm4l(cr3), e) in mem && EntryAt(Pm4l(cr3), s) in mem
    requires Address(mem[EntryAt(Pm4l(cr3), s)]) == Pm4l(cr3)
    requires Extract(vaddr).pml4 == s && Extract(vaddr).pdpt == e
    ensures var mem' := mem[EntryAt(Pm4l(cr3), e) := value];
            Walk(mem', cr3, vaddr) == WalkFrom(mem', Address(value), PathBelowTop(vaddr).below)
  {
    SelfReferencePath(mem, cr3, s, e, value, PathBelowTop(vaddr).below);
  }

  lemma SelfReferencePath(mem: Memory, cr3: bv64, s: bv16, e: bv16, value: bv64, below: Path)
    requires s < 512 && e < 512 && s != e
    requires EntryAt(Pm4l(cr3), e) in mem && EntryAt(Pm4l(cr3), s) in mem
    requires Address(mem[EntryAt(Pm4l(cr3), s)]) == Pm4l(cr3)
    ensures var mem' := mem[EntryAt(Pm4l(cr3), e) := value];
            WalkFrom(mem', Pm4l(cr3), Level(s, Level(e, below))) == WalkFrom(mem', Address(value), below)
  {
    Pm4lIsPage(cr3);
    EntriesDistinct(Pm4l(cr3), e, s);
    var mem' := mem[EntryAt(Pm4l(cr3), e) := value];
    assert WalkFrom(mem', Pm4l(cr3), Level(e, below)) == WalkFrom(mem', Address(value), below);
  }

  /** The walk depends on the page of the address only: offset and top 16 bits play no part. */
  lemma SamePageSameBase(mem: Memory, cr3: bv64, a: bv64, b: bv64)
    requires (a ^ b) & 0x0000_FFFF_FFFF_F000 == 0
    ensures Walk(mem, cr3, a) == Walk(mem, cr3, b)
  {
    SamePageSamePath(a, b);
  }

  lemma SamePageSamePath(a: bv64, b: bv64)
    requires (a ^ b) & 0x0000_FFFF_FFFF_F000 == 0
    ensures WalkPath(a) == WalkPath(b)
  {
  }

  class Mmu {
    var mem: Memory
    const cr3: bv64

    constructor (mem: Memory, cr3: bv64)
      ensures this.mem == mem && this.cr3 == cr3
    {
      this.mem, this.cr3 := mem, cr3;
    }

    /** Lines 94-98 of pstructs.hpp; false is a fault. */
    method SetPM4LE(entry: bv16, pdptr: bv64) returns (ok: bool)
      modifies this`mem
      ensures ok <==> At(Pm4l(cr3) + 8 * (entry as bv64)) in old(mem)
      ensures mem == if ok then old(mem)[At(Pm4l(cr3) + 8 * (entry as bv64)) := pdptr] else old(mem)
    {
      var pml4e := At(Pm4l(cr3) + 8 * (entry as bv64));
      if pml4e !in mem {
        return false;
      }
      mem := mem[pml4e := pdptr];
      return true;
    }

    /** Lines 88-92 of pstructs.hpp. */
    method DeletePM4LE(entry: bv16) returns (ok: bool)
      modifies this`mem
      ensures ok <==> At(Pm4l(cr3) + 8 * (entry as bv64)) in old(mem)
      ensures mem == if ok then old(mem)[At(Pm4l(cr3) + 8 * (entry as bv64)) := 0] else old(mem)
    {
      var pml4e := At(Pm4l(cr3) + 8 * (entry as bv64));
      if pml4e !in mem {
        return false;
      }
      mem := mem[pml4e := 0];
      return true;
    }

    /**
     Lines 82-104 of pages.cpp; None is a fault. Where the manual has a page it is the one found
     exactly when cr3 and the entries read have bits 63 to 52 clear.
     */
    method VirtualToPageBase(vaddr: bv64) returns (base: Option<bv64>)
      ensures base == Walk(mem, cr3, vaddr)
      ensures forall page :: base == Some(page) <==> WordsLead(mem, Pm4l(cr3), IndexFields(vaddr), page)
      ensures Physical(mem) && ManualWalk(mem, cr3, vaddr).Some? ==>
                (base == ManualWalk(mem, cr3, vaddr) <==>
                 cr3 >> 52 == 0 && HighBitsClear(mem, Pm4l(cr3), WalkPath(vaddr)))
    {
      forall page {
        TranslationOverWords(mem, cr3, vaddr, page);
      }
      if Physical(mem) && ManualWalk(mem, cr3, vaddr).Some? {
        WalkIsManualsIff(mem, cr3, vaddr);
      }
      var pte_i := ((vaddr & 0x1F_F000) >> 12) as bv16;
      var pde_i := ((vaddr & 0x3FE0_0000) >> 21) as bv16;
      var pdpte_i := ((vaddr & 0x7F_C000_0000) >> 30) as bv16;
      var pm4le_i := ((vaddr & 0xFF80_0000_0000) >> 39) as bv16;
      base := ReadTables(pm4le_i, pdpte_i, pde_i, pte_i);
    }

    /** Lines 89-103 of pages.cpp. */
    method ReadTables(pm4le_i: bv16, pdpte_i: bv16, pde_i: bv16, pte_i: bv16) returns (base: Option<bv64>)
      ensures base == WalkFrom(mem, Pm4l(cr3), Level(pm4le_i, Level(pdpte_i, Level(pde_i, Level(pte_i, End)))))
    {
      base := ReadEntry(Pm4l(cr3), pm4le_i, Level(pdpte_i, Level(pde_i, Level(pte_i, End))));
      if base.Some? {
        base := ReadEntry(base.value, pdpte_i, Level(pde_i, Level(pte_i, End)));
        if base.Some? {
          base := ReadEntry(base.value, pde_i, Level(pte_i, End));
          if base.Some? {
            base := ReadEntry(base.value, pte_i, End);
          }
        }
      }
    }

    /** The table or page that entry `index` of `table` refers to. */
    method ReadEntry(table: bv64, index: bv16, ghost below: Path) returns (next: Option<bv64>)
      ensures WalkFrom(mem, table, Level(index, below)) ==
              if next.Some? then WalkFrom(mem, next.value, below) else None
      ensures below == End && next.Some? ==> WalkFrom(mem, table, Level(index, below)) == next
    {
      var entry := At(table + 8 * (index as bv64));
      if entry !in mem {
        return None;
      }
      return Some(Address(mem[entry]));
    }
  }
}
