/** Page table entries, and the three-level walk of Sv39 over pages of physical memory. */
module PageWalk {
  import opened Bytes
  import opened Collections

  const PAGE_SIZE: nat := 4096

  type Page = b: seq<byte> | |b| == PAGE_SIZE witness Zeros(PAGE_SIZE)

  const ZERO_PAGE: Page := Zeros(PAGE_SIZE)
  const FLAG_V: nat := 1

  // ---------- page table entries

  /** PageTableEntry::new: the page number above ten bits, of which the low eight are flags. */
  function PteNew(ppn: nat, flags: nat): (e: u64)
    requires ppn < 0x1000_0000_0000 && flags < 256
  {
    ppn * 1024 + flags
  }

  function PtePpn(e: u64): (ppn: nat)
    ensures ppn < 0x1000_0000_0000
  {
    e / 1024 % 0x1000_0000_0000
  }

  function PteFlags(e: u64): (flags: nat)
    ensures flags < 256
  {
    e % 256
  }

  predicate IsValid(e: u64) {
    PteFlags(e) % 2 == 1
  }

  lemma PteRoundTrip(ppn: nat, flags: nat)
    requires ppn < 0x1000_0000_0000 && flags < 256
    ensures PtePpn(PteNew(ppn, flags)) == ppn && PteFlags(PteNew(ppn, flags)) == flags
    ensures IsValid(PteNew(ppn, flags)) <==> flags % 2 == 1
  {
    HighPart(ppn, flags);
    LowPart(4 * ppn, flags);
  }

  lemma HighPart(high: nat, low: nat)
    requires low < 1024
    ensures (high * 1024 + low) / 1024 == high
  {
  }

  lemma LowPart(high: nat, low: nat)
    requires low < 256
    ensures (high * 256 + low) % 256 == low
  {
  }

  // ---------- virtual page numbers

  /** The part of a virtual page number that selects an entry at a level of the walk, the root being level 0. */
  function Index(vpn: nat, level: nat): (i: nat)
    ensures i < 512
  {
    if level == 0 then vpn / 262144 % 512 else if level == 1 then vpn / 512 % 512 else vpn % 512
  }

  /** A page number of 27 bits is determined by its three indexes. */
  lemma IndexesUnique(v: nat, w: nat)
    requires v < 0x800_0000 && w < 0x800_0000
    requires Index(v, 0) == Index(w, 0) && Index(v, 1) == Index(w, 1) && Index(v, 2) == Index(w, 2)
    ensures v == w
  {
    hide Index;
    FromIndexes(v);
    FromIndexes(w);
  }

  lemma FromIndexes(v: nat)
    requires v < 0x800_0000
    ensures v == 262144 * Index(v, 0) + 512 * Index(v, 1) + Index(v, 2)
  {
    DivTwice(v);
    var high := v / 512;
    assert v == 512 * high + v % 512;
    assert high == 512 * (high / 512) + high % 512;
  }

  /** VirtPageNum::indexes, lowest index first as its loop finds them. */
  method Indexes(vpn: nat) returns (idx: array<nat>)
    ensures fresh(idx) && idx.Length == 3 && forall k :: 0 <= k < 3 ==> idx[k] == Index(vpn, k)
  {
    idx := new nat[3];
    var v := vpn;
    var i := 3;
    while i > 0
      invariant 0 <= i <= 3
      invariant v == if i == 3 then vpn else if i == 2 then vpn / 512 else if i == 1 then vpn / 262144 else vpn / 134217728
      invariant forall k :: i <= k < 3 ==> idx[k] == Index(vpn, k)
    {
      i := i - 1;
      idx[i] := v % 512;
      DivTwice(vpn);
      v := v / 512;
    }
  }

  lemma DivTwice(v: nat)
    ensures v / 512 / 512 == v / 262144 && v / 262144 / 512 == v / 134217728
  {
  }

  // ---------- entries in memory

  function Entry(pages: seq<Page>, ppn: nat, i: nat): (e: u64) {
    Pow256Values();
    if ppn < |pages| && i < 512 then LeAt(pages[ppn], 8 * i, 8) else 0
  }

  function SetEntry(pages: seq<Page>, ppn: nat, i: nat, e: u64): (pages': seq<Page>)
    requires ppn < |pages| && i < 512
    ensures |pages'| == |pages|
    ensures forall p :: 0 <= p < |pages| && p != ppn ==> pages'[p] == pages[p]
  {
    pages[ppn := PutLe(pages[ppn], 8 * i, 8, e)]
  }

  lemma EntrySet(pages: seq<Page>, ppn: nat, i: nat, e: u64)
    requires ppn < |pages| && i < 512
    ensures forall p, k :: Entry(SetEntry(pages, ppn, i, e), p, k) == if p == ppn && k == i then e else Entry(pages, p, k)
  {
    hide LeAt, PutLe;
    Pow256Values();
    LeAtPutLe(pages[ppn], 8 * i, 8, e);
    forall k | 0 <= k < 512 && k != i
      ensures LeAt(PutLe(pages[ppn], 8 * i, 8, e), 8 * k, 8) == LeAt(pages[ppn], 8 * k, 8)
    {
      LeAtPutLeElsewhere(pages[ppn], 8 * i, 8, e, 8 * k, 8);
    }
  }

  /** A zeroed page holds no valid entry. */
  lemma ZeroPageEntries(pages: seq<Page>, ppn: nat, i: nat)
    requires ppn < |pages| ==> pages[ppn] == ZERO_PAGE
    ensures Entry(pages, ppn, i) == 0
  {
    if ppn < |pages| && i < 512 {
      LeAtZeros(PAGE_SIZE, 8 * i, 8);
    }
  }

  // ---------- the walk

  /** The second-level table for index i, if there is one. */
  function Mid(pages: seq<Page>, root: nat, i: nat): Option<nat> {
    if IsValid(Entry(pages, root, i)) then Some(PtePpn(Entry(pages, root, i))) else None
  }

  /** The third-level table for indexes i and j, if there is one. */
  function Leaf(pages: seq<Page>, root: nat, i: nat, j: nat): Option<nat> {
    match Mid(pages, root, i)
    case None => None
    case Some(t) => if IsValid(Entry(pages, t, j)) then Some(PtePpn(Entry(pages, t, j))) else None
  }

  /** find_pte: the entry for vpn, valid or not, if its table exists. */
  function Find(pages: seq<Page>, root: nat, vpn: nat): Option<u64> {
    match Leaf(pages, root, Index(vpn, 0), Index(vpn, 1))
    case None => None
    case Some(t) => Some(Entry(pages, t, Index(vpn, 2)))
  }

  /** The mapping: page number and flags of vpn, if it is mapped. */
  function Mapped(pages: seq<Page>, root: nat, vpn: nat): Option<u64> {
    match Find(pages, root, vpn)
    case None => None
    case Some(e) => if IsValid(e) then Some(e) else None
  }

  /** What a table is for. */
  datatype Node = RootTable | MidTable(i: nat) | LeafTable(i: nat, j: nat)

  /** Table p is where the walk finds the table that it is said to be. */
  ghost predicate InPlaceTable(pages: seq<Page>, root: nat, p: nat, node: Node) {
    && p < |pages|
    && match node
       case RootTable => p == root
       case MidTable(i) => i < 512 && Mid(pages, root, i) == Some(p)
       case LeafTable(i, j) => i < 512 && j < 512 && Leaf(pages, root, i, j) == Some(p)
  }

  /**
   * The frames of a page table and what each is for: every frame is reached by the walk, every table the walk
   * reaches is one of the frames, and since a frame is for one thing only, all tables are different frames.
   */
  ghost predicate TableOk(pages: seq<Page>, root: nat, owner: map<nat, Node>) {
    && root in owner && owner[root] == RootTable
    && (forall p :: p in owner ==> InPlaceTable(pages, root, p, owner[p]))
    && (forall i :: 0 <= i < 512 && Mid(pages, root, i).Some? ==>
          var p := Mid(pages, root, i).value; p in owner && owner[p] == MidTable(i))
    && (forall i, j {:trigger Leaf(pages, root, i, j)} :: 0 <= i < 512 && 0 <= j < 512 && Leaf(pages, root, i, j).Some? ==>
          var p := Leaf(pages, root, i, j).value; p in owner && owner[p] == LeafTable(i, j))
  }

  /** pages' agrees with pages on the given frames. */
  ghost predicate SameOn(pages: seq<Page>, pages': seq<Page>, frames: set<nat>) {
    |pages'| == |pages| && forall p :: p in frames && 0 <= p < |pages| ==> pages'[p] == pages[p]
  }

  /** Same entries in all tables, same walk. */
  lemma WalkFrame(pages: seq<Page>, pages': seq<Page>, root: nat, owner: map<nat, Node>)
    requires TableOk(pages, root, owner) && SameOn(pages, pages', owner.Keys)
    ensures TableOk(pages', root, owner)
    ensures forall v :: Find(pages', root, v) == Find(pages, root, v)
    ensures forall i, j :: 0 <= i < 512 && 0 <= j < 512 ==>
              Mid(pages', root, i) == Mid(pages, root, i) && Leaf(pages', root, i, j) == Leaf(pages, root, i, j)
  {
    hide LeAt, IsValid, PtePpn, Index;
    assert forall p, i :: p in owner ==> Entry(pages', p, i) == Entry(pages, p, i);
    forall i | 0 <= i < 512
      ensures Mid(pages', root, i) == Mid(pages, root, i)
      ensures forall j :: 0 <= j < 512 ==> Leaf(pages', root, i, j) == Leaf(pages, root, i, j)
    {
    }
    forall p | p in owner
      ensures InPlaceTable(pages', root, p, owner[p])
    {
      assert InPlaceTable(pages, root, p, owner[p]);
    }
  }

  // ---------- adding tables and setting leaf entries

  /** A new, zeroed second-level table changes no translation. */
  lemma AddMid(pages: seq<Page>, root: nat, owner: map<nat, Node>, i: nat, p: nat)
    requires TableOk(pages, root, owner) && i < 512 && Mid(pages, root, i).None?
    requires p < |pages| && p !in owner && pages[p] == ZERO_PAGE && p < 0x1000_0000_0000
    ensures var pages' := SetEntry(pages, root, i, PteNew(p, FLAG_V));
            && TableOk(pages', root, owner[p := MidTable(i)])
            && Mid(pages', root, i) == Some(p)
            && (forall v :: Mapped(pages', root, v) == Mapped(pages, root, v))
  {
    assert InPlaceTable(pages, root, root, RootTable);
    var pages' := SetEntry(pages, root, i, PteNew(p, FLAG_V));
    EntrySet(pages, root, i, PteNew(p, FLAG_V));
    PteRoundTrip(p, FLAG_V);
    forall k
      ensures Entry(pages', p, k) == 0
    {
      ZeroPageEntries(pages, p, k);
    }
    hide Entry, SetEntry, IsValid, PtePpn, PteNew, Index;
    AddMidWalk(pages, pages', root, owner, i, p);
  }

  lemma AddMidWalk(pages: seq<Page>, pages': seq<Page>, root: nat, owner: map<nat, Node>, i: nat, p: nat)
    requires TableOk(pages, root, owner) && i < 512 && Mid(pages, root, i).None?
    requires |pages'| == |pages| && p < |pages| && p !in owner
    requires IsValid(Entry(pages', root, i)) && PtePpn(Entry(pages', root, i)) == p
    requires forall q, k :: !(q == root && k == i) ==> Entry(pages', q, k) == Entry(pages, q, k)
    requires forall k :: Entry(pages', p, k) == 0
    ensures TableOk(pages', root, owner[p := MidTable(i)])
    ensures Mid(pages', root, i) == Some(p)
    ensures forall v :: Mapped(pages', root, v) == Mapped(pages, root, v)
  {
    assert !IsValid(0);
    hide Entry, IsValid, PtePpn, Index;
    forall a | 0 <= a < 512
      ensures Mid(pages', root, a) == if a == i then Some(p) else Mid(pages, root, a)
    {
    }
    forall a, b | 0 <= a < 512 && 0 <= b < 512
      ensures Leaf(pages', root, a, b) == Leaf(pages, root, a, b)
    {
      if a != i && Mid(pages, root, a).Some? {
        assert owner[Mid(pages, root, a).value] == MidTable(a);
      }
    }
    TableGrown(pages, pages', root, owner, p, MidTable(i));
    forall v
      ensures Mapped(pages', root, v) == Mapped(pages, root, v)
    {
      LeafEntriesKept(pages, pages', root, owner, i, v);
    }
  }

  /** One more table, reached by the walk as `node`. */
  lemma TableGrown(pages: seq<Page>, pages': seq<Page>, root: nat, owner: map<nat, Node>, p: nat, node: Node)
    requires TableOk(pages, root, owner) && |pages'| == |pages| && p < |pages| && p !in owner
    requires match node
             case RootTable => false
             case MidTable(i) => i < 512 && Mid(pages, root, i).None?
             case LeafTable(i, j) => i < 512 && j < 512 && Leaf(pages, root, i, j).None?
    requires forall a :: 0 <= a < 512 ==> Mid(pages', root, a) == if node == MidTable(a) then Some(p) else Mid(pages, root, a)
    requires forall a, b {:trigger Leaf(pages', root, a, b)} :: 0 <= a < 512 && 0 <= b < 512 ==>
               Leaf(pages', root, a, b) == if node == LeafTable(a, b) then Some(p) else Leaf(pages, root, a, b)
    ensures TableOk(pages', root, owner[p := node])
  {
    hide Mid, Leaf;
    forall q | q in owner
      ensures InPlaceTable(pages', root, q, owner[q])
    {
      assert InPlaceTable(pages, root, q, owner[q]);
    }
  }

  lemma LeafEntriesKept(pages: seq<Page>, pages': seq<Page>, root: nat, owner: map<nat, Node>, i: nat, v: nat)
    requires TableOk(pages, root, owner)
    requires forall a, b :: 0 <= a < 512 && 0 <= b < 512 ==> Leaf(pages', root, a, b) == Leaf(pages, root, a, b)
    requires forall q, k :: !(q == root && k == i) ==> Entry(pages', q, k) == Entry(pages, q, k)
    ensures Mapped(pages', root, v) == Mapped(pages, root, v)
  {
    hide Entry, IsValid, PtePpn;
    var a, b := Index(v, 0), Index(v, 1);
    if Leaf(pages, root, a, b).Some? {
      assert owner[Leaf(pages, root, a, b).value] == LeafTable(a, b);
    }
  }

  /** A new, zeroed third-level table maps nothing. */
  lemma AddLeaf(pages: seq<Page>, root: nat, owner: map<nat, Node>, i: nat, j: nat, t: nat, p: nat)
    requires TableOk(pages, root, owner) && i < 512 && j < 512
    requires Mid(pages, root, i) == Some(t) && Leaf(pages, root, i, j).None?
    requires p < |pages| && p !in owner && pages[p] == ZERO_PAGE && p < 0x1000_0000_0000
    ensures t < |pages|
    ensures var pages' := SetEntry(pages, t, j, PteNew(p, FLAG_V));
            && TableOk(pages', root, owner[p := LeafTable(i, j)])
            && Leaf(pages', root, i, j) == Some(p)
            && (forall v :: Mapped(pages', root, v) == Mapped(pages, root, v))
  {
    assert InPlaceTable(pages, root, t, owner[t]);
    var pages' := SetEntry(pages, t, j, PteNew(p, FLAG_V));
    EntrySet(pages, t, j, PteNew(p, FLAG_V));
    PteRoundTrip(p, FLAG_V);
    forall k
      ensures Entry(pages', p, k) == 0
    {
      ZeroPageEntries(pages, p, k);
    }
    hide Entry, SetEntry, IsValid, PtePpn, PteNew, Index;
    AddLeafWalk(pages, pages', root, owner, i, j, t, p);
  }

  lemma AddLeafWalk(pages: seq<Page>, pages': seq<Page>, root: nat, owner: map<nat, Node>, i: nat, j: nat, t: nat, p: nat)
    requires TableOk(pages, root, owner) && i < 512 && j < 512
    requires Mid(pages, root, i) == Some(t) && Leaf(pages, root, i, j).None?
    requires |pages'| == |pages| && p < |pages| && p !in owner
    requires IsValid(Entry(pages', t, j)) && PtePpn(Entry(pages', t, j)) == p
    requires forall q, k :: !(q == t && k == j) ==> Entry(pages', q, k) == Entry(pages, q, k)
    requires forall k :: Entry(pages', p, k) == 0
    ensures TableOk(pages', root, owner[p := LeafTable(i, j)])
    ensures Leaf(pages', root, i, j) == Some(p)
    ensures forall v :: Mapped(pages', root, v) == Mapped(pages, root, v)
  {
    assert !IsValid(0);
    hide Entry, IsValid, PtePpn, Index;
    assert owner[t] == MidTable(i) && t != root;
    forall a | 0 <= a < 512
      ensures Mid(pages', root, a) == Mid(pages, root, a)
    {
    }
    forall a, b | 0 <= a < 512 && 0 <= b < 512
      ensures Leaf(pages', root, a, b) == if a == i && b == j then Some(p) else Leaf(pages, root, a, b)
    {
      if a != i && Mid(pages, root, a).Some? {
        assert owner[Mid(pages, root, a).value] == MidTable(a);
      }
    }
    TableGrown(pages, pages', root, owner, p, LeafTable(i, j));
    forall v
      ensures Mapped(pages', root, v) == Mapped(pages, root, v)
    {
      NewLeafMapsNothing(pages, pages', root, owner, i, j, t, p, v);
    }
  }

  lemma NewLeafMapsNothing(pages: seq<Page>, pages': seq<Page>, root: nat, owner: map<nat, Node>, i: nat, j: nat,
                           t: nat, p: nat, v: nat)
    requires TableOk(pages, root, owner) && t in owner && owner[t] == MidTable(i) && Leaf(pages, root, i, j).None?
    requires forall a, b :: 0 <= a < 512 && 0 <= b < 512 ==>
               Leaf(pages', root, a, b) == if a == i && b == j then Some(p) else Leaf(pages, root, a, b)
    requires forall q, k :: !(q == t && k == j) ==> Entry(pages', q, k) == Entry(pages, q, k)
    requires forall k :: Entry(pages', p, k) == 0
    ensures Mapped(pages', root, v) == Mapped(pages, root, v)
  {
    assert !IsValid(0);
    hide Entry, IsValid, PtePpn;
    var a, b := Index(v, 0), Index(v, 1);
    if Leaf(pages, root, a, b).Some? {
      assert owner[Leaf(pages, root, a, b).value] == LeafTable(a, b);
    }
  }

  /** Setting the leaf entry of one page number changes that page number's entry only. */
  lemma SetLeafEntry(pages: seq<Page>, root: nat, owner: map<nat, Node>, vpn: nat, t: nat, e: u64)
    requires TableOk(pages, root, owner) && Leaf(pages, root, Index(vpn, 0), Index(vpn, 1)) == Some(t)
    ensures t < |pages|
    ensures var pages' := SetEntry(pages, t, Index(vpn, 2), e);
            && TableOk(pages', root, owner)
            && Find(pages', root, vpn) == Some(e)
            && forall v :: v < 0x800_0000 && vpn < 0x800_0000 && v != vpn ==> Find(pages', root, v) == Find(pages, root, v)
  {
    var i, j, k := Index(vpn, 0), Index(vpn, 1), Index(vpn, 2);
    assert InPlaceTable(pages, root, t, owner[t]) && owner[t] == LeafTable(i, j);
    var pages' := SetEntry(pages, t, k, e);
    EntrySet(pages, t, k, e);
    hide Entry, SetEntry, IsValid, PtePpn, Index;
    SetLeafWalk(pages, pages', root, owner, i, j, t, k);
    forall v: nat | v < 0x800_0000 && vpn < 0x800_0000 && v != vpn
      ensures Find(pages', root, v) == Find(pages, root, v)
    {
      if Index(v, 0) == i && Index(v, 1) == j && Index(v, 2) == k {
        IndexesUnique(v, vpn);
      }
      var l := Leaf(pages, root, Index(v, 0), Index(v, 1));
      if l.Some? {
        assert owner[l.value] == LeafTable(Index(v, 0), Index(v, 1));
      }
    }
  }

  lemma SetLeafWalk(pages: seq<Page>, pages': seq<Page>, root: nat, owner: map<nat, Node>, i: nat, j: nat, t: nat, k: nat)
    requires TableOk(pages, root, owner) && t in owner && owner[t] == LeafTable(i, j) && |pages'| == |pages|
    requires forall q, m :: !(q == t && m == k) ==> Entry(pages', q, m) == Entry(pages, q, m)
    ensures TableOk(pages', root, owner)
    ensures forall a, b {:trigger Leaf(pages', root, a, b)} :: 0 <= a < 512 && 0 <= b < 512 ==>
              Leaf(pages', root, a, b) == Leaf(pages, root, a, b)
  {
    hide Entry, IsValid, PtePpn;
    forall a | 0 <= a < 512
      ensures Mid(pages', root, a) == Mid(pages, root, a)
      ensures forall b :: 0 <= b < 512 ==> Leaf(pages', root, a, b) == Leaf(pages, root, a, b)
    {
      if Mid(pages, root, a).Some? {
        assert owner[Mid(pages, root, a).value] == MidTable(a);
      }
    }
    forall q | q in owner
      ensures InPlaceTable(pages', root, q, owner[q])
    {
      assert InPlaceTable(pages, root, q, owner[q]);
    }
  }

  /** A root table just zeroed. */
  lemma NewRoot(pages: seq<Page>, root: nat)
    requires root < |pages| && pages[root] == ZERO_PAGE
    ensures TableOk(pages, root, map[root := RootTable])
    ensures forall v :: Mapped(pages, root, v) == None
  {
    forall i: nat
      ensures Entry(pages, root, i) == 0
    {
      ZeroPageEntries(pages, root, i);
    }
    assert !IsValid(0);
    hide Entry, IsValid, PtePpn;
  }
}
