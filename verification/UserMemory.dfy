/** The kernel's access to user memory, cut at page boundaries. */
module UserMemory {
  import opened Bytes
  import opened Collections
  import opened PageWalk
  import opened PageTables

  // ---------- 39-bit virtual addresses

  /** VirtAddr::from(usize) keeps 39 bits. */
  function VaFrom(x: nat): (va: nat)
    ensures va < 0x80_0000_0000
  {
    x % 0x80_0000_0000
  }

  /** usize::from(VirtAddr) extends the sign bit, number 38, to 64 bits. */
  function VaInto(va: nat): nat
    requires va < 0x80_0000_0000
  {
    if va >= 0x40_0000_0000 then va + 0xFFFF_FF80_0000_0000 else va
  }

  /** Exactly the addresses whose bits 63 to 38 are all equal survive the trip. */
  lemma CanonicalAddresses(x: u64)
    ensures VaInto(VaFrom(x)) == x <==> x < 0x40_0000_0000 || x >= 0xFFFF_FFC0_0000_0000
  {
  }

  /** An empty range, or one of such addresses, low or high, whose end does not wrap around. */
  predicate Canonical(ptr: nat, len: nat) {
    len == 0 || ptr + len <= 0x40_0000_0000 || (0xFFFF_FFC0_0000_0000 <= ptr && ptr + len < 0x1_0000_0000_0000_0000)
  }

  /** Canonical ranges are exactly those all of whose addresses survive. */
  lemma CanonicalRanges(ptr: nat, len: nat)
    requires 0 < len && ptr + len < 0x1_0000_0000_0000_0000
    ensures Canonical(ptr, len) <==> forall a :: ptr <= a < ptr + len ==> VaInto(VaFrom(a)) == a
  {
    forall a | ptr <= a < ptr + len
      ensures VaInto(VaFrom(a)) == a <==> a < 0x40_0000_0000 || a >= 0xFFFF_FFC0_0000_0000
    {
      CanonicalAddresses(a);
    }
    var last, hole := ptr + len - 1, 0x40_0000_0000;
    assert !Canonical(ptr, len) ==> VaInto(VaFrom(ptr)) != ptr || VaInto(VaFrom(last)) != last ||
                                    (ptr <= hole < ptr + len && VaInto(VaFrom(hole)) != hole);
  }

  /** In a canonical range, 39-bit addresses and addresses go together; only the end may be taken beyond itself. */
  lemma CanonicalRange(ptr: nat, len: nat, x: nat)
    requires 0 < len && Canonical(ptr, len) && VaFrom(ptr) <= x <= VaFrom(ptr) + len
    ensures VaFrom(ptr + (x - VaFrom(ptr))) == x
    ensures VaInto(x) >= ptr + (x - VaFrom(ptr))
    ensures x < VaFrom(ptr) + len ==> VaInto(x) == ptr + (x - VaFrom(ptr))
  {
  }

  function Floor(va: nat): nat { va / PAGE_SIZE }

  function Ceil(va: nat): (vpn: nat)
    ensures va <= vpn * PAGE_SIZE < va + PAGE_SIZE
  {
    if va == 0 then 0 else (va - 1 + PAGE_SIZE) / PAGE_SIZE
  }

  function PageOffset(va: nat): nat { va % PAGE_SIZE }

  // ---------- physical addresses

  /** translate_va: the entry for the address's page, valid or not, gives the physical address. */
  function TranslateVa(pages: seq<Page>, root: nat, va: nat): Option<nat> {
    match Find(pages, root, Floor(va))
    case None => None
    case Some(e) => Some(PtePpn(e) * PAGE_SIZE + PageOffset(va))
  }

  /** An address lies in its page, of 4096 bytes, as far from the start as its frame's byte does. */
  lemma AddressMeans(pages: seq<Page>, root: nat, a: nat)
    ensures match Find(pages, root, a / 4096)
            case None => TranslateVa(pages, root, a) == None
            case Some(e) => TranslateVa(pages, root, a) == Some(PtePpn(e) * 4096 + a % 4096)
  {
    hide Find, PtePpn;
  }

  /** Every address of the range has an entry, which names a page of memory. */
  ghost predicate Reachable(pages: seq<Page>, root: nat, va: nat, len: nat) {
    forall a :: va <= a < va + len ==> TranslateVa(pages, root, a).Some? && TranslateVa(pages, root, a).value / PAGE_SIZE < |pages|
  }

  /** The physical addresses of a range. */
  ghost function Addrs(pages: seq<Page>, root: nat, va: nat, len: nat): (addrs: seq<nat>)
    requires Reachable(pages, root, va, len)
    ensures |addrs| == len
    ensures forall k :: 0 <= k < len ==> addrs[k] == TranslateVa(pages, root, va + k).value
  {
    seq(len, k requires 0 <= k < len => TranslateVa(pages, root, va + k).value)
  }

  function ByteAt(pages: seq<Page>, pa: nat): byte {
    if pa / PAGE_SIZE < |pages| then pages[pa / PAGE_SIZE][pa % PAGE_SIZE] else 0
  }

  ghost predicate OnMemory(pages: seq<Page>, addrs: seq<nat>) {
    forall k :: 0 <= k < |addrs| ==> addrs[k] / PAGE_SIZE < |pages|
  }

  /** Memory after the bytes of data have been stored at addrs, one after the other. */
  ghost function StoreAll(pages: seq<Page>, addrs: seq<nat>, data: seq<byte>): (pages': seq<Page>)
    requires |addrs| == |data| && OnMemory(pages, addrs)
    ensures |pages'| == |pages|
  {
    if data == [] then pages
    else
      var n := |data| - 1;
      var before := StoreAll(pages, addrs[..n], data[..n]);
      before[addrs[n] / PAGE_SIZE := before[addrs[n] / PAGE_SIZE][addrs[n] % PAGE_SIZE := data[n]]]
  }

  ghost function LoadAll(pages: seq<Page>, addrs: seq<nat>): (data: seq<byte>)
    ensures |data| == |addrs|
    ensures forall k :: 0 <= k < |data| ==> data[k] == ByteAt(pages, addrs[k])
  {
    seq(|addrs|, k requires 0 <= k < |addrs| => ByteAt(pages, addrs[k]))
  }

  /** Storing at distinct addresses: each gets its byte, and no other address changes. */
  lemma {:induction false} StoredBytes(pages: seq<Page>, addrs: seq<nat>, data: seq<byte>, pa: nat)
    requires |addrs| == |data| && OnMemory(pages, addrs) && NoDup(addrs)
    ensures pa !in addrs ==> ByteAt(StoreAll(pages, addrs, data), pa) == ByteAt(pages, pa)
    ensures forall k :: 0 <= k < |addrs| && addrs[k] == pa ==> ByteAt(StoreAll(pages, addrs, data), pa) == data[k]
  {
    if data != [] {
      var n := |data| - 1;
      StoredBytes(pages, addrs[..n], data[..n], pa);
      SameAddress(pa, addrs[n]);
      assert pa in addrs[..n] ==> pa in addrs;
    }
  }

  lemma SameAddress(a: nat, b: nat)
    ensures a == b <==> a / PAGE_SIZE == b / PAGE_SIZE && a % PAGE_SIZE == b % PAGE_SIZE
  {
  }

  /** Two stores in a row. */
  lemma {:induction false} StoreAppend(pages: seq<Page>, addrs: seq<nat>, data: seq<byte>, addrs2: seq<nat>, data2: seq<byte>)
    requires |addrs| == |data| && OnMemory(pages, addrs) && |addrs2| == |data2| && OnMemory(pages, addrs2)
    ensures OnMemory(pages, addrs + addrs2)
    ensures StoreAll(pages, addrs + addrs2, data + data2) == StoreAll(StoreAll(pages, addrs, data), addrs2, data2)
  {
    if data2 == [] {
      assert addrs + addrs2 == addrs && data + data2 == data;
    } else {
      var n := |data2| - 1;
      StoreAppend(pages, addrs, data, addrs2[..n], data2[..n]);
      assert (addrs + addrs2)[..|addrs| + n] == addrs + addrs2[..n];
      assert (data + data2)[..|data| + n] == data + data2[..n];
    }
  }

  /** Storing within one page is copying into it. */
  lemma {:induction false} StoreInPage(pages: seq<Page>, p: nat, off: nat, data: seq<byte>)
    requires p < |pages| && off + |data| <= PAGE_SIZE
    ensures OnMemory(pages, Run(p, off, |data|))
    ensures StoreAll(pages, Run(p, off, |data|), data) == pages[p := Splice(pages[p], off, data)]
  {
    if data == [] {
      assert Splice(pages[p], off, data) == pages[p];
    } else {
      var n := |data| - 1;
      StoreInPage(pages, p, off, data[..n]);
      assert Run(p, off, |data|)[..n] == Run(p, off, n);
      var before := pages[p := Splice(pages[p], off, data[..n])];
      assert before[p][off + n := data[n]] == Splice(pages[p], off, data);
    }
  }

  /** len consecutive addresses in page p. */
  ghost function Run(p: nat, off: nat, len: nat): (addrs: seq<nat>)
    requires off + len <= PAGE_SIZE
    ensures |addrs| == len
    ensures forall k :: 0 <= k < len ==> addrs[k] == p * PAGE_SIZE + off + k
    ensures forall k :: 0 <= k < len ==> addrs[k] / PAGE_SIZE == p && addrs[k] % PAGE_SIZE == off + k
  {
    var addrs := seq(len, k requires 0 <= k < len => p * PAGE_SIZE + off + k);
    assert forall k :: 0 <= k < len ==> addrs[k] / PAGE_SIZE == p && addrs[k] % PAGE_SIZE == off + k by {
      forall k | 0 <= k < len
        ensures addrs[k] / PAGE_SIZE == p && addrs[k] % PAGE_SIZE == off + k
      {
        InPage(p, off + k);
      }
    }
    addrs
  }

  lemma InPage(p: nat, k: nat)
    requires k < 4096
    ensures (p * 4096 + k) / 4096 == p && (p * 4096 + k) % 4096 == k
  {
  }

  // ---------- chunks

  /** Bytes lo..hi of a frame. */
  datatype Chunk = Chunk(ppn: nat, lo: nat, hi: nat) {
    function Len(): int { hi - lo }

    ghost predicate InFrame(pages: seq<Page>) {
      ppn < |pages| && lo < hi <= PAGE_SIZE
    }

    ghost function Where(pages: seq<Page>): seq<nat>
      requires InFrame(pages)
    {
      Run(ppn, lo, hi - lo)
    }
  }

  ghost predicate AllInFrame(pages: seq<Page>, chunks: seq<Chunk>) {
    forall k :: 0 <= k < |chunks| ==> chunks[k].InFrame(pages)
  }

  /** The addresses of all bytes of all chunks, in order. */
  ghost function Flat(pages: seq<Page>, chunks: seq<Chunk>): seq<nat>
    requires AllInFrame(pages, chunks)
  {
    if chunks == [] then []
    else Flat(pages, chunks[..|chunks| - 1]) + chunks[|chunks| - 1].Where(pages)
  }

  /** The step of the loop that cuts a range: one chunk, up to the end of the page or of the range. */
  lemma CutChunk(pages: seq<Page>, root: nat, start: nat, end: nat, next: nat)
    requires start < next <= end && Floor(next - 1) == Floor(start)
    requires Reachable(pages, root, start, end - start)
    ensures var e := Find(pages, root, Floor(start));
            && e.Some?
            && var c := Chunk(PtePpn(e.value), PageOffset(start), PageOffset(start) + (next - start));
            && c.InFrame(pages)
            && Reachable(pages, root, start, next - start)
            && c.Where(pages) == Addrs(pages, root, start, next - start)
  {
    assert TranslateVa(pages, root, start).Some?;
    var e := Find(pages, root, Floor(start)).value;
    SamePage(start, next);
    InPage(PtePpn(e), PageOffset(start));
    var c := Chunk(PtePpn(e), PageOffset(start), PageOffset(start) + (next - start));
    forall k | 0 <= k < next - start
      ensures c.Where(pages)[k] == TranslateVa(pages, root, start + k).value
    {
      InSamePage(start, next, k);
    }
  }

  lemma SamePage(start: nat, next: nat)
    requires start < next && Floor(next - 1) == Floor(start)
    ensures PageOffset(start) + (next - start) <= PAGE_SIZE
  {
  }

  lemma InSamePage(start: nat, next: nat, k: nat)
    requires start + k < next && Floor(next - 1) == Floor(start)
    ensures Floor(start + k) == Floor(start) && PageOffset(start + k) == PageOffset(start) + k
  {
  }

  /**
   * translated_byte_buffer: the chunks cover the range once, in order, each byte where translate_va puts it.
   * The page table is the one with the given root, read only.
   */
  method TranslatedByteBuffer(mem: Memory, root: nat, ptr: nat, len: nat) returns (v: seq<Chunk>)
    requires Canonical(ptr, len) && Reachable(mem.pages, root, VaFrom(ptr), len)
    ensures AllInFrame(mem.pages, v) && Flat(mem.pages, v) == Addrs(mem.pages, root, VaFrom(ptr), len)
  {
    hide Canonical, Missing, Find, PtePpn, Reachable, Addrs, Flat, AllInFrame, VaFrom, VaInto, Floor, PageOffset, Chunk.InFrame, Chunk.Where;
    var pageTable := new PageTable.At(mem, root);
    var start, end := ptr, ptr + len;
    v := [];
    ghost var low, high := VaFrom(ptr), VaFrom(ptr) + len;
    ghost var reached := low;
    StartOfRange(mem.pages, root, low);
    while start < end
      invariant low <= reached <= high && (if reached == high then start >= end else start == ptr + (reached - low))
      invariant AllInFrame(mem.pages, v)
      invariant Reachable(mem.pages, root, low, reached - low)
      invariant Flat(mem.pages, v) == Addrs(mem.pages, root, low, reached - low)
      decreases high - reached
    {
      CanonicalRange(ptr, len, reached);
      CanonicalRange(ptr, len, high);
      RestReachable(mem.pages, root, low, reached, high);
      var startVa := VaFrom(start);
      var vpn := Floor(startVa);
      var pte := pageTable.Translate(vpn);
      var ppn := PtePpn(pte.value);
      vpn := vpn + 1;
      var endVa := vpn * PAGE_SIZE;
      if VaFrom(end) < endVa {
        endVa := VaFrom(end);
      }
      ChunkEnd(reached, high, endVa);
      CutChunk(mem.pages, root, reached, high, endVa);
      ghost var cut := Chunk(ppn, PageOffset(reached), PageOffset(reached) + (endVa - reached));
      FlatSnoc(mem.pages, v, cut);
      AddrsAppend(mem.pages, root, low, reached, endVa);
      if PageOffset(endVa) == 0 {
        v := v + [Chunk(ppn, PageOffset(startVa), PAGE_SIZE)];
      } else {
        v := v + [Chunk(ppn, PageOffset(startVa), PageOffset(endVa))];
      }
      reached := endVa;
      CanonicalRange(ptr, len, endVa);
      start := VaInto(endVa);
    }
  }

  lemma StartOfRange(pages: seq<Page>, root: nat, ptr: nat)
    ensures AllInFrame(pages, []) && Reachable(pages, root, ptr, 0) && Flat(pages, []) == Addrs(pages, root, ptr, 0)
  {
  }

  lemma RestReachable(pages: seq<Page>, root: nat, ptr: nat, start: nat, end: nat)
    requires ptr <= start < end && Reachable(pages, root, ptr, end - ptr)
    ensures Reachable(pages, root, start, end - start) && Find(pages, root, Floor(start)).Some?
  {
    assert TranslateVa(pages, root, start).Some?;
  }

  lemma FlatSnoc(pages: seq<Page>, v: seq<Chunk>, c: Chunk)
    requires AllInFrame(pages, v) && c.InFrame(pages)
    ensures AllInFrame(pages, v + [c]) && Flat(pages, v + [c]) == Flat(pages, v) + c.Where(pages)
  {
    assert (v + [c])[..|v|] == v;
  }

  /** Where a chunk ends: at the next page boundary or at the end, whichever comes first. */
  lemma ChunkEnd(start: nat, end: nat, endVa: nat)
    requires start < end
    requires endVa == if end < Floor(start) * PAGE_SIZE + PAGE_SIZE then end else Floor(start) * PAGE_SIZE + PAGE_SIZE
    ensures start < endVa <= end && Floor(endVa - 1) == Floor(start)
    ensures PageOffset(start) + (endVa - start) == if PageOffset(endVa) == 0 then PAGE_SIZE else PageOffset(endVa)
  {
  }

  lemma AddrsAppend(pages: seq<Page>, root: nat, ptr: nat, mid: nat, end: nat)
    requires ptr <= mid <= end
    requires Reachable(pages, root, ptr, mid - ptr) && Reachable(pages, root, mid, end - mid)
    ensures Reachable(pages, root, ptr, end - ptr)
    ensures Addrs(pages, root, ptr, mid - ptr) + Addrs(pages, root, mid, end - mid) == Addrs(pages, root, ptr, end - ptr)
  {
    hide TranslateVa, Find;
  }

  // ---------- reading and writing

  function Min(a: int, b: int): int {
    if a <= b then a else b
  }

  /** write_user_bytes: chunk by chunk, until the data is used up. */
  method WriteUserBytes(mem: Memory, root: nat, va: nat, data: seq<byte>)
    requires Canonical(va, |data|) && Reachable(mem.pages, root, VaFrom(va), |data|)
    modifies mem`pages
    ensures |mem.pages| == |old(mem.pages)|
    ensures OnMemory(old(mem.pages), Addrs(old(mem.pages), root, VaFrom(va), |data|))
    ensures mem.pages == StoreAll(old(mem.pages), Addrs(old(mem.pages), root, VaFrom(va), |data|), data)
  {
    hide Canonical, VaFrom, Reachable, Addrs, Flat, AllInFrame, OnMemory, StoreAll, Run, Chunk.InFrame, Chunk.Where;
    ghost var pages := mem.pages;
    AddrsOnMemory(pages, root, VaFrom(va), |data|);
    var chunks := TranslatedByteBuffer(mem, root, va, |data|);
    var written := 0;
    FlatParts(pages, chunks, 0);
    StoreNothing(pages);
    for i := 0 to |chunks|
      invariant AllInFrame(pages, chunks[..i]) && OnMemory(pages, Flat(pages, chunks[..i]))
      invariant |mem.pages| == |pages| && written == |Flat(pages, chunks[..i])| <= |data|
      invariant mem.pages == StoreAll(pages, Flat(pages, chunks[..i]), data[..written])
    {
      var c := chunks[i];
      FlatParts(pages, chunks, i);
      var n := Min(c.Len(), |data| - written);
      WriteChunk(pages, Flat(pages, chunks[..i]), data[..written], c, data[written..written + n]);
      assert data[..written] + data[written..written + n] == data[..written + n];
      mem.WriteBytes(c.ppn, c.lo, data[written..written + n]);
      written := written + n;
    }
    assert chunks[..|chunks|] == chunks && data[..|data|] == data;
  }

  lemma AddrsOnMemory(pages: seq<Page>, root: nat, va: nat, len: nat)
    requires Reachable(pages, root, va, len)
    ensures OnMemory(pages, Addrs(pages, root, va, len))
  {
  }

  lemma StoreNothing(pages: seq<Page>)
    ensures Flat(pages, []) == [] && AllInFrame(pages, []) && OnMemory(pages, []) && StoreAll(pages, [], []) == pages
  {
  }

  /** The chunks before position i, chunk i, and how they add up. */
  lemma FlatParts(pages: seq<Page>, chunks: seq<Chunk>, i: nat)
    requires AllInFrame(pages, chunks) && i <= |chunks|
    ensures AllInFrame(pages, chunks[..i]) && |Flat(pages, chunks[..i])| <= |Flat(pages, chunks)|
    ensures i < |chunks| ==>
              && chunks[i].InFrame(pages) && chunks[i].ppn < |pages| && chunks[i].lo < chunks[i].hi <= PAGE_SIZE
              && AllInFrame(pages, chunks[..i + 1])
              && Flat(pages, chunks[..i + 1]) == Flat(pages, chunks[..i]) + chunks[i].Where(pages)
              && |chunks[i].Where(pages)| == chunks[i].Len()
              && |Flat(pages, chunks[..i + 1])| <= |Flat(pages, chunks)|
    decreases |chunks| - i
  {
    if i < |chunks| {
      assert chunks[..i + 1][..i] == chunks[..i];
      FlatParts(pages, chunks, i + 1);
    } else {
      assert chunks[..i] == chunks;
    }
  }

  lemma WriteChunk(pages: seq<Page>, addrs: seq<nat>, data: seq<byte>, c: Chunk, piece: seq<byte>)
    requires OnMemory(pages, addrs) && |addrs| == |data| && c.InFrame(pages) && |piece| == c.Len()
    ensures OnMemory(pages, addrs + c.Where(pages))
    ensures var before := StoreAll(pages, addrs, data);
            StoreAll(pages, addrs + c.Where(pages), data + piece) == before[c.ppn := Splice(before[c.ppn], c.lo, piece)]
  {
    var before := StoreAll(pages, addrs, data);
    StoreInPage(pages, c.ppn, c.lo, piece);
    StoreInPage(before, c.ppn, c.lo, piece);
    StoreAppend(pages, addrs, data, c.Where(pages), piece);
  }

  /** read_user_bytes: fills the buffer from the range of its length. */
  method ReadUserBytes(mem: Memory, root: nat, va: nat, buf: array<byte>)
    requires Canonical(va, buf.Length) && Reachable(mem.pages, root, VaFrom(va), buf.Length)
    modifies buf
    ensures buf[..] == LoadAll(mem.pages, Addrs(mem.pages, root, VaFrom(va), buf.Length))
  {
    hide Canonical, VaFrom, Reachable, Addrs, Flat, AllInFrame, Run, Chunk.InFrame, Chunk.Where, ByteAt, LoadAll, OnMemory, StoreAll;
    ghost var pages := mem.pages;
    var chunks := TranslatedByteBuffer(mem, root, va, buf.Length);
    var read := 0;
    FlatParts(pages, chunks, 0);
    StoreNothing(pages);
    for i := 0 to |chunks|
      invariant AllInFrame(pages, chunks[..i]) && read == |Flat(pages, chunks[..i])| <= buf.Length
      invariant buf[..read] == LoadAll(pages, Flat(pages, chunks[..i]))
    {
      var c := chunks[i];
      FlatParts(pages, chunks, i);
      ChunkBytes(pages, c);
      var n := Min(c.Len(), buf.Length - read);
      ghost var before := buf[..read];
      var page := mem.pages[c.ppn];
      CopyInto(buf, read, page[c.lo..c.lo + n]);
      assert buf[..read + n] == before + page[c.lo..c.lo + n];
      LoadAppend(pages, Flat(pages, chunks[..i]), c.Where(pages));
      read := read + n;
    }
    assert chunks[..|chunks|] == chunks && buf[..buf.Length] == buf[..];
  }

  method CopyInto(buf: array<byte>, at: nat, piece: seq<byte>)
    requires at + |piece| <= buf.Length
    modifies buf
    ensures buf[..at] == old(buf[..at]) && buf[at..at + |piece|] == piece
  {
    forall k | 0 <= k < |piece| {
      buf[at + k] := piece[k];
    }
  }

  lemma ChunkBytes(pages: seq<Page>, c: Chunk)
    requires c.InFrame(pages)
    ensures LoadAll(pages, c.Where(pages)) == pages[c.ppn][c.lo..c.hi]
  {
  }

  lemma LoadAppend(pages: seq<Page>, addrs: seq<nat>, addrs2: seq<nat>)
    ensures LoadAll(pages, addrs + addrs2) == LoadAll(pages, addrs) + LoadAll(pages, addrs2)
  {
    hide ByteAt;
  }

  /** The pages of the range are in different frames, and none of them is one of the page table's. */
  ghost predicate OwnFrames(pages: seq<Page>, root: nat, owner: map<nat, Node>, va: nat, len: nat)
    requires Reachable(pages, root, va, len)
  {
    forall a, b {:trigger TranslateVa(pages, root, a), TranslateVa(pages, root, b)} ::
      va <= a < va + len && va <= b < va + len ==>
        && TranslateVa(pages, root, a).value / PAGE_SIZE !in owner
        && (TranslateVa(pages, root, a).value / PAGE_SIZE == TranslateVa(pages, root, b).value / PAGE_SIZE ==> Floor(a) == Floor(b))
  }

  lemma DistinctAddrs(pages: seq<Page>, root: nat, owner: map<nat, Node>, va: nat, len: nat)
    requires Reachable(pages, root, va, len) && OwnFrames(pages, root, owner, va, len)
    ensures NoDup(Addrs(pages, root, va, len))
  {
    var addrs := Addrs(pages, root, va, len);
    forall i, j | 0 <= i < j < len
      ensures addrs[i] != addrs[j]
    {
      var a, b := va + i, va + j;
      assert TranslateVa(pages, root, a).Some? && TranslateVa(pages, root, b).Some?;
      OffsetOf(pages, root, a);
      OffsetOf(pages, root, b);
      SameAddress(a, b);
    }
  }

  lemma PageOf(pages: seq<Page>, root: nat, a: nat)
    requires Find(pages, root, Floor(a)).Some?
    ensures TranslateVa(pages, root, a).Some?
    ensures TranslateVa(pages, root, a).value / PAGE_SIZE == PtePpn(Find(pages, root, Floor(a)).value)
  {
    hide Find, PtePpn;
    InPage(PtePpn(Find(pages, root, Floor(a)).value), PageOffset(a));
  }

  lemma OffsetOf(pages: seq<Page>, root: nat, a: nat)
    requires TranslateVa(pages, root, a).Some?
    ensures TranslateVa(pages, root, a).value % PAGE_SIZE == PageOffset(a)
  {
    InPage(PtePpn(Find(pages, root, Floor(a)).value), PageOffset(a));
  }

  /**
   * What write_user_bytes wrote, read_user_bytes reads, however the pages split it; translations stay what
   * they were, and a byte of another physical address is untouched.
   */
  lemma WriteThenRead(pages: seq<Page>, root: nat, owner: map<nat, Node>, va: nat, data: seq<byte>, pa: nat)
    requires TableOk(pages, root, owner) && Reachable(pages, root, va, |data|)
    requires OwnFrames(pages, root, owner, va, |data|)
    ensures OnMemory(pages, Addrs(pages, root, va, |data|))
    ensures var pages' := StoreAll(pages, Addrs(pages, root, va, |data|), data);
            && TableOk(pages', root, owner) && (forall v :: Find(pages', root, v) == Find(pages, root, v))
            && Reachable(pages', root, va, |data|)
            && LoadAll(pages', Addrs(pages', root, va, |data|)) == data
            && (pa !in Addrs(pages, root, va, |data|) ==> ByteAt(pages', pa) == ByteAt(pages, pa))
  {
    hide StoreAll, Find, TableOk, ByteAt, OnMemory, OwnFrames, SameOn, Addrs, Reachable, TranslateVa, NoDup;
    AddrsOnMemory(pages, root, va, |data|);
    TablesUntouched(pages, root, owner, va, data);
    var addrs, pages' := Addrs(pages, root, va, |data|), StoreAll(pages, Addrs(pages, root, va, |data|), data);
    DistinctAddrs(pages, root, owner, va, |data|);
    WalkFrame(pages, pages', root, owner);
    SameTranslations(pages, pages', root, va, |data|);
    StoredBytes(pages, addrs, data, pa);
    LoadStored(pages, addrs, data);
  }

  lemma SameTranslations(pages: seq<Page>, pages': seq<Page>, root: nat, va: nat, len: nat)
    requires |pages'| == |pages| && Reachable(pages, root, va, len)
    requires forall v :: Find(pages', root, v) == Find(pages, root, v)
    ensures Reachable(pages', root, va, len) && Addrs(pages', root, va, len) == Addrs(pages, root, va, len)
  {
    hide Find;
    forall a: nat
      ensures TranslateVa(pages', root, a) == TranslateVa(pages, root, a)
    {
      assert Find(pages', root, Floor(a)) == Find(pages, root, Floor(a));
    }
    hide TranslateVa;
  }

  lemma LoadStored(pages: seq<Page>, addrs: seq<nat>, data: seq<byte>)
    requires |addrs| == |data| && OnMemory(pages, addrs) && NoDup(addrs)
    ensures LoadAll(StoreAll(pages, addrs, data), addrs) == data
  {
    hide StoreAll, ByteAt;
    forall k | 0 <= k < |data|
      ensures ByteAt(StoreAll(pages, addrs, data), addrs[k]) == data[k]
    {
      StoredBytes(pages, addrs, data, addrs[k]);
    }
  }

  lemma TablesUntouched(pages: seq<Page>, root: nat, owner: map<nat, Node>, va: nat, data: seq<byte>)
    requires Reachable(pages, root, va, |data|) && OwnFrames(pages, root, owner, va, |data|)
    requires OnMemory(pages, Addrs(pages, root, va, |data|))
    ensures SameOn(pages, StoreAll(pages, Addrs(pages, root, va, |data|), data), owner.Keys)
  {
    var addrs := Addrs(pages, root, va, |data|);
    DistinctAddrs(pages, root, owner, va, |data|);
    var pages' := StoreAll(pages, addrs, data);
    hide StoreAll, ByteAt, Addrs, Reachable, OwnFrames, NoDup, OnMemory;
    forall p | p in owner && 0 <= p < |pages|
      ensures pages'[p] == pages[p]
    {
      forall k | 0 <= k < PAGE_SIZE
        ensures pages'[p][k] == pages[p][k]
      {
        TableByte(pages, root, owner, va, data, p, k);
      }
    }
  }

  lemma TableByte(pages: seq<Page>, root: nat, owner: map<nat, Node>, va: nat, data: seq<byte>, p: nat, k: nat)
    requires Reachable(pages, root, va, |data|) && OwnFrames(pages, root, owner, va, |data|)
    requires OnMemory(pages, Addrs(pages, root, va, |data|)) && NoDup(Addrs(pages, root, va, |data|))
    requires p in owner && p < |pages| && k < PAGE_SIZE
    ensures StoreAll(pages, Addrs(pages, root, va, |data|), data)[p][k] == pages[p][k]
  {
    hide StoreAll, ByteAt, Addrs, Reachable, OwnFrames, NoDup, OnMemory;
    InPage(p, k);
    NotInOwner(pages, root, owner, va, |data|, p * PAGE_SIZE + k);
    StoredBytes(pages, Addrs(pages, root, va, |data|), data, p * PAGE_SIZE + k);
    ByteOfPage(pages, p, k);
    ByteOfPage(StoreAll(pages, Addrs(pages, root, va, |data|), data), p, k);
  }

  lemma ByteOfPage(pages: seq<Page>, p: nat, k: nat)
    requires p < |pages| && k < PAGE_SIZE
    ensures ByteAt(pages, p * PAGE_SIZE + k) == pages[p][k]
  {
    InPage(p, k);
  }

  lemma NotInOwner(pages: seq<Page>, root: nat, owner: map<nat, Node>, va: nat, len: nat, pa: nat)
    requires Reachable(pages, root, va, len) && OwnFrames(pages, root, owner, va, len) && pa / PAGE_SIZE in owner
    ensures pa !in Addrs(pages, root, va, len)
  {
    var addrs := Addrs(pages, root, va, len);
    forall k | 0 <= k < len
      ensures addrs[k] != pa
    {
      assert TranslateVa(pages, root, va + k).value / PAGE_SIZE !in owner;
    }
  }
}
