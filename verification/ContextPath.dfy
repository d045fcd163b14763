/** The context path of an agent: an append-only log in the context area, kept within quotas by eviction. */
module ContextPaths {
  import opened Bytes
  import opened Collections
  import opened PageWalk
  import opened ContextAreas
  import opened PathNodes

  const PATH_BUFFER_OFF: nat := 0x4100
  const PATH_BUFFER_LEN: nat := 0x8000
  const PATH_BUFFER_END: nat := 0xC100
  const HEADER_MAGIC: nat := 0xA9E4_5EC0

  datatype EvictPolicy = Fifo | Lru

  datatype PathResult = Ok(index: nat) | QuotaExceeded | InternalError | NotFound

  /** The context area's bytes hold, from the path buffer's start on, the path's bytes. */
  ghost predicate HoldsPath(contents: seq<byte>, nodes: seq<PathNode>) {
    && |contents| == AREA_SIZE && |Flat(nodes)| <= PATH_BUFFER_LEN
    && contents[PATH_BUFFER_OFF..PATH_BUFFER_OFF + |Flat(nodes)|] == Flat(nodes)
  }

  /** The header's copies of the used bytes and the node count. */
  ghost predicate HoldsCounts(contents: seq<byte>, used: nat, count: nat) {
    |contents| == AREA_SIZE && LeAt(contents, 36, 4) == used && LeAt(contents, 40, 4) == count
  }

  /** The header's other fields, where the user's library reads them, and its reserved part. */
  ghost predicate HoldsHeader(contents: seq<byte>) {
    && |contents| == AREA_SIZE
    && LeAt(contents, 0, 4) == HEADER_MAGIC && LeAt(contents, 4, 4) == 1 && LeAt(contents, 8, 8) == 0
    && LeAt(contents, 16, 4) == 0x100 && LeAt(contents, 20, 4) == 0x4000 && LeAt(contents, 24, 4) == 0
    && LeAt(contents, 28, 4) == PATH_BUFFER_OFF && LeAt(contents, 32, 4) == PATH_BUFFER_LEN
    && LeAt(contents, 44, 4) == PATH_BUFFER_END && LeAt(contents, 48, 4) == 0x2000
    && contents[52..244] == Zeros(192)
  }

  /** The header as it lies in memory: its fields to byte 52, the reserved part to 244, and four bytes of padding. */
  function HeaderBytes(padding: seq<byte>): (s: seq<byte>)
    requires |padding| == 4
    ensures |s| == 248
  {
    ToLe(HEADER_MAGIC, 4) + ToLe(1, 4) + ToLe(0, 8)
    + ToLe(0x100, 4) + ToLe(0x4000, 4) + ToLe(0, 4)
    + ToLe(PATH_BUFFER_OFF, 4) + ToLe(PATH_BUFFER_LEN, 4) + ToLe(0, 4) + ToLe(0, 4)
    + ToLe(PATH_BUFFER_END, 4) + ToLe(0x2000, 4) + Zeros(192) + padding
  }

  /** init_header: an area whose header counts no path bytes and no nodes; what the padding holds is not defined. */
  method InitHeader(area: ContextArea, padding: seq<byte>)
    requires area.Valid() && |padding| == 4
    modifies area.mem`pages
    ensures area.Valid() && HoldsHeader(area.Contents()) && HoldsCounts(area.Contents(), 0, 0)
    ensures area.Contents()[248..] == old(area.Contents())[248..]
    ensures SameOn(old(area.mem.pages), area.mem.pages, area.owner.Keys)
  {
    hide ContextArea.Valid, ContextArea.Contents, LeAt, ToLe, HeaderBytes, SameOn;
    ghost var c0 := area.Contents();
    area.Write(0, HeaderBytes(padding));
    HeaderThrough(area.Contents(), c0, padding);
  }

  lemma HeaderThrough(c: seq<byte>, c0: seq<byte>, padding: seq<byte>)
    requires |padding| == 4 && |c0| == AREA_SIZE && c == Splice(c0, 0, HeaderBytes(padding))
    ensures HoldsHeader(c) && HoldsCounts(c, 0, 0)
  {
    Pow256Values();
    hide ToLe, LeAt, Zeros, Pow256;
    var h := HeaderBytes(padding);
    FieldThrough(c, c0, h, 0, 4, HEADER_MAGIC);
    FieldThrough(c, c0, h, 4, 4, 1);
    FieldThrough(c, c0, h, 8, 8, 0);
    FieldThrough(c, c0, h, 16, 4, 0x100);
    FieldThrough(c, c0, h, 20, 4, 0x4000);
    FieldThrough(c, c0, h, 24, 4, 0);
    FieldThrough(c, c0, h, 28, 4, PATH_BUFFER_OFF);
    FieldThrough(c, c0, h, 32, 4, PATH_BUFFER_LEN);
    FieldThrough(c, c0, h, 36, 4, 0);
    FieldThrough(c, c0, h, 40, 4, 0);
    FieldThrough(c, c0, h, 44, 4, PATH_BUFFER_END);
    FieldThrough(c, c0, h, 48, 4, 0x2000);
    assert c[52..244] == h[52..244];
  }

  /** A field of the header reads back from the area. */
  lemma FieldThrough(c: seq<byte>, c0: seq<byte>, h: seq<byte>, off: nat, n: nat, v: nat)
    requires |h| <= |c0| && c == Splice(c0, 0, h) && off + n <= |h|
    requires h[off..off + n] == ToLe(v, n) && v < Pow256(n)
    ensures LeAt(c, off, n) == v
  {
    assert c[off..off + n] == h[off..off + n];
    FromLeToLe(v, n);
  }

  class ContextPath {
    const area: ContextArea
    const maxNodes: nat
    const maxBytes: nat
    const policy: EvictPolicy
    var meta: seq<PathNodeMeta>
    var used: nat
    var nextSeq: nat
    ghost var nodes: seq<PathNode>
    ghost var clock: u64

    /** The metadata and the buffer agree with the list of nodes, which keeps to the quotas. */
    ghost predicate Stored()
      reads this, area.mem
    {
      && area.Valid() && maxBytes <= PATH_BUFFER_LEN
      && meta == MetaOf(nodes) && used == |Flat(nodes)| <= maxBytes && |nodes| <= maxNodes
      && HoldsPath(area.Contents(), nodes) && Ordered(nodes, nextSeq, clock)
    }

    /** And the header mirrors it. */
    ghost predicate Valid()
      reads this, area.mem
    {
      Stored() && HoldsCounts(area.Contents(), used, |meta|)
    }

    /** An empty path, in an area whose header has just been initialized. */
    constructor (area: ContextArea, maxNodes: nat, maxBytes: nat, policy: EvictPolicy)
      requires area.Valid() && maxBytes <= PATH_BUFFER_LEN && HoldsCounts(area.Contents(), 0, 0)
      ensures Valid() && nodes == [] && this.area == area && this.maxNodes == maxNodes && this.maxBytes == maxBytes
    {
      this.area, this.maxNodes, this.maxBytes, this.policy := area, maxNodes, maxBytes, policy;
      meta, used, nextSeq, nodes, clock := [], 0, 0, [], 0;
      new;
      assert area.Contents()[PATH_BUFFER_OFF..PATH_BUFFER_OFF] == [];
    }

    /** shift_path_buffer_left: moves bytes towards the front in chunks of 256, as one move would, overlap or not. */
    method ShiftPathBufferLeft(from: nat, len: nat, shift: nat)
      requires area.Valid() && shift <= from && from + len <= PATH_BUFFER_LEN
      modifies area.mem`pages
      ensures area.Valid()
      ensures area.Contents() == Splice(old(area.Contents()), PATH_BUFFER_OFF + from - shift,
                                        old(area.Contents())[PATH_BUFFER_OFF + from..PATH_BUFFER_OFF + from + len])
    {
      hide ContextArea.Valid, ContextArea.Contents, Splice, SameOn, Moved;
      ghost var c0, at := area.Contents(), PATH_BUFFER_OFF + from;
      ShiftNothing(c0, at, len, shift);
      if len == 0 || shift == 0 {
        return;
      }
      var copied := 0;
      while copied < len
        invariant copied <= len && area.Valid()
        invariant area.Contents() == Moved(c0, at, shift, copied)
      {
        var n := if len - copied < 256 then len - copied else 256;
        ShiftChunk(c0, at, shift, copied, n);
        CopyChunk(PATH_BUFFER_OFF + (from + copied), PATH_BUFFER_OFF + (from + copied - shift), n);
        copied := copied + n;
      }
    }

    /** One chunk goes through a temporary buffer. */
    method CopyChunk(from: nat, to: nat, n: nat)
      requires area.Valid() && from + n <= AREA_SIZE && to + n <= AREA_SIZE
      modifies area.mem`pages
      ensures area.Valid() && area.Contents() == Splice(old(area.Contents()), to, old(area.Contents())[from..from + n])
    {
      hide ContextArea.Valid, ContextArea.Contents, Splice, SameOn;
      var buf := new byte[n];
      area.Read(from, buf);
      area.Write(to, buf[..]);
    }

    /** pick_victim: the first node, or the first of those written longest ago; None when there is no node. */
    method PickVictim() returns (v: Option<nat>)
      ensures v.None? <==> meta == []
      ensures v.Some? ==> v.value < |meta|
      ensures v.Some? && policy.Fifo? ==> v.value == 0
      ensures v.Some? && policy.Lru? ==>
                && (forall j :: 0 <= j < |meta| ==> meta[v.value].writeTime <= meta[j].writeTime)
                && (forall j :: 0 <= j < v.value ==> meta[v.value].writeTime < meta[j].writeTime)
    {
      if meta == [] {
        return None;
      }
      if policy.Fifo? {
        return Some(0);
      }
      var best := 0;
      for i := 1 to |meta|
        invariant best < i
        invariant forall j :: 0 <= j < i ==> meta[best].writeTime <= meta[j].writeTime
        invariant forall j :: 0 <= j < best ==> meta[best].writeTime < meta[j].writeTime
      {
        if meta[i].writeTime < meta[best].writeTime {
          best := i;
        }
      }
      v := Some(best);
    }

    /** evict_one's work for a victim at any index: closes the gap and adjusts the offsets behind it. */
    method EvictAt(v: nat)
      requires Stored() && v < |nodes|
      modifies this, area.mem`pages
      ensures Stored() && nodes == Without(old(nodes), v) && nextSeq == old(nextSeq) && clock == old(clock)
    {
      hide ContextArea.Valid, ContextArea.Contents, MetaOf, HoldsPath, Ordered, Encode, Flat;
      var victim := meta[v];
      ghost var c0 := area.Contents();
      VictimWithin(nodes, v);
      var moveFrom := victim.offset + victim.len;
      ShiftPathBufferLeft(moveFrom, used - moveFrom, victim.len);
      GapClosed(c0, area.Contents(), nodes, v);
      AdjustMeta(v);
      used := used - victim.len;
      OrderedPart(nodes, nextSeq, clock, v);
      nodes := Without(nodes, v);
    }

    /** Drops the victim's metadata, and moves the offsets behind it. */
    method AdjustMeta(v: nat)
      requires meta == MetaOf(nodes) && v < |nodes|
      modifies this`meta
      ensures meta == MetaOf(Without(nodes, v))
    {
      hide MetaOf, Flat, Encode;
      ghost var before, after := MetaOf(nodes), MetaOf(Without(nodes, v));
      var victim := meta[v];
      var moveFrom := victim.offset + victim.len;
      meta := Without(meta, v);
      var i := 0;
      while i < |meta|
        invariant i <= |meta| == |before| - 1
        invariant forall j :: 0 <= j < i ==> meta[j] == after[j]
        invariant forall j :: i <= j < |meta| ==> meta[j] == before[if j < v then j else j + 1]
      {
        MetaWithout(nodes, v, i);
        if meta[i].offset >= moveFrom {
          meta := meta[i := meta[i].(offset := meta[i].offset - victim.len)];
        }
        i := i + 1;
      }
    }

    /** evict_one: times do not decrease, so either policy takes the oldest node. */
    method EvictOne() returns (r: PathResult)
      requires Stored()
      modifies this, area.mem`pages
      ensures Stored() && nextSeq == old(nextSeq) && clock == old(clock)
      ensures old(nodes) == [] ==> r == NotFound && nodes == []
      ensures old(nodes) != [] ==> r == Ok(0) && nodes == old(nodes)[1..]
    {
      hide ContextArea.Valid, ContextArea.Contents, HoldsPath, Ordered, Encode, Flat;
      var victim := PickVictim();
      if victim.None? {
        return NotFound;
      }
      OldestFirst(nodes, nextSeq, clock, victim.value, policy);
      EvictAt(0);
      assert Without(old(nodes), 0) == old(nodes)[1..];
      r := Ok(0);
    }

    /** sync_header. */
    method SyncHeader()
      requires Stored()
      modifies area.mem`pages
      ensures Valid()
    {
      hide ContextArea.Valid, ContextArea.Contents, Ordered, Encode, Flat, ToLe, LeAt, MetaOf, PutLe;
      CountsFit(nodes);
      ghost var c0 := area.Contents();
      area.Write(36, ToLe(used, 4));
      area.Write(40, ToLe(|meta|, 4));
      CountsWritten(c0, used, |meta|, nodes);
    }

    /** write_node_at: header, request and response, one behind the other. */
    method WriteNodeAt(offset: nat, n: PathNode)
      requires area.Valid() && offset + |Encode(n)| <= PATH_BUFFER_LEN
      modifies area.mem`pages
      ensures area.Valid() && area.Contents() == Splice(old(area.Contents()), PATH_BUFFER_OFF + offset, Encode(n))
    {
      hide ContextArea.Valid, ContextArea.Contents, Header;
      ghost var c0, at := area.Contents(), PATH_BUFFER_OFF + offset;
      area.Write(PATH_BUFFER_OFF + offset, Header(n));
      area.Write(PATH_BUFFER_OFF + offset + NODE_HEADER_SIZE, n.req);
      area.Write(PATH_BUFFER_OFF + offset + NODE_HEADER_SIZE + |n.req|, n.resp);
      SpliceTwice(c0, at, Header(n), n.req);
      SpliceTwice(c0, at, Header(n) + n.req, n.resp);
    }

    /**
     * push_node: appends a node, after dropping as many of the oldest as its size and the node limit demand,
     * and no more. A node that is too large for the buffer or the byte quota is refused; with a node limit
     * of zero nothing can be pushed.
     */
    method PushNode(req: seq<byte>, resp: seq<byte>, now: u64) returns (r: PathResult)
      requires Valid() && |req| <= 4096 && |resp| <= 4096 && clock <= now && nextSeq < 0xFFFF_FFFF_FFFF_FFFF
      modifies this, area.mem`pages
      ensures Valid() && clock <= now
      ensures PushOutcome(old(nodes), old(nextSeq), maxBytes, maxNodes, req, resp, now, r, nodes, nextSeq)
    {
      hide ContextArea.Valid, ContextArea.Contents, HoldsPath, HoldsCounts, Ordered, Encode, Flat, MetaOf;
      var size := NODE_HEADER_SIZE + |req| + |resp|;
      if size > PATH_BUFFER_LEN || size > maxBytes {
        return QuotaExceeded;
      }
      ghost var nodes0 := nodes;
      while used + size > maxBytes || |meta| >= maxNodes
        invariant Stored() && nextSeq == old(nextSeq) && clock == old(clock)
        invariant Trimmed(nodes, size, maxBytes, maxNodes) == Trimmed(nodes0, size, maxBytes, maxNodes)
        invariant maxNodes == 0 ==> nodes == nodes0 && Valid()
        decreases |nodes|
      {
        if meta == [] {
          NoNodes();
          return InternalError;
        }
        var evicted := EvictOne();
      }
      ghost var n := PathNode(nextSeq, now, req, resp);
      EncodedSize(n);
      ghost var c0 := area.Contents();
      WriteNodeAt(used, PathNode(nextSeq, now, req, resp));
      Appended(c0, nodes, n, nextSeq, clock, now);
      meta := meta + [PathNodeMeta(used, size, now, nextSeq)];
      used := used + size;
      nextSeq := nextSeq + 1;
      nodes, clock := nodes + [n], now;
      SyncHeader();
      r := Ok(|meta| - 1);
    }

    /** rollback: keeps the first nodeCount nodes. */
    method Rollback(nodeCount: nat) returns (r: PathResult)
      requires Valid()
      modifies this, area.mem`pages
      ensures Valid() && nextSeq == old(nextSeq) && clock == old(clock)
      ensures nodeCount > |old(nodes)| ==> r == NotFound && nodes == old(nodes)
      ensures nodeCount <= |old(nodes)| ==> r == Ok(nodeCount) && nodes == old(nodes)[..nodeCount]
    {
      hide ContextArea.Valid, ContextArea.Contents, Ordered, Encode, Flat, MetaOf, HoldsCounts, HoldsPath;
      if nodeCount > |meta| {
        return NotFound;
      }
      KeptPrefix(area.Contents(), nodes, nextSeq, clock, nodeCount);
      if nodeCount == 0 {
        meta, used := [], 0;
      } else {
        var last := meta[nodeCount - 1];
        used := last.offset + last.len;
        meta := meta[..nodeCount];
      }
      nodes := nodes[..nodeCount];
      SyncHeader();
      r := Ok(nodeCount);
    }

    /** clear. */
    method Clear()
      requires Valid()
      modifies this, area.mem`pages
      ensures Valid() && nextSeq == old(nextSeq) && clock == old(clock) && nodes == []
    {
      hide ContextArea.Valid, ContextArea.Contents, Ordered, Encode, Flat, MetaOf, HoldsCounts, HoldsPath;
      KeptPrefix(area.Contents(), nodes, nextSeq, clock, 0);
      meta, used := [], 0;
      nodes := nodes[..0];
      SyncHeader();
    }
  }

  /** What a push comes to: refused, impossible, or done behind the longest suffix that leaves room. */
  ghost predicate PushOutcome(nodes0: seq<PathNode>, next0: nat, maxBytes: nat, maxNodes: nat, req: seq<byte>, resp: seq<byte>,
                              now: u64, r: PathResult, nodes: seq<PathNode>, next: nat) {
    var size := NODE_HEADER_SIZE + |req| + |resp|;
    if size > PATH_BUFFER_LEN || size > maxBytes then r == QuotaExceeded && nodes == nodes0 && next == next0
    else if maxNodes == 0 then r == InternalError && nodes == nodes0 && next == next0
    else
      && next0 < 0x1_0000_0000_0000_0000 && next == next0 + 1
      && nodes == Trimmed(nodes0, size, maxBytes, maxNodes) + [PathNode(next0, now, req, resp)]
      && r == Ok(|nodes| - 1)
  }

  lemma NoNodes()
    ensures Flat([]) == []
  {
  }

  /** With times that do not decrease, the first of the oldest is the first. */
  lemma OldestFirst(nodes: seq<PathNode>, next: nat, clock: nat, v: nat, policy: EvictPolicy)
    requires Ordered(nodes, next, clock) && v < |nodes|
    requires policy.Fifo? ==> v == 0
    requires policy.Lru? ==> forall j :: 0 <= j < v ==> MetaOf(nodes)[v].writeTime < MetaOf(nodes)[j].writeTime
    ensures v == 0
  {
    MetaAt(nodes, v);
    MetaAt(nodes, 0);
    assert nodes[0].time <= nodes[v].time;
  }

  /** The counts fit their four bytes: every node takes 24 bytes at least. */
  lemma {:induction false} CountsFit(nodes: seq<PathNode>)
    ensures NODE_HEADER_SIZE * |nodes| <= |Flat(nodes)|
  {
    if nodes != [] {
      CountsFit(nodes[..|nodes| - 1]);
    }
  }

  lemma CountsWritten(c0: seq<byte>, used: nat, count: nat, nodes: seq<PathNode>)
    requires HoldsPath(c0, nodes) && used < 0x1_0000_0000 && count < 0x1_0000_0000
    ensures var c2 := Splice(Splice(c0, 36, ToLe(used, 4)), 40, ToLe(count, 4));
            HoldsPath(c2, nodes) && HoldsCounts(c2, used, count)
  {
    hide LeAt, ToLe, Flat;
    Pow256Values();
    var c1 := Splice(c0, 36, ToLe(used, 4));
    var c2 := Splice(c1, 40, ToLe(count, 4));
    assert c2[PATH_BUFFER_OFF..PATH_BUFFER_OFF + |Flat(nodes)|] == c0[PATH_BUFFER_OFF..PATH_BUFFER_OFF + |Flat(nodes)|];
    LeAtPutLe(c0, 36, 4, used);
    LeAtPutLe(c1, 40, 4, count);
    LeAtPutLeElsewhere(c1, 40, 4, count, 36, 4);
  }

  lemma SpliceTwice(s: seq<byte>, off: nat, a: seq<byte>, b: seq<byte>)
    requires off + |a| + |b| <= |s|
    ensures Splice(Splice(s, off, a), off + |a|, b) == Splice(s, off, a + b)
  {
  }

  lemma EncodedSize(n: PathNode)
    ensures |Encode(n)| == NODE_HEADER_SIZE + |n.req| + |n.resp|
  {
  }

  /** A node written behind the last one extends the path. */
  lemma Appended(c0: seq<byte>, nodes: seq<PathNode>, n: PathNode, next: nat, clock: nat, now: u64)
    requires HoldsPath(c0, nodes) && Ordered(nodes, next, clock) && clock <= now
    requires n.number == next && n.time == now && n.Fits() && |Flat(nodes)| + |Encode(n)| <= PATH_BUFFER_LEN
    ensures HoldsPath(Splice(c0, PATH_BUFFER_OFF + |Flat(nodes)|, Encode(n)), nodes + [n])
    ensures Ordered(nodes + [n], next + 1, now)
    ensures |Flat(nodes + [n])| == |Flat(nodes)| + |Encode(n)|
    ensures MetaOf(nodes + [n]) == MetaOf(nodes) + [PathNodeMeta(|Flat(nodes)|, |Encode(n)|, now, next)]
  {
    FlatConcat(nodes, [n]);
    FlatOne(n);
    hide Encode, Flat;
    MetaAppended(nodes, n);
    var c1 := Splice(c0, PATH_BUFFER_OFF + |Flat(nodes)|, Encode(n));
    assert c1[PATH_BUFFER_OFF..PATH_BUFFER_OFF + |Flat(nodes)|] == c0[PATH_BUFFER_OFF..PATH_BUFFER_OFF + |Flat(nodes)|];
    assert c1[PATH_BUFFER_OFF..PATH_BUFFER_OFF + (|Flat(nodes)| + |Encode(n)|)] == Flat(nodes) + Encode(n);
  }

  lemma MetaAppended(nodes: seq<PathNode>, n: PathNode)
    ensures MetaOf(nodes + [n]) == MetaOf(nodes) + [PathNodeMeta(|Flat(nodes)|, |Encode(n)|, n.time, n.number)]
  {
    hide Encode, Flat;
    var more := nodes + [n];
    assert more[..|nodes|] == nodes;
    forall i | 0 <= i < |nodes|
      ensures MetaOf(more)[i] == MetaOf(nodes)[i]
    {
      assert more[..i] == nodes[..i];
    }
  }

  /** A prefix of the path is still there, and its metadata are a prefix of the metadata. */
  lemma KeptPrefix(c: seq<byte>, nodes: seq<PathNode>, next: nat, clock: nat, k: nat)
    requires HoldsPath(c, nodes) && Ordered(nodes, next, clock) && k <= |nodes|
    ensures HoldsPath(c, nodes[..k]) && Ordered(nodes[..k], next, clock) && |Flat(nodes[..k])| <= |Flat(nodes)|
    ensures MetaOf(nodes[..k]) == MetaOf(nodes)[..k]
    ensures if k == 0 then Flat(nodes[..k]) == []
            else |Flat(nodes[..k])| == MetaOf(nodes)[k - 1].offset + MetaOf(nodes)[k - 1].len
  {
    hide Encode, Flat, MetaOf;
    FlatPrefix(nodes, k, |nodes|);
    if k > 0 {
      FlatAround(nodes, k - 1);
      MetaAt(nodes, k - 1);
    } else {
      assert nodes[..k] == [];
      NoNodes();
    }
    forall i | 0 <= i < k
      ensures MetaOf(nodes[..k])[i] == MetaOf(nodes)[i]
    {
      assert nodes[..k][..i] == nodes[..i];
      MetaAt(nodes, i);
      MetaAt(nodes[..k], i);
    }
    var f, len := Flat(nodes), |Flat(nodes[..k])|;
    assert c[PATH_BUFFER_OFF..PATH_BUFFER_OFF + len] == c[PATH_BUFFER_OFF..PATH_BUFFER_OFF + |f|][..len];
  }

  /** The bytes c with the n bytes at `at` moved down by shift, all at once. */
  ghost function Moved(c: seq<byte>, at: nat, shift: nat, n: nat): (r: seq<byte>)
    requires shift <= at && at + n <= |c|
    ensures |r| == |c|
  {
    Splice(c, at - shift, c[at..at + n])
  }

  lemma ShiftNothing(c0: seq<byte>, at: nat, len: nat, shift: nat)
    requires shift <= at && at + len <= |c0|
    ensures Moved(c0, at, shift, 0) == c0
    ensures Moved(c0, at, shift, len) == Splice(c0, at - shift, c0[at..at + len])
    ensures len == 0 || shift == 0 ==> Moved(c0, at, shift, len) == c0
  {
  }

  /** One chunk further: what is read has not been overwritten yet, and what is written continues the move. */
  lemma ShiftChunk(c0: seq<byte>, at: nat, shift: nat, copied: nat, n: nat)
    requires shift <= at && at + copied + n <= |c0|
    ensures var c1 := Moved(c0, at, shift, copied);
            Splice(c1, at - shift + copied, c1[at + copied..at + copied + n]) == Moved(c0, at, shift, copied + n)
  {
  }

  lemma VictimWithin(nodes: seq<PathNode>, v: nat)
    requires v < |nodes|
    ensures MetaOf(nodes)[v].offset + MetaOf(nodes)[v].len <= |Flat(nodes)| && MetaOf(nodes)[v].len == |Encode(nodes[v])|
  {
    FlatWithout(nodes, v);
  }

  /** Moving what lies behind a node over it leaves the other nodes' bytes in a row. */
  lemma GapClosed(c0: seq<byte>, c1: seq<byte>, nodes: seq<PathNode>, v: nat)
    requires HoldsPath(c0, nodes) && v < |nodes|
    requires var m := MetaOf(nodes)[v];
             && m.offset + m.len <= |Flat(nodes)|
             && c1 == Splice(c0, PATH_BUFFER_OFF + m.offset, c0[PATH_BUFFER_OFF + m.offset + m.len..PATH_BUFFER_OFF + |Flat(nodes)|])
    ensures HoldsPath(c1, Without(nodes, v))
    ensures |Flat(Without(nodes, v))| == |Flat(nodes)| - MetaOf(nodes)[v].len
  {
    hide Encode, Flat, MetaOf;
    FlatWithout(nodes, v);
    MetaAt(nodes, v);
    var m, f := MetaOf(nodes)[v], Flat(nodes);
    MovedBytes(c0, c1, f, m.offset, m.len);
  }

  lemma MovedBytes(c0: seq<byte>, c1: seq<byte>, f: seq<byte>, at: nat, len: nat)
    requires |c0| == AREA_SIZE && |f| <= PATH_BUFFER_LEN && c0[PATH_BUFFER_OFF..PATH_BUFFER_OFF + |f|] == f && at + len <= |f|
    requires c1 == Splice(c0, PATH_BUFFER_OFF + at, c0[PATH_BUFFER_OFF + at + len..PATH_BUFFER_OFF + |f|])
    ensures c1[PATH_BUFFER_OFF..PATH_BUFFER_OFF + (|f| - len)] == f[..at] + f[at + len..]
  {
    var rest := f[..at] + f[at + len..];
    forall k | 0 <= k < |f|
      ensures f[k] == c0[PATH_BUFFER_OFF + k]
    {
      assert c0[PATH_BUFFER_OFF..PATH_BUFFER_OFF + |f|][k] == f[k];
    }
    forall k | 0 <= k < |rest|
      ensures c1[PATH_BUFFER_OFF + k] == rest[k]
    {
    }
  }

  /** Every node of the path reads back, as the user's library does it, whatever was evicted or rolled back before. */
  lemma SurvivorsReadBack(c: seq<byte>, nodes: seq<PathNode>, next: nat, clock: nat, i: nat)
    requires HoldsPath(c, nodes) && Ordered(nodes, next, clock) && i < |nodes|
    ensures var (buf, m) := (c[PATH_BUFFER_OFF..PATH_BUFFER_END], MetaOf(nodes)[i]);
            m.offset + m.len <= |buf| && ReadNode(buf, m) == Some((nodes[i].req, nodes[i].resp))
  {
    hide Flat, MetaOf, Encode, ReadNode;
    var buf, f := c[PATH_BUFFER_OFF..PATH_BUFFER_END], Flat(nodes);
    assert buf[..|f|] == c[PATH_BUFFER_OFF..PATH_BUFFER_OFF + |f|];
    NodeReadsBack(buf, nodes, i);
  }

  // ---------- whole runs

  /** The calls on a path, and an eviction with any victim, whichever a policy may pick. */
  datatype PathOp = Push(req: seq<byte>, resp: seq<byte>, elapsed: nat) | RollbackTo(nodeCount: nat) | ClearAll | Evict(victim: nat)

  /** The path as a list of nodes, the next number, and the time. */
  datatype PathState = PathState(nodes: seq<PathNode>, next: nat, now: nat)

  /** A push that callers can make: of at most 4096 bytes each, before numbers or the clock run out. */
  predicate CanDo(s: PathState, op: PathOp) {
    op.Push? ==>
      && |op.req| <= 4096 && |op.resp| <= 4096
      && s.next < 0xFFFF_FFFF_FFFF_FFFF && s.now + op.elapsed < 0x1_0000_0000_0000_0000
  }

  function NextPath(s: PathState, op: PathOp, maxBytes: nat, maxNodes: nat): PathState {
    match op
    case Push(req, resp, elapsed) =>
      var size, now := NODE_HEADER_SIZE + |req| + |resp|, s.now + elapsed;
      if size > PATH_BUFFER_LEN || size > maxBytes || maxNodes == 0 || !CanDo(s, op) then s.(now := now)
      else PathState(Trimmed(s.nodes, size, maxBytes, maxNodes) + [PathNode(s.next, now, req, resp)], s.next + 1, now)
    case RollbackTo(k) => if k <= |s.nodes| then s.(nodes := s.nodes[..k]) else s
    case ClearAll => s.(nodes := [])
    case Evict(v) => if v < |s.nodes| then s.(nodes := Without(s.nodes, v)) else s
  }

  function NextPaths(s: PathState, ops: seq<PathOp>, maxBytes: nat, maxNodes: nat): PathState {
    if ops == [] then s else NextPath(NextPaths(s, ops[..|ops| - 1], maxBytes, maxNodes), ops[|ops| - 1], maxBytes, maxNodes)
  }

  /** Any run leaves the nodes that the list operations leave, stored, mirrored and readable. */
  method RunPath(path: ContextPath, ops: seq<PathOp>, start: u64)
    requires path.Valid() && path.clock <= start
    requires forall k :: 0 <= k < |ops| ==>
               CanDo(NextPaths(PathState(path.nodes, path.nextSeq, start), ops[..k], path.maxBytes, path.maxNodes), ops[k])
    modifies path, path.area.mem`pages
    ensures path.Valid()
    ensures var s := NextPaths(PathState(old(path.nodes), old(path.nextSeq), start), ops, path.maxBytes, path.maxNodes);
            path.nodes == s.nodes && path.nextSeq == s.next
    ensures forall i :: 0 <= i < |path.nodes| ==>
              var (buf, m) := (path.area.Contents()[PATH_BUFFER_OFF..PATH_BUFFER_END], MetaOf(path.nodes)[i]);
              m.offset + m.len <= |buf| && ReadNode(buf, m) == Some((path.nodes[i].req, path.nodes[i].resp))
  {
    hide ContextArea.Valid, ContextArea.Contents, HoldsCounts, Ordered, HoldsPath, MetaOf, Trimmed, ReadNode, NextPaths, CanDo;
    ghost var s0 := PathState(path.nodes, path.nextSeq, start);
    NoOps(s0, path.maxBytes, path.maxNodes);
    var now := start;
    for i := 0 to |ops|
      invariant path.Valid() && path.clock <= now
      invariant PathState(path.nodes, path.nextSeq, now) == NextPaths(s0, ops[..i], path.maxBytes, path.maxNodes)
    {
      OneMoreOp(s0, ops, i, path.maxBytes, path.maxNodes);
      now := DoOp(path, ops[i], now);
    }
    assert ops[..|ops|] == ops;
    forall i | 0 <= i < |path.nodes|
      ensures var (buf, m) := (path.area.Contents()[PATH_BUFFER_OFF..PATH_BUFFER_END], MetaOf(path.nodes)[i]);
              m.offset + m.len <= |buf| && ReadNode(buf, m) == Some((path.nodes[i].req, path.nodes[i].resp))
    {
      PathReadsBack(path, i);
    }
  }

  lemma PathReadsBack(path: ContextPath, i: nat)
    requires path.Valid() && i < |path.nodes|
    ensures var (buf, m) := (path.area.Contents()[PATH_BUFFER_OFF..PATH_BUFFER_END], MetaOf(path.nodes)[i]);
            m.offset + m.len <= |buf| && ReadNode(buf, m) == Some((path.nodes[i].req, path.nodes[i].resp))
  {
    hide HoldsPath, Ordered, HoldsCounts, MetaOf, ReadNode;
    SurvivorsReadBack(path.area.Contents(), path.nodes, path.nextSeq, path.clock, i);
  }

  method DoOp(path: ContextPath, op: PathOp, now: u64) returns (later: u64)
    requires path.Valid() && path.clock <= now && CanDo(PathState(path.nodes, path.nextSeq, now), op)
    modifies path, path.area.mem`pages
    ensures path.Valid() && path.clock <= later
    ensures PathState(path.nodes, path.nextSeq, later)
         == NextPath(PathState(old(path.nodes), old(path.nextSeq), now), op, path.maxBytes, path.maxNodes)
  {
    hide ContextPath.Valid, Trimmed;
    match op {
      case Push(req, resp, elapsed) =>
        later := now + elapsed;
        var r := path.PushNode(req, resp, later);
      case RollbackTo(k) =>
        later := now;
        var r := path.Rollback(k);
      case ClearAll =>
        later := now;
        path.Clear();
      case Evict(v) =>
        later := now;
        NodesAndMeta(path);
        if v < |path.meta| {
          path.EvictAt(v);
          path.SyncHeader();
        }
    }
  }

  lemma NodesAndMeta(path: ContextPath)
    requires path.Valid()
    ensures path.Stored() && |path.meta| == |path.nodes|
  {
  }

  lemma NoOps(s: PathState, maxBytes: nat, maxNodes: nat)
    ensures NextPaths(s, [], maxBytes, maxNodes) == s
  {
  }

  lemma OneMoreOp(s: PathState, ops: seq<PathOp>, i: nat, maxBytes: nat, maxNodes: nat)
    requires i < |ops|
    ensures NextPaths(s, ops[..i + 1], maxBytes, maxNodes)
         == NextPath(NextPaths(s, ops[..i], maxBytes, maxNodes), ops[i], maxBytes, maxNodes)
  {
    assert ops[..i + 1][..i] == ops[..i];
  }
}
