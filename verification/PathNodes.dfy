/** The nodes of a context path as bytes: one after another, each found by its offset. */
module PathNodes {
  import opened Bytes
  import opened Collections

  const NODE_HEADER_SIZE: nat := 24

  /** What the path records: a request and its response, numbered and timed. */
  datatype PathNode = PathNode(number: u64, time: u64, req: seq<byte>, resp: seq<byte>) {
    predicate Fits() {
      |req| + |resp| < 0x1_0000
    }
  }

  /** What the kernel keeps of a node. */
  datatype PathNodeMeta = PathNodeMeta(offset: nat, len: nat, writeTime: u64, number: u64)

  function Header(n: PathNode): (s: seq<byte>)
    ensures |s| == NODE_HEADER_SIZE
  {
    ToLe(n.number, 8) + ToLe(n.time, 8) + ToLe(|n.req|, 4) + ToLe(|n.resp|, 4)
  }

  function Encode(n: PathNode): (s: seq<byte>)
    ensures |s| == NODE_HEADER_SIZE + |n.req| + |n.resp|
  {
    Header(n) + n.req + n.resp
  }

  /** All nodes, without gaps. */
  function Flat(nodes: seq<PathNode>): seq<byte> {
    if nodes == [] then [] else Flat(nodes[..|nodes| - 1]) + Encode(nodes[|nodes| - 1])
  }

  /** Where each node lies. */
  function MetaOf(nodes: seq<PathNode>): (meta: seq<PathNodeMeta>)
    ensures |meta| == |nodes|
  {
    seq(|nodes|, i requires 0 <= i < |nodes| =>
      PathNodeMeta(|Flat(nodes[..i])|, |Encode(nodes[i])|, nodes[i].time, nodes[i].number))
  }

  lemma MetaAt(nodes: seq<PathNode>, i: nat)
    requires i < |nodes|
    ensures MetaOf(nodes)[i] == PathNodeMeta(|Flat(nodes[..i])|, |Encode(nodes[i])|, nodes[i].time, nodes[i].number)
  {
  }

  lemma {:induction false} FlatConcat(a: seq<PathNode>, b: seq<PathNode>)
    ensures Flat(a + b) == Flat(a) + Flat(b)
    decreases |b|
  {
    if b == [] {
      assert a + b == a;
    } else {
      hide Encode, Flat;
      var n := |b| - 1;
      FlatConcat(a, b[..n]);
      FlatSnoc(a + b[..n], b[n]);
      FlatSnoc(b[..n], b[n]);
      ConcatLast(a, b);
    }
  }

  lemma FlatSnoc(a: seq<PathNode>, x: PathNode)
    ensures Flat(a + [x]) == Flat(a) + Encode(x)
  {
    assert (a + [x])[..|a|] == a;
  }

  lemma FlatOne(n: PathNode)
    ensures Flat([n]) == Encode(n)
  {
    assert [n][..0] == [];
    assert Flat([]) == [];
  }

  /** The bytes before node i, its own, and those behind it. */
  lemma FlatAround(nodes: seq<PathNode>, i: nat)
    requires i < |nodes|
    ensures Flat(nodes) == Flat(nodes[..i]) + Encode(nodes[i]) + Flat(nodes[i + 1..])
    ensures Flat(nodes[..i + 1]) == Flat(nodes[..i]) + Encode(nodes[i])
  {
    hide Encode, Flat;
    var a, x, b := nodes[..i], [nodes[i]], nodes[i + 1..];
    SplitAt(nodes, i);
    FlatConcat(a + x, b);
    FlatConcat(a, x);
    FlatOne(nodes[i]);
  }

  lemma SplitAt(nodes: seq<PathNode>, i: nat)
    requires i < |nodes|
    ensures nodes == nodes[..i] + [nodes[i]] + nodes[i + 1..]
    ensures nodes[..i + 1] == nodes[..i] + [nodes[i]]
  {
  }

  /** Prefixes of the path are prefixes of its bytes, longer ones longer. */
  lemma FlatPrefix(nodes: seq<PathNode>, i: nat, j: nat)
    requires i <= j <= |nodes|
    ensures |Flat(nodes[..i])| <= |Flat(nodes[..j])| <= |Flat(nodes)|
    ensures Flat(nodes[..i]) == Flat(nodes)[..|Flat(nodes[..i])|]
    ensures i < j ==> |Flat(nodes[..i])| + |Encode(nodes[i])| <= |Flat(nodes[..j])|
  {
    assert nodes == nodes[..i] + nodes[i..];
    assert nodes[..j] == nodes[..i] + nodes[i..j];
    assert nodes == nodes[..j] + nodes[j..];
    FlatConcat(nodes[..i], nodes[i..]);
    FlatConcat(nodes[..i], nodes[i..j]);
    FlatConcat(nodes[..j], nodes[j..]);
    if i < j {
      FlatAround(nodes[..j], i);
      assert nodes[..j][..i] == nodes[..i] && nodes[..j][i] == nodes[i];
    }
  }

  /** Taking a node out closes the gap it leaves. */
  lemma FlatWithout(nodes: seq<PathNode>, v: nat)
    requires v < |nodes|
    ensures var (at, len) := (|Flat(nodes[..v])|, |Encode(nodes[v])|);
            && at + len <= |Flat(nodes)|
            && Flat(Without(nodes, v)) == Flat(nodes)[..at] + Flat(nodes)[at + len..]
  {
    FlatAround(nodes, v);
    FlatConcat(nodes[..v], nodes[v + 1..]);
    assert Without(nodes, v) == nodes[..v] + nodes[v + 1..];
  }

  /** Where the nodes lie after node v has been taken out. */
  lemma MetaWithout(nodes: seq<PathNode>, v: nat, i: nat)
    requires v < |nodes| && i < |nodes| - 1
    ensures var m := MetaOf(nodes)[if i < v then i else i + 1];
            var from := MetaOf(nodes)[v].offset + MetaOf(nodes)[v].len;
            && (m.offset >= from <==> i >= v)
            && MetaOf(Without(nodes, v))[i] == if i < v then m else m.(offset := m.offset - MetaOf(nodes)[v].len)
  {
    var rest := Without(nodes, v);
    if i < v {
      assert rest[..i] == nodes[..i];
      FlatPrefix(nodes, i, v);
    } else {
      assert nodes[..i + 1] == nodes[..v] + [nodes[v]] + nodes[v + 1..i + 1];
      assert rest[..i] == nodes[..v] + nodes[v + 1..i + 1];
      FlatConcat(nodes[..v] + [nodes[v]], nodes[v + 1..i + 1]);
      FlatConcat(nodes[..v], [nodes[v]]);
      FlatConcat(nodes[..v], nodes[v + 1..i + 1]);
      FlatOne(nodes[v]);
    }
  }

  // ---------- reading a node

  /** read_path_node_zero_copy: request and response of the node at an offset of the path buffer. */
  function ReadNode(buf: seq<byte>, m: PathNodeMeta): Option<(seq<byte>, seq<byte>)>
    requires m.offset + m.len <= |buf|
  {
    if m.len < NODE_HEADER_SIZE then None
    else
      var reqLen := LeAt(buf, m.offset + 16, 4);
      var respLen := LeAt(buf, m.offset + 20, 4);
      var start := m.offset + NODE_HEADER_SIZE;
      if start + reqLen + respLen > |buf| then None
      else Some((buf[start..start + reqLen], buf[start + reqLen..start + reqLen + respLen]))
  }

  lemma HeaderFields(n: PathNode)
    requires n.Fits()
    ensures LeAt(Encode(n), 0, 8) == n.number && LeAt(Encode(n), 8, 8) == n.time
    ensures LeAt(Encode(n), 16, 4) == |n.req| && LeAt(Encode(n), 20, 4) == |n.resp|
  {
    var e := Encode(n);
    Pow256Values();
    assert e[0..8] == ToLe(n.number, 8) && e[8..16] == ToLe(n.time, 8);
    assert e[16..20] == ToLe(|n.req|, 4) && e[20..24] == ToLe(|n.resp|, 4);
    FromLeToLe(n.number, 8);
    FromLeToLe(n.time, 8);
    FromLeToLe(|n.req|, 4);
    FromLeToLe(|n.resp|, 4);
  }

  /** From any buffer that starts with the path's bytes, each node's request and response are read back. */
  lemma NodeReadsBack(buf: seq<byte>, nodes: seq<PathNode>, i: nat)
    requires |Flat(nodes)| <= |buf| && buf[..|Flat(nodes)|] == Flat(nodes) && i < |nodes| && nodes[i].Fits()
    ensures var m := MetaOf(nodes)[i];
            m.offset + m.len <= |buf| && ReadNode(buf, m) == Some((nodes[i].req, nodes[i].resp))
  {
    hide Encode, Flat, LeAt;
    var m, e := MetaOf(nodes)[i], Encode(nodes[i]);
    FlatAround(nodes, i);
    assert |Flat(nodes[..i])| + |e| <= |Flat(nodes)|;
    assert buf[m.offset..m.offset + m.len] == e by {
      PartOfPart(buf, 0, Flat(nodes), m.offset, m.offset + m.len);
    }
    EncodedReadsBack(buf, nodes[i], m);
  }

  lemma EncodedReadsBack(buf: seq<byte>, n: PathNode, m: PathNodeMeta)
    requires n.Fits() && m.len == |Encode(n)| && m.offset + m.len <= |buf| && buf[m.offset..m.offset + m.len] == Encode(n)
    ensures ReadNode(buf, m) == Some((n.req, n.resp))
  {
    hide Encode, LeAt;
    var e, reqEnd := Encode(n), 24 + |n.req|;
    HeaderFields(n);
    EncodedParts(n);
    PartOfPart(buf, m.offset, e, 16, 20);
    PartOfPart(buf, m.offset, e, 20, 24);
    PartOfPart(buf, m.offset, e, 24, reqEnd);
    PartOfPart(buf, m.offset, e, reqEnd, reqEnd + |n.resp|);
    SameLe(buf, m.offset + 16, e, 16, 4);
    SameLe(buf, m.offset + 20, e, 20, 4);
  }

  lemma PartOfPart(buf: seq<byte>, at: nat, e: seq<byte>, lo: nat, hi: nat)
    requires at + |e| <= |buf| && buf[at..at + |e|] == e && lo <= hi <= |e|
    ensures buf[at + lo..at + hi] == e[lo..hi]
  {
    forall k | lo <= k < hi
      ensures buf[at + k] == e[k]
    {
      assert buf[at..at + |e|][k] == e[k];
    }
  }

  lemma SameLe(a: seq<byte>, i: nat, b: seq<byte>, j: nat, n: nat)
    requires i + n <= |a| && j + n <= |b| && a[i..i + n] == b[j..j + n]
    ensures LeAt(a, i, n) == LeAt(b, j, n)
  {
  }

  lemma EncodedParts(n: PathNode)
    ensures var (e, reqEnd) := (Encode(n), 24 + |n.req|);
            e[24..reqEnd] == n.req && e[reqEnd..reqEnd + |n.resp|] == n.resp
  {
  }

  // ---------- order, and what eviction leaves

  /** Numbers strictly increase, up to the next one to be given; times do not decrease. */
  ghost predicate Ordered(nodes: seq<PathNode>, next: nat, clock: nat) {
    && (forall i, j :: 0 <= i < j < |nodes| ==> nodes[i].number < nodes[j].number && nodes[i].time <= nodes[j].time)
    && (forall i :: 0 <= i < |nodes| ==> nodes[i].number < next && nodes[i].time <= clock && nodes[i].Fits())
  }

  /** There is room for a node of `size` bytes. */
  predicate HasRoom(nodes: seq<PathNode>, size: nat, maxBytes: nat, maxNodes: nat) {
    |Flat(nodes)| + size <= maxBytes && |nodes| < maxNodes
  }

  /** What is left after the oldest nodes have been dropped until there is room. */
  function Trimmed(nodes: seq<PathNode>, size: nat, maxBytes: nat, maxNodes: nat): (rest: seq<PathNode>) {
    if nodes == [] || HasRoom(nodes, size, maxBytes, maxNodes) then nodes
    else Trimmed(nodes[1..], size, maxBytes, maxNodes)
  }

  /** It is the longest suffix that leaves room, when a node of that size can have room at all. */
  lemma {:induction false} TrimmedIsLongest(nodes: seq<PathNode>, size: nat, maxBytes: nat, maxNodes: nat, k: nat)
    requires size <= maxBytes && 0 < maxNodes && k <= |nodes|
    ensures var rest := Trimmed(nodes, size, maxBytes, maxNodes);
            && HasRoom(rest, size, maxBytes, maxNodes)
            && |rest| <= |nodes| && rest == nodes[|nodes| - |rest|..]
            && (HasRoom(nodes[k..], size, maxBytes, maxNodes) ==> |nodes[k..]| <= |rest|)
    decreases |nodes|
  {
    if nodes != [] && !HasRoom(nodes, size, maxBytes, maxNodes) {
      assert nodes[0..] == nodes;
      TrimmedIsLongest(nodes[1..], size, maxBytes, maxNodes, if k == 0 then 0 else k - 1);
      assert k > 0 ==> nodes[1..][k - 1..] == nodes[k..];
    }
  }

  lemma OrderedPart(nodes: seq<PathNode>, next: nat, clock: nat, v: nat)
    requires Ordered(nodes, next, clock) && v < |nodes|
    ensures Ordered(Without(nodes, v), next, clock)
    ensures forall k :: 0 <= k <= |nodes| ==> Ordered(nodes[..k], next, clock)
  {
  }
}
