/** What each call on a context path means, in numbers, and the format of the area that user programs read. */
module ContextPathLaws {
  import opened Bytes
  import opened PathNodes
  import opened ContextAreas
  import opened ContextPaths

  /** The bytes that nodes take: 24 and the texts each. */
  function SizeOf(nodes: seq<PathNode>): nat {
    if nodes == [] then 0
    else
      var last := nodes[|nodes| - 1];
      SizeOf(nodes[..|nodes| - 1]) + 24 + |last.req| + |last.resp|
  }

  lemma {:induction false} FlatSize(nodes: seq<PathNode>)
    ensures |Flat(nodes)| == SizeOf(nodes)
  {
    if nodes != [] {
      FlatSize(nodes[..|nodes| - 1]);
    }
  }

  lemma SizeOfSnoc(nodes: seq<PathNode>, n: PathNode)
    ensures SizeOf(nodes + [n]) == SizeOf(nodes) + 24 + |n.req| + |n.resp|
  {
    assert (nodes + [n])[..|nodes|] == nodes;
  }

  /** The nodes of s with the oldest `gone` dropped leave room for one more of that size. */
  predicate Fits(s: seq<PathNode>, gone: nat, size: nat, maxBytes: nat, maxNodes: nat)
    requires gone <= |s|
  {
    SizeOf(s[gone..]) + size <= maxBytes && |s| - gone + 1 <= maxNodes
  }

  /** A push that is not refused drops as few of the oldest nodes as leave room, and puts the new one last. */
  lemma PushLaw(s: PathState, req: seq<byte>, resp: seq<byte>, elapsed: nat, maxBytes: nat, maxNodes: nat, size: nat) returns (gone: nat)
    requires CanDo(s, Push(req, resp, elapsed)) && size == 24 + |req| + |resp|
    requires size <= 0x8000 && size <= maxBytes && 0 < maxNodes
    ensures var t := NextPath(s, Push(req, resp, elapsed), maxBytes, maxNodes);
            && gone <= |s.nodes| && t == PathState(s.nodes[gone..] + [PathNode(s.next, s.now + elapsed, req, resp)], s.next + 1, s.now + elapsed)
            && Fits(s.nodes, gone, size, maxBytes, maxNodes)
            && (forall k: nat :: k < gone ==> !Fits(s.nodes, k, size, maxBytes, maxNodes))
            && SizeOf(t.nodes) <= maxBytes && |t.nodes| <= maxNodes
  {
    hide Trimmed;
    var rest := Trimmed(s.nodes, size, maxBytes, maxNodes);
    TrimmedIsLongest(s.nodes, size, maxBytes, maxNodes, 0);
    gone := |s.nodes| - |rest|;
    FlatSize(rest);
    forall k: nat | k < gone
      ensures !Fits(s.nodes, k, size, maxBytes, maxNodes)
    {
      TrimmedIsLongest(s.nodes, size, maxBytes, maxNodes, k);
      FlatSize(s.nodes[k..]);
    }
    SizeOfSnoc(rest, PathNode(s.next, s.now + elapsed, req, resp));
  }

  /** A push that is too large, or for which no node may be kept, changes nothing but the time. */
  lemma RefusedLaw(s: PathState, req: seq<byte>, resp: seq<byte>, elapsed: nat, maxBytes: nat, maxNodes: nat)
    requires 24 + |req| + |resp| > 0x8000 || 24 + |req| + |resp| > maxBytes || maxNodes == 0
    ensures NextPath(s, Push(req, resp, elapsed), maxBytes, maxNodes) == PathState(s.nodes, s.next, s.now + elapsed)
  {
  }

  /** What a push answers. */
  lemma AnswerLaw(nodes0: seq<PathNode>, next0: nat, maxBytes: nat, maxNodes: nat, req: seq<byte>, resp: seq<byte>, now: u64,
                  r: PathResult, nodes: seq<PathNode>, next: nat)
    requires PushOutcome(nodes0, next0, maxBytes, maxNodes, req, resp, now, r, nodes, next)
    ensures r == QuotaExceeded <==> 24 + |req| + |resp| > 0x8000 || 24 + |req| + |resp| > maxBytes
    ensures r == InternalError <==> 24 + |req| + |resp| <= 0x8000 && 24 + |req| + |resp| <= maxBytes && maxNodes == 0
    ensures r.Ok? ==> nodes != [] && r.index == |nodes| - 1 && nodes[r.index] == PathNode(next0, now, req, resp) && next == next0 + 1
    ensures r == QuotaExceeded || r == InternalError ==> nodes == nodes0 && next == next0
    ensures r != NotFound
  {
    hide Trimmed;
  }

  /** The other calls: the first nodes stay, none does, or all but one. */
  lemma OtherCallsLaw(s: PathState, op: PathOp, maxBytes: nat, maxNodes: nat)
    requires !op.Push?
    ensures var t := NextPath(s, op, maxBytes, maxNodes);
            && t.next == s.next && t.now == s.now
            && match op
               case RollbackTo(k) => t.nodes == (if k <= |s.nodes| then s.nodes[..k] else s.nodes)
               case ClearAll => t.nodes == []
               case Evict(v) => t.nodes == (if v < |s.nodes| then s.nodes[..v] + s.nodes[v + 1..] else s.nodes)
               case _ => true
  {
  }

  /** The header of the area: magic number, version, and where its parts are and how large. */
  lemma HeaderFormat(c: seq<byte>)
    requires HoldsHeader(c)
    ensures |c| == 0x1_0000 && LeAt(c, 0, 4) == 0xA9E4_5EC0 && LeAt(c, 4, 4) == 1
    ensures LeAt(c, 16, 4) == 0x100 && LeAt(c, 20, 4) == 0x4000 && LeAt(c, 24, 4) == 0
    ensures LeAt(c, 28, 4) == 0x4100 && LeAt(c, 32, 4) == 0x8000 && LeAt(c, 44, 4) == 0xC100 && LeAt(c, 48, 4) == 0x2000
  {
  }

  /** The header of a path's area tells how many bytes its nodes take, and how many there are. */
  lemma HeaderCounts(path: ContextPath)
    requires path.Valid()
    ensures path.area.Valid()
    ensures LeAt(path.area.Contents(), 36, 4) == SizeOf(path.nodes) && LeAt(path.area.Contents(), 40, 4) == |path.nodes|
  {
    hide LeAt, ContextArea.Valid, ContextArea.Contents, Flat, MetaOf, Ordered;
    FlatSize(path.nodes);
  }

  /** A node: its number and time in eight bytes each, the lengths of its texts in four each, and the texts. */
  lemma NodeFormat(n: PathNode)
    requires n.Fits()
    ensures var e := Encode(n);
            && |e| == 24 + |n.req| + |n.resp|
            && LeAt(e, 0, 8) == n.number && LeAt(e, 8, 8) == n.time && LeAt(e, 16, 4) == |n.req| && LeAt(e, 20, 4) == |n.resp|
            && e[24..24 + |n.req|] == n.req && e[24 + |n.req|..] == n.resp
  {
    hide LeAt;
    HeaderFields(n);
    EncodedParts(n);
  }
}
