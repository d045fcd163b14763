/**
 * The write-back block cache. Everything above it sees `view`, the block device as it would be
 * without a cache, and `held`, the blocks whose handle is out and whose lock is therefore taken.
 */
module BlockCache {
  import opened Bytes
  import opened Collections

  const BLOCK_CACHE_SIZE: nat := 16

  /** A cached block. `inUse` stands for a strong count above one: some caller holds the block and its lock. */
  datatype CachedBlock = CachedBlock(id: nat, data: Block, modified: bool, inUse: bool)

  /** The blocks some caller holds. */
  ghost function InUseIds(queue: seq<CachedBlock>): (ids: set<nat>)
  {
    set i | 0 <= i < |queue| && queue[i].inUse :: queue[i].id
  }

  ghost predicate DistinctIds(queue: seq<CachedBlock>) {
    forall i, j :: 0 <= i < j < |queue| ==> queue[i].id != queue[j].id
  }

  ghost predicate IsCached(queue: seq<CachedBlock>, id: nat) {
    exists i :: 0 <= i < |queue| && queue[i].id == id
  }

  /** The view shows cached blocks as they are cached and the others as they are on the device; unmodified ones are both. */
  ghost predicate Mirrors(queue: seq<CachedBlock>, disk: seq<Block>, view: seq<Block>) {
    && |view| == |disk|
    && (forall i :: 0 <= i < |queue| ==> queue[i].id < |disk| && view[queue[i].id] == queue[i].data)
    && (forall i :: 0 <= i < |queue| && !queue[i].modified ==> disk[queue[i].id] == queue[i].data)
    && (forall id {:trigger IsCached(queue, id)} :: 0 <= id < |disk| && !IsCached(queue, id) ==> view[id] == disk[id])
  }

  /** Entry idx replaced by e with the data the view then shows, written back to the device unless it is marked modified. */
  lemma MirrorsSet(queue: seq<CachedBlock>, disk: seq<Block>, view: seq<Block>, idx: nat, e: CachedBlock, disk': seq<Block>, view': seq<Block>)
    requires DistinctIds(queue) && Mirrors(queue, disk, view) && idx < |queue| && e.id == queue[idx].id < |disk|
    requires view' == view[e.id := e.data]
    requires disk' == disk || disk' == disk[e.id := e.data]
    requires !e.modified ==> disk'[e.id] == e.data
    ensures Mirrors(queue[idx := e], disk', view')
  {
    var next := queue[idx := e];
    forall id | IsCached(queue, id)
      ensures IsCached(next, id)
    {
      var i :| 0 <= i < |queue| && queue[i].id == id;
      assert next[i].id == id;
    }
    assert IsCached(queue, e.id);
  }

  lemma MirrorsLength(queue: seq<CachedBlock>, disk: seq<Block>, view: seq<Block>)
    requires Mirrors(queue, disk, view)
    ensures |disk| == |view|
  {
  }

  lemma NotCachedShown(queue: seq<CachedBlock>, disk: seq<Block>, view: seq<Block>, id: nat)
    requires Mirrors(queue, disk, view) && id < |disk| && !IsCached(queue, id)
    ensures view[id] == disk[id]
  {
  }

  lemma EntryShown(queue: seq<CachedBlock>, disk: seq<Block>, view: seq<Block>, idx: nat)
    requires Mirrors(queue, disk, view) && idx < |queue|
    ensures queue[idx].id < |disk| == |view| && view[queue[idx].id] == queue[idx].data
    ensures !queue[idx].modified ==> disk[queue[idx].id] == queue[idx].data
  {
  }

  lemma MirrorsWithout(queue: seq<CachedBlock>, disk: seq<Block>, view: seq<Block>, idx: nat)
    requires DistinctIds(queue) && Mirrors(queue, disk, view) && idx < |queue| && !queue[idx].modified
    ensures DistinctIds(Without(queue, idx)) && Mirrors(Without(queue, idx), disk, view)
  {
    var rest := Without(queue, idx);
    forall id | 0 <= id < |disk| && !IsCached(rest, id)
      ensures view[id] == disk[id]
    {
      if IsCached(queue, id) {
        var i :| 0 <= i < |queue| && queue[i].id == id;
        if i != idx {
          WithoutKeeps(queue, idx, i);
        }
      }
    }
  }

  lemma MirrorsAdd(queue: seq<CachedBlock>, disk: seq<Block>, view: seq<Block>, id: nat)
    requires Mirrors(queue, disk, view) && id < |disk| && !IsCached(queue, id)
    ensures Mirrors(queue + [CachedBlock(id, disk[id], false, false)], disk, view)
  {
    var more := queue + [CachedBlock(id, disk[id], false, false)];
    forall k | IsCached(queue, k)
      ensures IsCached(more, k)
    {
      var i :| 0 <= i < |queue| && queue[i].id == k;
      assert more[i].id == k;
    }
  }

  /** A block handed out counts once: when every entry is in use, as many blocks are held as are cached. */
  lemma {:induction false} AllInUseCount(queue: seq<CachedBlock>)
    requires DistinctIds(queue)
    requires forall i :: 0 <= i < |queue| ==> queue[i].inUse
    ensures |InUseIds(queue)| == |queue|
  {
    if queue == [] {
      assert InUseIds(queue) == {};
    } else {
      var n := |queue| - 1;
      var rest := queue[..n];
      AllInUseCount(rest);
      assert InUseIds(queue) == InUseIds(rest) + {queue[n].id};
      assert queue[n].id !in InUseIds(rest);
    }
  }

  /** The first block nobody holds. */
  ghost predicate FirstIdle(queue: seq<CachedBlock>, idx: nat) {
    idx < |queue| && !queue[idx].inUse && forall j :: 0 <= j < idx ==> queue[j].inUse
  }

  class BlockCacheManager {
    var queue: seq<CachedBlock>
    var disk: seq<Block>
    ghost var view: seq<Block>
    ghost var held: set<nat>

    ghost predicate Valid()
      reads this
    {
      && |queue| <= BLOCK_CACHE_SIZE
      && DistinctIds(queue)
      && Mirrors(queue, disk, view)
      && held == InUseIds(queue)
    }

    /** The device, if it held the view, still does. */
    twostate predicate StaysSynced()
      reads this
    {
      old(disk == view) ==> disk == view
    }

    /** A cache that starts empty over an existing device. */
    constructor (device: seq<Block>)
      ensures Valid() && view == disk == device && held == {}
    {
      queue, disk := [], device;
      view, held := device, {};
    }

    /** Position of the cached copy of block id, or the queue's length when there is none. */
    method Find(id: nat) returns (idx: nat)
      requires Valid()
      ensures idx <= |queue|
      ensures idx < |queue| ==> queue[idx].id == id
      ensures idx == |queue| <==> !IsCached(queue, id)
      ensures forall j :: 0 <= j < idx ==> queue[j].id != id
    {
      idx := 0;
      while idx < |queue|
        invariant idx <= |queue|
        invariant forall j :: 0 <= j < idx ==> queue[j].id != id
      {
        if queue[idx].id == id {
          return;
        }
        idx := idx + 1;
      }
    }

    /** Dropping a cached block writes it back first if it was modified. */
    method Sync(idx: nat)
      requires Valid() && idx < |queue|
      modifies this`queue, this`disk
      ensures Valid()
      ensures queue == old(queue)[idx := old(queue[idx]).(modified := false)]
      ensures disk == old(disk)[old(queue[idx]).id := old(queue[idx]).data]
    {
      hide Mirrors;
      var entry := queue[idx];
      ghost var disk0 := disk;
      EntryShown(queue, disk, view, idx);
      if entry.modified {
        disk := disk[entry.id := entry.data];
      }
      assert disk == disk0[entry.id := entry.data] && view == view[entry.id := entry.data];
      MirrorsSet(queue, disk0, view, idx, entry.(modified := false), disk, view);
      SetInUse(queue, idx, entry.(modified := false));
      queue := queue[idx := entry.(modified := false)];
      assert held == InUseIds(queue);
    }

    /** Makes room by dropping the first block nobody holds; there is one whenever fewer than 16 are held. */
    method Evict()
      requires Valid() && |queue| == BLOCK_CACHE_SIZE && |held| < BLOCK_CACHE_SIZE
      modifies this`queue, this`disk
      ensures Valid() && |queue| == 15
      ensures exists idx: nat ::
                && FirstIdle(old(queue), idx) && !old(queue)[idx].inUse && (forall j :: 0 <= j < idx ==> old(queue)[j].inUse)
                && queue == Without(old(queue), idx) == old(queue)[..idx] + old(queue)[idx + 1..]
      ensures StaysSynced()
      ensures forall id :: IsCached(queue, id) ==> IsCached(old(queue), id)
    {
      hide Mirrors, InUseIds;
      var idx := 0;
      while idx < |queue| && queue[idx].inUse
        invariant idx <= |queue|
        invariant forall j :: 0 <= j < idx ==> queue[j].inUse
      {
        idx := idx + 1;
      }
      if idx == |queue| {
        AllInUseCount(queue);
        assert false;  // "Run out of BlockCache!" is unreachable
      }
      EntryShown(queue, disk, view, idx);
      Sync(idx);
      ghost var full := queue;
      MirrorsWithout(full, disk, view, idx);
      queue := Without(queue, idx);
      WithoutIdle(full, idx);
      assert FirstIdle(old(queue), idx) && queue == Without(old(queue), idx);
    }

    /** Loads a block that is not cached and appends it to the queue. */
    method Load(id: nat) returns (idx: nat)
      requires Valid() && id < |view| && !IsCached(queue, id)
      requires |held| < BLOCK_CACHE_SIZE
      modifies this`queue, this`disk
      ensures Valid() && idx == |queue| - 1 && queue[idx] == CachedBlock(id, view[id], false, false)
      ensures StaysSynced()
      ensures if |old(queue)| < BLOCK_CACHE_SIZE then queue[..idx] == old(queue)
              else exists out :: FirstIdle(old(queue), out) && queue[..idx] == Without(old(queue), out)
    {
      hide InUseIds, Mirrors;
      MirrorsLength(queue, disk, view);
      if |queue| == BLOCK_CACHE_SIZE {
        Evict();
        MirrorsLength(queue, disk, view);
      }
      idx := |queue|;
      NotCachedShown(queue, disk, view, id);
      MirrorsAdd(queue, disk, view, id);
      AddEntry(queue, CachedBlock(id, disk[id], false, false));
      queue := queue + [CachedBlock(id, disk[id], false, false)];
    }

    /** get_block_cache(id).lock(): the block is cached, its lock taken, and its bytes are returned. */
    method Lock(id: nat) returns (data: Block)
      requires Valid() && id < |view|
      requires id !in held && |held| < BLOCK_CACHE_SIZE
      modifies this`queue, this`disk, this`held
      ensures Valid() && held == old(held) + {id}
      ensures data == view[id] && StaysSynced()
    {
      hide InUseIds, Mirrors;
      var idx := Find(id);
      if idx == |queue| {
        idx := Load(id);
      }
      data := queue[idx].data;
      EntryShown(queue, disk, view, idx);
      assert view == view[id := data];
      MirrorsSet(queue, disk, view, idx, queue[idx].(inUse := true), disk, view);
      SetInUse(queue, idx, queue[idx].(inUse := true));
      queue := queue[idx := queue[idx].(inUse := true)];
      held := held + {id};
    }

    /** Reading through the guard of a held block. */
    method Peek(id: nat) returns (data: Block)
      requires Valid() && id in held
      ensures id < |view| && data == view[id]
    {
      var idx := Find(id);
      data := queue[idx].data;
    }

    /** Writing through the guard of a held block. */
    method Modify(id: nat, data: Block)
      requires Valid() && id in held
      modifies this`queue, this`view
      ensures Valid() && id < |view| == |old(view)| && view == old(view)[id := data]
    {
      hide Mirrors;
      var idx := Find(id);
      EntryShown(queue, disk, view, idx);
      MirrorsSet(queue, disk, view, idx, CachedBlock(id, data, true, queue[idx].inUse), disk, view[id := data]);
      SetInUse(queue, idx, CachedBlock(id, data, true, queue[idx].inUse));
      queue := queue[idx := CachedBlock(id, data, true, queue[idx].inUse)];
      view := view[id := data];
    }

    /** Dropping the guard and the handle. */
    method Unlock(id: nat)
      requires Valid() && id in held
      modifies this`queue, this`held
      ensures Valid() && held == old(held) - {id}
    {
      hide Mirrors;
      var idx := Find(id);
      EntryShown(queue, disk, view, idx);
      assert view == view[id := queue[idx].data];
      MirrorsSet(queue, disk, view, idx, queue[idx].(inUse := false), disk, view);
      SetInUse(queue, idx, queue[idx].(inUse := false));
      queue := queue[idx := queue[idx].(inUse := false)];
      held := held - {id};
    }

    /** get_block_cache(id).lock().read(0, ..). */
    method Read(id: nat) returns (data: Block)
      requires Valid() && id < |view|
      requires id !in held && |held| < BLOCK_CACHE_SIZE
      modifies this`queue, this`disk, this`held
      ensures Valid() && held == old(held)
      ensures data == view[id] && StaysSynced()
    {
      data := Lock(id);
      Unlock(id);
      assert held == old(held);
    }

    /** block_cache_sync_all: afterwards the device holds exactly what was visible. */
    method SyncAll()
      requires Valid() && held == {}
      modifies this`queue, this`disk
      ensures Valid() && disk == view
    {
      var i := 0;
      while i < |queue|
        invariant Valid() && i <= |queue|
        invariant forall j :: 0 <= j < i ==> !queue[j].modified
      {
        Sync(i);
        i := i + 1;
      }
      forall id | 0 <= id < |disk|
        ensures disk[id] == view[id]
      {
        if IsCached(queue, id) {
          var j :| 0 <= j < |queue| && queue[j].id == id;
          assert !queue[j].modified;
        }
      }
    }
  }

  lemma WithoutKeeps(queue: seq<CachedBlock>, idx: nat, i: nat)
    requires idx < |queue| && i < |queue| && i != idx
    ensures var j := if i < idx then i else i - 1; j < |queue| - 1 && Without(queue, idx)[j] == queue[i]
  {
  }

  lemma WithoutIdle(queue: seq<CachedBlock>, idx: nat)
    requires DistinctIds(queue) && idx < |queue| && !queue[idx].inUse
    ensures InUseIds(Without(queue, idx)) == InUseIds(queue)
    ensures forall id :: id != queue[idx].id && IsCached(queue, id) ==> IsCached(Without(queue, idx), id)
  {
    var rest := Without(queue, idx);
    forall id | id != queue[idx].id && IsCached(queue, id)
      ensures IsCached(rest, id)
    {
      var i :| 0 <= i < |queue| && queue[i].id == id;
      WithoutKeeps(queue, idx, i);
    }
    forall id | id in InUseIds(queue)
      ensures id in InUseIds(rest)
    {
      var i :| 0 <= i < |queue| && queue[i].inUse && queue[i].id == id;
      WithoutKeeps(queue, idx, i);
    }
  }

  lemma AddEntry(queue: seq<CachedBlock>, e: CachedBlock)
    requires DistinctIds(queue) && !IsCached(queue, e.id) && !e.inUse
    ensures var more := queue + [e];
            && DistinctIds(more)
            && InUseIds(more) == InUseIds(queue)
            && (forall id :: IsCached(more, id) <==> IsCached(queue, id) || id == e.id)
  {
    var more := queue + [e];
    assert more[|queue|] == e;
    forall id | IsCached(queue, id)
      ensures IsCached(more, id)
    {
      var i :| 0 <= i < |queue| && queue[i].id == id;
      assert more[i].id == id;
    }
    assert forall i :: 0 <= i < |queue| ==> more[i] == queue[i];
    forall id | id in InUseIds(queue)
      ensures id in InUseIds(more)
    {
      var i :| 0 <= i < |queue| && queue[i].inUse && queue[i].id == id;
      assert more[i].id == id;
    }
  }

  lemma SetInUse(queue: seq<CachedBlock>, idx: nat, e: CachedBlock)
    requires DistinctIds(queue) && idx < |queue| && e.id == queue[idx].id
    ensures var next := queue[idx := e];
            && DistinctIds(next)
            && InUseIds(next) == (if e.inUse then InUseIds(queue) + {e.id} else InUseIds(queue) - {e.id})
            && (forall id :: IsCached(next, id) <==> IsCached(queue, id))
  {
    var next := queue[idx := e];
    assert forall i :: 0 <= i < |queue| ==> next[i].id == queue[i].id;
    forall id
      ensures IsCached(next, id) <==> IsCached(queue, id)
    {
      if IsCached(queue, id) {
        var i :| 0 <= i < |queue| && queue[i].id == id;
        assert next[i].id == id;
      }
    }
    forall id | id in InUseIds(queue) && id != e.id
      ensures id in InUseIds(next)
    {
      var i :| 0 <= i < |queue| && queue[i].inUse && queue[i].id == id;
      assert next[i] == queue[i];
    }
    assert e.inUse ==> e.id in InUseIds(next) by {
      assert next[idx] == e;
    }
  }
}
