/** Whole runs of attribute changes: what each change means, and in which order the queries answer afterwards. */
module FileAttrRuns {
  import opened Bytes
  import opened Collections
  import opened FileAttr

  datatype AttrOp =
    | PutKv(name: string, key: string, value: string)
    | PutTag(name: string, tag: string)
    | PutOwner(name: string, owner: string)
    | PutDigest(name: string, digest: seq<byte>)
    | DropTag(name: string, tag: string)
    | DropKv(name: string, key: string)
    | DropFile(name: string)

  /** The attributes after an operation. */
  ghost function NextAttrs(byName: map<string, FileAttrs>, op: AttrOp): map<string, FileAttrs> {
    var a := AttrsOf(byName, op.name);
    match op
    case PutKv(name, key, value) => byName[name := a.(kv := a.kv[key := value])]
    case PutTag(name, tag) => byName[name := a.(tags := WithName(a.tags, tag))]
    case PutOwner(name, owner) => byName[name := a.(kv := a.kv["owner" := owner])]
    case PutDigest(name, digest) => byName[name := a.(digest := digest)]
    case DropTag(name, tag) => WithoutTag(byName, name, tag)
    case DropKv(name, key) => WithoutKey(byName, name, key)
    case DropFile(name) => byName - {name}
  }

  ghost function AllAttrs(ops: seq<AttrOp>): map<string, FileAttrs> {
    if ops == [] then map[] else NextAttrs(AllAttrs(ops[..|ops| - 1]), ops[|ops| - 1])
  }

  // ---------- what a change means

  ghost predicate HasTag(byName: map<string, FileAttrs>, name: string, tag: string) {
    name in byName && tag in byName[name].tags
  }

  ghost function ValueOf(byName: map<string, FileAttrs>, name: string, key: string): Option<string> {
    if name in byName && key in byName[name].kv then Some(byName[name].kv[key]) else None
  }

  ghost function DigestOf(byName: map<string, FileAttrs>, name: string): seq<byte> {
    if name in byName then byName[name].digest else []
  }

  /** The keys that an operation sets, and to what. */
  predicate Sets(op: AttrOp, name: string, key: string, value: string) {
    op == PutKv(name, key, value) || (key == "owner" && op == PutOwner(name, value))
  }

  /** Tags, values and digests after a change: the one it names is as it says, and every other is what it was. */
  lemma ChangeLaw(byName: map<string, FileAttrs>, op: AttrOp, n: string, tag: string, key: string, value: string)
    ensures var t := NextAttrs(byName, op);
            && (n in t <==> if op == DropFile(n) then false
                            else n in byName || (n == op.name && (op.PutKv? || op.PutTag? || op.PutOwner? || op.PutDigest?)))
            && (HasTag(t, n, tag) <==> if op == PutTag(n, tag) then true
                                       else if op == DropTag(n, tag) || op == DropFile(n) then false
                                       else HasTag(byName, n, tag))
            && (Sets(op, n, key, value) ==> ValueOf(t, n, key) == Some(value))
            && (op == DropKv(n, key) || op == DropFile(n) ==> ValueOf(t, n, key) == None)
            && ((forall v :: !Sets(op, n, key, v)) && op != DropKv(n, key) && op != DropFile(n) ==>
                  ValueOf(t, n, key) == ValueOf(byName, n, key))
            && (DigestOf(t, n) == if op.PutDigest? && op.name == n then op.digest else if op == DropFile(n) then [] else DigestOf(byName, n))
  {
    hide Retain, WithName;
    match op
    case PutKv(name, k, v) => assert Sets(op, name, k, v);
    case PutOwner(name, v) => assert Sets(op, name, "owner", v);
    case _ =>
  }

  method DoAttrOp(store: FileAttrStore, op: AttrOp)
    requires store.Valid()
    modifies store
    ensures store.Valid() && store.byName == NextAttrs(old(store.byName), op)
    ensures forall t :: Listed(store.indexTag, t) == TagListAfter(Listed(old(store.indexTag), t), op, t)
    ensures forall v :: Listed(store.indexKv, ("owner", v)) ==
                        OwnerListAfter(old(store.byName), Listed(old(store.indexKv), ("owner", v)), op, v)
  {
    hide FileAttrStore.Valid, Retain, WithName, Others;
    match op {
      case PutKv(name, key, value) => store.SetKv(name, key, value);
      case PutTag(name, tag) => store.AddTag(name, tag);
      case PutOwner(name, owner) => store.SetOwner(name, owner);
      case PutDigest(name, digest) => store.SetDigest(name, digest);
      case DropTag(name, tag) => var removed := store.RemoveTag(name, tag);
      case DropKv(name, key) => var removed := store.RemoveKv(name, key);
      case DropFile(name) => var existed := store.RemoveFile(name);
    }
  }

  /** What a change does to the list of a tag. */
  ghost function TagListAfter(list: seq<string>, op: AttrOp, tag: string): seq<string> {
    if op.PutTag? && op.tag == tag && op.name !in list then list + [op.name]
    else if (op.DropTag? && op.tag == tag) || op.DropFile? then Others(list, op.name)
    else list
  }

  /** And to the list of an owner: a file whose owner is set comes last, even where it had that owner before. */
  ghost function OwnerListAfter(byName: map<string, FileAttrs>, list: seq<string>, op: AttrOp, owner: string): seq<string> {
    if Sets(op, op.name, "owner", owner) then Others(list, op.name) + [op.name]
    else if op.DropFile? then Others(list, op.name)
    else if (op.PutOwner? || (op.PutKv? && op.key == "owner") || (op.DropKv? && op.key == "owner"))
            && ValueOf(byName, op.name, "owner") == Some(owner) then Others(list, op.name)
    else list
  }

  // ---------- when a file came by an attribute

  ghost predicate TaggedAt(ops: seq<AttrOp>, name: string, tag: string, k: nat)
    requires k <= |ops|
  {
    HasTag(AllAttrs(ops[..k]), name, tag)
  }

  /** Operation k gave the file its tag, which it has kept since. */
  ghost predicate CameAt(ops: seq<AttrOp>, name: string, tag: string, k: nat) {
    k < |ops| && !TaggedAt(ops, name, tag, k) && forall j :: k < j <= |ops| ==> TaggedAt(ops, name, tag, j)
  }

  /** Operation k set the owner of the file, which no operation has set since. */
  ghost predicate OwnerSetAt(ops: seq<AttrOp>, name: string, k: nat) {
    && k < |ops| && (exists v :: Sets(ops[k], name, "owner", v))
    && forall j, v :: k < j < |ops| ==> !Sets(ops[j], name, "owner", v)
  }

  /** The first file came by the tag before the second did. */
  ghost predicate TaggedBefore(ops: seq<AttrOp>, a: string, b: string, tag: string) {
    exists i: nat, j: nat :: i < j && CameAt(ops, a, tag, i) && CameAt(ops, b, tag, j)
  }

  ghost predicate OwnedBefore(ops: seq<AttrOp>, a: string, b: string) {
    exists i: nat, j: nat :: i < j && OwnerSetAt(ops, a, i) && OwnerSetAt(ops, b, j)
  }

  ghost predicate InTagOrder(ops: seq<AttrOp>, list: seq<string>, tag: string) {
    forall i, j :: 0 <= i < j < |list| ==> TaggedBefore(ops, list[i], list[j], tag)
  }

  ghost predicate InOwnerOrder(ops: seq<AttrOp>, list: seq<string>) {
    forall i, j :: 0 <= i < j < |list| ==> OwnedBefore(ops, list[i], list[j])
  }

  lemma SamePrefix(ops: seq<AttrOp>, op: AttrOp, k: nat)
    requires k <= |ops|
    ensures (ops + [op])[..k] == ops[..k]
  {
  }

  /** Who has a tag came by it at some operation. */
  lemma {:induction false} Came(ops: seq<AttrOp>, name: string, tag: string) returns (k: nat)
    requires HasTag(AllAttrs(ops), name, tag)
    ensures CameAt(ops, name, tag, k)
  {
    hide HasTag, NextAttrs;
    NoTags(name, tag);
    var n := |ops| - 1;
    assert ops[..|ops|] == ops;
    k := n;
    if HasTag(AllAttrs(ops[..n]), name, tag) {
      k := Came(ops[..n], name, tag);
      hide AllAttrs;
      forall j | 0 <= j <= n
        ensures ops[..n][..j] == ops[..j]
      {
      }
      assert !TaggedAt(ops[..n], name, tag, k);
      forall j | k < j <= |ops|
        ensures TaggedAt(ops, name, tag, j)
      {
        if j <= n {
          assert TaggedAt(ops[..n], name, tag, j);
        }
      }
    }
  }

  lemma NoTags(name: string, tag: string)
    ensures !HasTag(AllAttrs([]), name, tag) && ValueOf(AllAttrs([]), name, "owner") == None
  {
  }

  /** A time stays what it was when an operation leaves the tag in place. */
  lemma StillCame(ops: seq<AttrOp>, op: AttrOp, name: string, tag: string, k: nat)
    requires CameAt(ops, name, tag, k) && HasTag(AllAttrs(ops + [op]), name, tag)
    ensures CameAt(ops + [op], name, tag, k)
  {
    hide HasTag, AllAttrs;
    var ops2 := ops + [op];
    SamePrefix(ops, op, k);
    forall j | k < j <= |ops2|
      ensures TaggedAt(ops2, name, tag, j)
    {
      if j <= |ops| {
        SamePrefix(ops, op, j);
        assert TaggedAt(ops, name, tag, j);
      } else {
        assert ops2[..j] == ops2;
      }
    }
  }

  /** A list of files with the tag stays in order when only files that lose the tag leave it and a new one comes last. */
  lemma TagOrderKept(ops: seq<AttrOp>, op: AttrOp, list: seq<string>, tag: string)
    requires InTagOrder(ops, list, tag) && forall n :: n in list <==> HasTag(AllAttrs(ops), n, tag)
    requires forall n :: n in TagListAfter(list, op, tag) <==> HasTag(AllAttrs(ops + [op]), n, tag)
    ensures InTagOrder(ops + [op], TagListAfter(list, op, tag), tag)
  {
    hide HasTag, AllAttrs, Others;
    var list2 := TagListAfter(list, op, tag);
    forall i, j | 0 <= i < j < |list2|
      ensures TaggedBefore(ops + [op], list2[i], list2[j], tag)
    {
      assert list2[i] in list2 && list2[j] in list2;
      if op.PutTag? && op.tag == tag && op.name !in list && j == |list| {
        assert list[i] in list;
        NewLast(ops, op, list[i], op.name, tag);
      } else if (op.DropTag? && op.tag == tag) || op.DropFile? {
        var i', j' := OthersOrder(list, op.name, i, j);
        StillBefore(ops, op, list[i'], list[j'], tag);
      } else {
        StillBefore(ops, op, list[i], list[j], tag);
      }
    }
  }

  lemma StillBefore(ops: seq<AttrOp>, op: AttrOp, a: string, b: string, tag: string)
    requires TaggedBefore(ops, a, b, tag) && HasTag(AllAttrs(ops + [op]), a, tag) && HasTag(AllAttrs(ops + [op]), b, tag)
    ensures TaggedBefore(ops + [op], a, b, tag)
  {
    hide HasTag, AllAttrs, CameAt;
    var i: nat, j: nat :| i < j && CameAt(ops, a, tag, i) && CameAt(ops, b, tag, j);
    StillCame(ops, op, a, tag, i);
    StillCame(ops, op, b, tag, j);
  }

  /** A file that has just come by the tag came after every other. */
  lemma NewLast(ops: seq<AttrOp>, op: AttrOp, a: string, b: string, tag: string)
    requires HasTag(AllAttrs(ops), a, tag) && HasTag(AllAttrs(ops + [op]), a, tag)
    requires !HasTag(AllAttrs(ops), b, tag) && HasTag(AllAttrs(ops + [op]), b, tag)
    ensures TaggedBefore(ops + [op], a, b, tag)
  {
    hide HasTag, AllAttrs;
    var i := Came(ops, a, tag);
    StillCame(ops, op, a, tag, i);
    SamePrefix(ops, op, |ops|);
    assert ops[..|ops|] == ops && (ops + [op])[..|ops| + 1] == ops + [op];
    assert CameAt(ops + [op], b, tag, |ops|);
  }

  lemma OthersOrder(list: seq<string>, name: string, i: nat, j: nat) returns (i': nat, j': nat)
    requires i < j < |Others(list, name)|
    ensures i' < j' < |list| && list[i'] == Others(list, name)[i] && list[j'] == Others(list, name)[j]
  {
    i', j' := KeptOrder(list, NamesOf(list) - {name}, i, j);
  }

  /** Who has an owner had it set last at some operation. */
  lemma {:induction false} OwnerSet(ops: seq<AttrOp>, name: string) returns (k: nat)
    requires ValueOf(AllAttrs(ops), name, "owner").Some?
    ensures OwnerSetAt(ops, name, k)
  {
    NoTags(name, "");
    hide ValueOf, NextAttrs;
    var n := |ops| - 1;
    if v :| Sets(ops[n], name, "owner", v) {
      k := n;
    } else {
      ChangeLaw(AllAttrs(ops[..n]), ops[n], name, "", "owner", "");
      k := OwnerSet(ops[..n], name);
      assert forall v :: Sets(ops[k], name, "owner", v) <==> Sets(ops[..n][k], name, "owner", v);
      forall j, v | k < j < |ops|
        ensures !Sets(ops[j], name, "owner", v)
      {
        assert j < n ==> ops[..n][j] == ops[j];
      }
    }
  }

  lemma StillSet(ops: seq<AttrOp>, op: AttrOp, name: string, k: nat)
    requires OwnerSetAt(ops, name, k) && forall v :: !Sets(op, name, "owner", v)
    ensures OwnerSetAt(ops + [op], name, k)
  {
    var v :| Sets(ops[k], name, "owner", v);
    assert Sets((ops + [op])[k], name, "owner", v);
  }

  lemma OwnerOrderKept(ops: seq<AttrOp>, op: AttrOp, list: seq<string>, owner: string)
    requires InOwnerOrder(ops, list) && forall n :: n in list <==> ValueOf(AllAttrs(ops), n, "owner") == Some(owner)
    ensures InOwnerOrder(ops + [op], OwnerListAfter(AllAttrs(ops), list, op, owner))
  {
    hide ValueOf, AllAttrs, Others, OwnerSetAt;
    var list2, rest := OwnerListAfter(AllAttrs(ops), list, op, owner), Others(list, op.name);
    OthersGone(list, op.name);
    forall i, j | 0 <= i < j < |list2|
      ensures OwnedBefore(ops + [op], list2[i], list2[j])
    {
      if !Sets(op, op.name, "owner", owner) && list2 == list {
        NotSet(ops, op, list, owner, i);
        NotSet(ops, op, list, owner, j);
        StillOwnedBefore(ops, op, list[i], list[j]);
      } else {
        assert list2 == rest || list2 == rest + [op.name];
        assert rest[i] in rest;
        if j < |rest| {
          assert rest[j] in rest;
          var i', j' := OthersOrder(list, op.name, i, j);
          StillOwnedBefore(ops, op, list[i'], list[j']);
        } else {
          OthersIn(list, op.name, i);
          LastOwned(ops, op, rest[i]);
        }
      }
    }
  }

  lemma OthersIn(list: seq<string>, name: string, i: nat)
    requires i < |Others(list, name)|
    ensures Others(list, name)[i] in list && Others(list, name)[i] != name
  {
    Kept(list, NamesOf(list) - {name});
    assert Others(list, name)[i] in Others(list, name);
  }

  /** Where the list of an owner stays as it is, the operation sets nobody's owner who is on it. */
  lemma NotSet(ops: seq<AttrOp>, op: AttrOp, list: seq<string>, owner: string, i: nat)
    requires forall n :: n in list <==> ValueOf(AllAttrs(ops), n, "owner") == Some(owner)
    requires !Sets(op, op.name, "owner", owner) && OwnerListAfter(AllAttrs(ops), list, op, owner) == list && i < |list|
    ensures forall v :: !Sets(op, list[i], "owner", v)
  {
    hide AllAttrs, ValueOf, Others;
    assert list[i] in list;
    OthersGone(list, op.name);
  }

  lemma StillOwnedBefore(ops: seq<AttrOp>, op: AttrOp, a: string, b: string)
    requires OwnedBefore(ops, a, b) && forall v :: !Sets(op, a, "owner", v) && !Sets(op, b, "owner", v)
    ensures OwnedBefore(ops + [op], a, b)
  {
    hide OwnerSetAt;
    var i: nat, j: nat :| i < j && OwnerSetAt(ops, a, i) && OwnerSetAt(ops, b, j);
    StillSet(ops, op, a, i);
    StillSet(ops, op, b, j);
  }

  /** A file whose owner has just been set had it set after every other. */
  lemma LastOwned(ops: seq<AttrOp>, op: AttrOp, a: string)
    requires ValueOf(AllAttrs(ops), a, "owner").Some? && a != op.name && exists v :: Sets(op, op.name, "owner", v)
    ensures OwnedBefore(ops + [op], a, op.name)
  {
    hide ValueOf, AllAttrs;
    var i := OwnerSet(ops, a);
    StillSet(ops, op, a, i);
    var v :| Sets(op, op.name, "owner", v);
    assert Sets((ops + [op])[|ops|], op.name, "owner", v);
    assert OwnerSetAt(ops + [op], op.name, |ops|);
  }

  // ---------- the queries after any run

  /** The files that an index lists are those that carry the attribute. */
  lemma ListedMeans(store: FileAttrStore)
    requires store.Valid()
    ensures forall t, n :: n in Listed(store.indexTag, t) <==> HasTag(store.byName, n, t)
    ensures forall v, n :: n in Listed(store.indexKv, ("owner", v)) <==> ValueOf(store.byName, n, "owner") == Some(v)
  {
    hide Listed, Unique;
  }

  /** A file meets the filters that are given. */
  ghost predicate Meets(byName: map<string, FileAttrs>, n: string, tag: Option<string>, owner: Option<string>, keyword: Option<seq<byte>>) {
    && n in byName && (tag.Some? ==> HasTag(byName, n, tag.value))
    && (owner.Some? ==> ValueOf(byName, n, "owner") == Some(owner.value))
    && (keyword.Some? ==> exists before, behind :: DigestOf(byName, n) == before + keyword.value + behind)
  }

  lemma AnswerMeans(byName: map<string, FileAttrs>, tag: Option<string>, owner: Option<string>, keyword: Option<seq<byte>>, n: string)
    ensures n in Answer(byName, tag, owner, keyword) <==> Meets(byName, n, tag, owner, keyword)
  {
    hide Occurs;
    if keyword.Some? {
      OccursMeans(DigestOf(byName, n), keyword.value);
    }
  }

  /** The order of a whole list is that of what is kept of it. */
  lemma KeptInOrder(ops: seq<AttrOp>, list: seq<string>, good: set<string>, tag: string)
    ensures InTagOrder(ops, list, tag) ==> InTagOrder(ops, Keep(list, good), tag)
    ensures InOwnerOrder(ops, list) ==> InOwnerOrder(ops, Keep(list, good))
  {
    hide TaggedBefore, OwnedBefore, Keep;
    forall i, j | 0 <= i < j < |Keep(list, good)|
      ensures InTagOrder(ops, list, tag) ==> TaggedBefore(ops, Keep(list, good)[i], Keep(list, good)[j], tag)
      ensures InOwnerOrder(ops, list) ==> OwnedBefore(ops, Keep(list, good)[i], Keep(list, good)[j])
    {
      var i', j' := KeptOrder(list, good, i, j);
    }
  }

  /** The store after a run: its attributes, and its lists in order. */
  ghost predicate After(store: FileAttrStore, ops: seq<AttrOp>)
    reads store
  {
    && store.Valid() && store.byName == AllAttrs(ops)
    && (forall t :: InTagOrder(ops, Listed(store.indexTag, t), t))
    && (forall v :: InOwnerOrder(ops, Listed(store.indexKv, ("owner", v))))
  }

  method RunOne(store: FileAttrStore, ghost ops: seq<AttrOp>, op: AttrOp)
    requires After(store, ops)
    modifies store
    ensures After(store, ops + [op])
  {
    hide FileAttrStore.Valid, NextAttrs, InTagOrder, InOwnerOrder, Listed, HasTag, ValueOf, TagListAfter, OwnerListAfter;
    ghost var tags, pairs := store.indexTag, store.indexKv;
    ListedMeans(store);
    DoAttrOp(store, op);
    ListedMeans(store);
    assert AllAttrs(ops + [op]) == store.byName by {
      assert (ops + [op])[..|ops|] == ops;
    }
    forall t
      ensures InTagOrder(ops + [op], Listed(store.indexTag, t), t)
    {
      TagOrderKept(ops, op, Listed(tags, t), t);
    }
    forall v
      ensures InOwnerOrder(ops + [op], Listed(store.indexKv, ("owner", v)))
    {
      OwnerOrderKept(ops, op, Listed(pairs, ("owner", v)), v);
    }
  }

  /**
   * After any run from an empty store both queries find exactly the files that meet the filters, the indexed one nothing
   * where none is given. The scan answers in the order of names. The indexed query answers in the order in which the
   * files came by the tag; without a tag, in the order in which their owner was set last; else in the order of names.
   */
  method RunAndQuery(ops: seq<AttrOp>, tag: Option<string>, owner: Option<string>, keyword: Option<seq<byte>>)
    returns (indexed: seq<string>, scanned: seq<string>)
    ensures forall n :: n in indexed <==> SomeFilter(tag, owner, keyword) && Meets(AllAttrs(ops), n, tag, owner, keyword)
    ensures forall n :: n in scanned <==> Meets(AllAttrs(ops), n, tag, owner, keyword)
    ensures (forall n :: n in indexed <==> n in scanned) <==> SomeFilter(tag, owner, keyword) || AllAttrs(ops) == map[]
    ensures Unique(indexed) && InOrder(scanned)
    ensures tag.Some? ==> InTagOrder(ops, indexed, tag.value)
    ensures tag.None? && owner.Some? ==> InOwnerOrder(ops, indexed)
    ensures tag.None? && owner.None? ==> InOrder(indexed)
  {
    hide FileAttrStore.Valid, NextAttrs, AllAttrs, InOrder, InTagOrder, InOwnerOrder, Answer, Meets, Unique, Listed, Keep;
    var store := new FileAttrStore();
    Empty(store);
    for i := 0 to |ops|
      invariant fresh(store) && After(store, ops[..i])
    {
      RunOne(store, ops[..i], ops[i]);
      assert ops[..i + 1] == ops[..i] + [ops[i]];
    }
    assert ops[..|ops|] == ops;
    indexed := store.QueryIndexed(tag, owner, keyword);
    scanned := store.QueryFullScan(tag, owner, keyword);
    QueriesAgree(AllAttrs(ops), tag, owner, keyword, indexed, scanned);
    forall n
      ensures n in Answer(AllAttrs(ops), tag, owner, keyword) <==> Meets(AllAttrs(ops), n, tag, owner, keyword)
    {
      AnswerMeans(AllAttrs(ops), tag, owner, keyword, n);
    }
    if tag.Some? {
      KeptInOrder(ops, Listed(store.indexTag, tag.value), Answer(AllAttrs(ops), tag, owner, keyword), tag.value);
    } else if owner.Some? {
      KeptInOrder(ops, Listed(store.indexKv, ("owner", owner.value)), Answer(AllAttrs(ops), tag, owner, keyword), "");
    }
  }

  lemma Empty(store: FileAttrStore)
    requires store.Valid() && store.byName == map[]
    ensures After(store, [])
  {
    ListedMeans(store);
    hide FileAttrStore.Valid;
    forall t
      ensures InTagOrder([], Listed(store.indexTag, t), t)
    {
      FirstListed(Listed(store.indexTag, t));
    }
    forall v
      ensures InOwnerOrder([], Listed(store.indexKv, ("owner", v)))
    {
      var list := Listed(store.indexKv, ("owner", v));
      FirstListed(list);
      assert forall n :: n in list <==> ValueOf(store.byName, n, "owner") == Some(v);
    }
  }

  lemma FirstListed(list: seq<string>)
    ensures list == [] || list[0] in list
  {
  }
}
