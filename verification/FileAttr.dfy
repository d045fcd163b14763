/** File attributes with inverted indexes, and the two ways to query them. */
module FileAttr {
  import opened Bytes
  import opened Collections

  /** A file's attributes: key-value pairs, tags, and a digest of its contents. */
  datatype FileAttrs = FileAttrs(kv: map<string, string>, tags: seq<string>, digest: seq<byte>)

  const NO_ATTRS: FileAttrs := FileAttrs(map[], [], [])

  // ---------- lists of names

  ghost predicate Unique(s: seq<string>) {
    forall i, j :: 0 <= i < j < |s| ==> s[i] != s[j]
  }

  /** Vec::retain(|f| f != x). */
  function Retain(s: seq<string>, x: string): (r: seq<string>)
    ensures forall y :: y in r <==> y in s && y != x
    ensures |r| <= |s| && (|r| == |s| <==> x !in s)
    ensures Unique(s) ==> Unique(r)
  {
    if s == [] then []
    else
      var rest := Retain(s[1..], x);
      assert forall y :: y in s <==> y == s[0] || y in s[1..];
      assert Unique(s) ==> s[0] !in s[1..] && Unique(s[1..]);
      if s[0] == x then rest else [s[0]] + rest
  }

  /** Appends x unless it is there. */
  function WithName(s: seq<string>, x: string): (r: seq<string>)
    ensures forall y :: y in r <==> y in s || y == x
    ensures Unique(s) ==> Unique(r)
  {
    if x in s then s else s + [x]
  }

  /** intersect: the elements of a, if there is a list a, that are in b. */
  function Intersect(a: Option<seq<string>>, b: seq<string>): (r: seq<string>)
    ensures forall y :: y in r <==> y in b && (a.Some? ==> y in a.value)
    ensures Unique(b) && (a.Some? ==> Unique(a.value)) ==> Unique(r)
  {
    match a
    case None => b
    case Some(prev) => Filter(prev, b)
  }

  function Filter(a: seq<string>, b: seq<string>): (r: seq<string>)
    ensures forall y :: y in r <==> y in a && y in b
    ensures Unique(a) ==> Unique(r)
  {
    if a == [] then []
    else
      var n := |a| - 1;
      var rest := Filter(a[..n], b);
      assert forall y :: y in a <==> y == a[n] || y in a[..n];
      assert Unique(a) ==> a[n] !in a[..n] && Unique(a[..n]);
      if a[n] in b then rest + [a[n]] else rest
  }

  // ---------- order of names

  /** The order of names in a BTreeMap: that of their characters, the first difference deciding. */
  predicate Less(a: string, b: string) {
    b != [] && (a == [] || a[0] < b[0] || (a[0] == b[0] && Less(a[1..], b[1..])))
  }

  lemma {:induction false} LessTotal(a: string, b: string)
    ensures a == b || Less(a, b) || Less(b, a)
    ensures !(Less(a, b) && Less(b, a)) && !Less(a, a)
  {
    if a != [] {
      LessTotal(a[1..], a[1..]);
      if b != [] {
        LessTotal(a[1..], b[1..]);
        assert a[0] == b[0] && a[1..] == b[1..] ==> a == [a[0]] + a[1..] == b;
      }
    }
  }

  lemma {:induction false} LessTrans(a: string, b: string, c: string)
    requires Less(a, b) && Less(b, c)
    ensures Less(a, c)
  {
    if a != [] {
      if a[0] == b[0] == c[0] {
        LessTrans(a[1..], b[1..], c[1..]);
      }
    }
  }

  /** The first character that differs decides; a beginning of a name comes before it. */
  lemma {:induction false} LessMeans(a: string, b: string)
    ensures Less(a, b) <==>
            exists k: nat :: k <= |a| && k < |b| && a[..k] == b[..k] && (k == |a| || a[k] < b[k])
  {
    if a != [] && b != [] && a[0] == b[0] {
      var a1, b1 := a[1..], b[1..];
      LessMeans(a1, b1);
      if Less(a1, b1) {
        var k: nat :| k <= |a1| && k < |b1| && a1[..k] == b1[..k] && (k == |a1| || a1[k] < b1[k]);
        assert a[..k + 1] == [a[0]] + a1[..k] && b[..k + 1] == [b[0]] + b1[..k];
      }
      if k: nat :| k <= |a| && k < |b| && a[..k] == b[..k] && (k == |a| || a[k] < b[k]) {
        assert k > 0;
        assert a1[..k - 1] == a[..k][1..] && b1[..k - 1] == b[..k][1..];
      }
    } else if b != [] {
      assert a[..0] == b[..0];
      assert forall k: nat :: 0 < k <= |a| && k < |b| && a[..k] == b[..k] ==> a[..k][0] == b[..k][0];
    }
  }

  ghost predicate InOrder(names: seq<string>) {
    forall i, j :: 0 <= i < j < |names| ==> Less(names[i], names[j])
  }

  ghost predicate IsLeast(names: set<string>, n: string) {
    n in names && forall m :: m in names && m != n ==> Less(n, m)
  }

  lemma {:induction false} LeastExists(names: set<string>)
    requires names != {}
    ensures exists n :: IsLeast(names, n)
  {
    var x :| x in names;
    if names - {x} == {} {
      assert names == {x} + (names - {x});
      assert IsLeast(names, x);
    } else {
      LeastExists(names - {x});
      var n :| IsLeast(names - {x}, n);
      LessTotal(n, x);
      if Less(n, x) {
        assert IsLeast(names, n);
      } else {
        forall m | m in names && m != x
          ensures Less(x, m)
        {
          if m != n {
            LessTrans(x, n, m);
          }
        }
        assert IsLeast(names, x);
      }
    }
  }

  lemma OrderedOnce(names: seq<string>)
    requires InOrder(names)
    ensures Unique(names)
  {
    forall i, j | 0 <= i < j < |names|
      ensures names[i] != names[j]
    {
      LessTotal(names[i], names[i]);
    }
  }

  /** The names of a list that are in a set, in the list's order. */
  ghost function Keep(list: seq<string>, good: set<string>): seq<string> {
    if list == [] then []
    else
      var n := |list| - 1;
      if list[n] in good then Keep(list[..n], good) + [list[n]] else Keep(list[..n], good)
  }

  lemma {:induction false} Kept(list: seq<string>, good: set<string>)
    ensures forall x :: x in Keep(list, good) <==> x in list && x in good
  {
    if list != [] {
      var n := |list| - 1;
      Kept(list[..n], good);
      assert forall x :: x in list <==> x in list[..n] || x == list[n];
    }
  }

  /** Keeping in two parts. */
  lemma {:induction false} KeepConcat(a: seq<string>, b: seq<string>, good: set<string>)
    ensures Keep(a + b, good) == Keep(a, good) + Keep(b, good)
  {
    if b == [] {
      assert a + b == a;
    } else {
      var n := |b| - 1;
      KeepConcat(a, b[..n], good);
      assert a + b == a + b[..n] + [b[n]] && b == b[..n] + [b[n]];
      KeepSnoc(a + b[..n], b[n], good);
      KeepSnoc(b[..n], b[n], good);
    }
  }

  /** The list without a name: the others, in their order. */
  ghost function Others(list: seq<string>, name: string): seq<string> {
    Keep(list, NamesOf(list) - {name})
  }

  lemma {:induction false} RetainIsOthers(s: seq<string>, x: string)
    ensures Retain(s, x) == Others(s, x)
  {
    if s == [] {
      KeepNone(NamesOf(s) - {x});
    } else {
      assert s == [s[0]] + s[1..];
      RetainIsOthers(s[1..], x);
      KeepConcat([s[0]], s[1..], NamesOf(s) - {x});
      assert forall n :: n in s[1..] ==> n in s;
      KeepSame(s[1..], NamesOf(s) - {x}, NamesOf(s[1..]) - {x});
      assert s[0] in s && [] + [s[0]] == [s[0]];
      KeepSnoc([], s[0], NamesOf(s) - {x});
      KeepNone(NamesOf(s) - {x});
    }
  }

  lemma OthersAbsent(s: seq<string>, x: string)
    requires x !in s
    ensures Others(s, x) == s
  {
    KeepAll(s, NamesOf(s) - {x});
  }

  /** Two names of a kept list are in the list, in the same order. */
  lemma {:induction false} KeptOrder(list: seq<string>, good: set<string>, i: nat, j: nat) returns (i': nat, j': nat)
    requires i < j < |Keep(list, good)|
    ensures i' < j' < |list| && list[i'] == Keep(list, good)[i] && list[j'] == Keep(list, good)[j]
  {
    var n := |list| - 1;
    if j < |Keep(list[..n], good)| {
      i', j' := KeptOrder(list[..n], good, i, j);
    } else {
      Kept(list[..n], good);
      assert Keep(list[..n], good)[i] in Keep(list[..n], good);
      j' := n;
      i' :| 0 <= i' < n && list[..n][i'] == Keep(list[..n], good)[i];
    }
  }

  ghost function NamesOf(s: seq<string>): set<string> {
    set x | x in s
  }

  lemma {:induction false} KeepSame(list: seq<string>, good: set<string>, good': set<string>)
    requires forall n :: n in list ==> (n in good <==> n in good')
    ensures Keep(list, good) == Keep(list, good')
  {
    if list != [] {
      KeepSame(list[..|list| - 1], good, good');
      assert list[|list| - 1] in list;
    }
  }

  lemma {:induction false} KeepAll(list: seq<string>, good: set<string>)
    requires forall n :: n in list ==> n in good
    ensures Keep(list, good) == list
  {
    if list != [] {
      KeepAll(list[..|list| - 1], good);
      assert list[|list| - 1] in list && list == list[..|list| - 1] + [list[|list| - 1]];
    }
  }

  lemma KeepNone(good: set<string>)
    ensures Keep([], good) == []
  {
  }

  lemma KeepSnoc(list: seq<string>, x: string, good: set<string>)
    ensures Keep(list + [x], good) == if x in good then Keep(list, good) + [x] else Keep(list, good)
  {
    assert (list + [x])[..|list|] == list;
  }

  lemma {:induction false} KeepTwice(list: seq<string>, a: set<string>, b: set<string>)
    ensures Keep(Keep(list, a), b) == Keep(list, a * b)
  {
    if list != [] {
      var n := |list| - 1;
      KeepTwice(list[..n], a, b);
      KeepSnoc(Keep(list[..n], a), list[n], b);
    }
  }

  lemma {:induction false} FilterIsKeep(a: seq<string>, b: seq<string>)
    ensures Filter(a, b) == Keep(a, NamesOf(b))
  {
    if a != [] {
      FilterIsKeep(a[..|a| - 1], b);
    }
  }

  lemma {:induction false} KeepInOrder(list: seq<string>, good: set<string>)
    requires InOrder(list)
    ensures InOrder(Keep(list, good))
  {
    if list != [] {
      var n := |list| - 1;
      KeepInOrder(list[..n], good);
      Kept(list[..n], good);
      forall x | x in Keep(list[..n], good)
        ensures Less(x, list[n])
      {
        var i :| 0 <= i < n && list[i] == x;
      }
    }
  }

  // ---------- substring search

  /** The window of hay at i is needle. */
  predicate OccursAt(hay: seq<byte>, needle: seq<byte>, i: nat) {
    i + |needle| <= |hay| && hay[i..i + |needle|] == needle
  }

  ghost predicate Occurs(hay: seq<byte>, needle: seq<byte>) {
    exists i: nat :: OccursAt(hay, needle, i)
  }

  lemma OccursMeans(hay: seq<byte>, needle: seq<byte>)
    ensures Occurs(hay, needle) <==> exists before, behind :: hay == before + needle + behind
  {
    if Occurs(hay, needle) {
      var i: nat :| OccursAt(hay, needle, i);
      assert hay == hay[..i] + needle + hay[i + |needle|..];
    }
    if before, behind :| hay == before + needle + behind {
      assert hay[|before|..|before| + |needle|] == needle;
      assert OccursAt(hay, needle, |before|);
    }
  }

  /** memmem: an empty needle always occurs, one longer than the text never. */
  method Memmem(hay: seq<byte>, needle: seq<byte>) returns (found: bool)
    ensures found <==> Occurs(hay, needle)
  {
    if needle == [] {
      assert OccursAt(hay, needle, 0);
      return true;
    }
    if |needle| > |hay| {
      return false;
    }
    for i := 0 to |hay| - |needle| + 1
      invariant forall j: nat :: j < i ==> !OccursAt(hay, needle, j)
    {
      if OccursAt(hay, needle, i) {
        return true;
      }
    }
    found := false;
  }

  // ---------- the store

  /** The files an index lists under a key. */
  function Listed<K>(index: map<K, seq<string>>, key: K): seq<string> {
    if key in index then index[key] else []
  }

  ghost predicate TagsOk(byName: map<string, FileAttrs>, indexTag: map<string, seq<string>>) {
    && (forall t, n :: n in Listed(indexTag, t) <==> n in byName && t in byName[n].tags)
    && (forall t :: t in indexTag ==> Unique(indexTag[t]))
  }

  ghost predicate KvOk(byName: map<string, FileAttrs>, indexKv: map<(string, string), seq<string>>) {
    && (forall k, v, n :: n in Listed(indexKv, (k, v)) <==> n in byName && k in byName[n].kv && byName[n].kv[k] == v)
    && (forall p :: p in indexKv ==> Unique(indexKv[p]))
  }

  /** No file carries a tag twice. */
  ghost predicate TagsUnique(byName: map<string, FileAttrs>) {
    forall n :: n in byName ==> Unique(byName[n].tags)
  }

  /** A file's attributes meet the filters given. */
  ghost predicate Matches(a: FileAttrs, tag: Option<string>, owner: Option<string>, keyword: Option<seq<byte>>) {
    && (tag.Some? ==> tag.value in a.tags)
    && (owner.Some? ==> "owner" in a.kv && a.kv["owner"] == owner.value)
    && (keyword.Some? ==> Occurs(a.digest, keyword.value))
  }

  /** The files that meet the filters. */
  ghost function Answer(byName: map<string, FileAttrs>, tag: Option<string>, owner: Option<string>, keyword: Option<seq<byte>>): set<string> {
    set n | n in byName && Matches(byName[n], tag, owner, keyword)
  }

  class FileAttrStore {
    var byName: map<string, FileAttrs>
    var indexKv: map<(string, string), seq<string>>
    var indexTag: map<string, seq<string>>

    /** The indexes list exactly the files that carry the attribute, each once. */
    ghost predicate Valid()
      reads this
    {
      TagsOk(byName, indexTag) && KvOk(byName, indexKv) && TagsUnique(byName)
    }

    constructor ()
      ensures Valid() && byName == map[]
    {
      byName, indexKv, indexTag := map[], map[], map[];
    }

    /** The attributes of a file, or none. */
    function Attrs(name: string): FileAttrs
      reads this
    {
      if name in byName then byName[name] else NO_ATTRS
    }

    /** Sets a key of a file, replacing its value. */
    method SetKv(name: string, key: string, value: string)
      requires Valid()
      modifies this
      ensures Valid()
      ensures byName == old(byName)[name := old(Attrs(name)).(kv := old(Attrs(name)).kv[key := value])]
      ensures indexTag == old(indexTag) && PairMoved(old(byName), old(indexKv), indexKv, name, key, value)
    {
      hide TagsOk, KvOk, Unique;
      ghost var byName0 := byName;
      var attrs := Attrs(name);
      AttrsUnique(this, name);
      KvSet(byName, indexKv, name, key, value);
      ghost var index0 := indexKv;
      byName := byName[name := attrs.(kv := attrs.kv[key := value])];
      TagsKept(byName0, byName, indexTag, name);
      TagsUniqueKept(byName0, byName, name);
      if key in attrs.kv {
        var oldKey := (key, attrs.kv[key]);
        if oldKey in indexKv {
          indexKv := indexKv[oldKey := Retain(indexKv[oldKey], name)];
        }
      }
      var entry := Listed(indexKv, (key, value));
      indexKv := indexKv[(key, value) := WithName(entry, name)];
      MovedToEnd(byName0, index0, name, key, value);
    }

    /** Adds a tag to a file. */
    method AddTag(name: string, tag: string)
      requires Valid()
      modifies this
      ensures Valid()
      ensures byName == old(byName)[name := old(Attrs(name)).(tags := WithName(old(Attrs(name)).tags, tag))]
      ensures indexKv == old(indexKv)
      ensures forall t :: Listed(indexTag, t) ==
                          if t == tag && name !in Listed(old(indexTag), t) then Listed(old(indexTag), t) + [name]
                          else Listed(old(indexTag), t)
    {
      hide KvOk, TagsOk, Unique;
      ghost var byName0 := byName;
      var attrs := Attrs(name);
      AttrsUnique(this, name);
      byName := byName[name := attrs.(tags := WithName(attrs.tags, tag))];
      KvKept(byName0, byName, indexKv, name);
      TagsUniqueKept(byName0, byName, name);
      TagAdded(byName0, indexTag, name, tag);
      indexTag := indexTag[tag := WithName(Listed(indexTag, tag), name)];
    }

    method SetOwner(name: string, owner: string)
      requires Valid()
      modifies this
      ensures Valid()
      ensures byName == old(byName)[name := old(Attrs(name)).(kv := old(Attrs(name)).kv["owner" := owner])]
      ensures indexTag == old(indexTag) && PairMoved(old(byName), old(indexKv), indexKv, name, "owner", owner)
    {
      SetKv(name, "owner", owner);
    }

    method SetDigest(name: string, digest: seq<byte>)
      requires Valid()
      modifies this`byName
      ensures Valid()
      ensures byName == old(byName)[name := old(Attrs(name)).(digest := digest)]
    {
      hide TagsOk, KvOk, Unique;
      ghost var byName0 := byName;
      AttrsUnique(this, name);
      byName := byName[name := Attrs(name).(digest := digest)];
      TagsUniqueKept(byName0, byName, name);
      TagsKept(byName0, byName, indexTag, name);
      KvKept(byName0, byName, indexKv, name);
    }

    /** Removes a tag from a file; tells whether the file had it. */
    method RemoveTag(name: string, tag: string) returns (removed: bool)
      requires Valid()
      modifies this
      ensures Valid() && (removed <==> name in old(byName) && tag in old(byName)[name].tags)
      ensures byName == WithoutTag(old(byName), name, tag) && indexKv == old(indexKv)
      ensures forall t :: Listed(indexTag, t) ==
                          if t == tag then Others(Listed(old(indexTag), t), name) else Listed(old(indexTag), t)
    {
      hide TagsOk, KvOk, Unique;
      ghost var byName0 := byName;
      removed := false;
      if name in byName {
        AttrsUnique(this, name);
        var attrs := byName[name];
        byName := byName[name := attrs.(tags := Retain(attrs.tags, tag))];
        removed := |byName[name].tags| != |attrs.tags|;
        KvKept(byName0, byName, indexKv, name);
        TagsUniqueKept(byName0, byName, name);
      }
      TagRemoved(byName0, indexTag, name, tag);
      OthersListed(indexTag, tag, name);
      indexTag := DropName(indexTag, tag, name);
    }

    /** Removes a key from a file; tells whether the file had it. */
    method RemoveKv(name: string, key: string) returns (removed: bool)
      requires Valid()
      modifies this
      ensures Valid() && (removed <==> name in old(byName) && key in old(byName)[name].kv)
      ensures byName == WithoutKey(old(byName), name, key) && indexTag == old(indexTag)
      ensures forall p :: Listed(indexKv, p) ==
                          if removed && p == (key, old(Attrs(name)).kv[key]) then Others(Listed(old(indexKv), p), name)
                          else Listed(old(indexKv), p)
    {
      hide TagsOk, KvOk, Unique;
      if name !in byName {
        return false;
      }
      var attrs := byName[name];
      if key !in attrs.kv {
        assert attrs.kv - {key} == attrs.kv;
        assert byName[name := attrs] == byName;
        return false;
      }
      AttrsUnique(this, name);
      KvRemoved(byName, indexKv, name, key);
      ghost var byName0 := byName;
      byName := byName[name := attrs.(kv := attrs.kv - {key})];
      TagsKept(byName0, byName, indexTag, name);
      TagsUniqueKept(byName0, byName, name);
      OthersListed(indexKv, (key, attrs.kv[key]), name);
      indexKv := DropName(indexKv, (key, attrs.kv[key]), name);
      removed := true;
    }

    /** Removes a file and all its index entries; tells whether there was one. */
    method RemoveFile(name: string) returns (existed: bool)
      requires Valid()
      modifies this
      ensures Valid() && (existed <==> name in old(byName)) && byName == old(byName) - {name}
      ensures forall t :: Listed(indexTag, t) == Others(Listed(old(indexTag), t), name)
      ensures forall p :: Listed(indexKv, p) == Others(Listed(old(indexKv), p), name)
    {
      hide TagsOk, KvOk, Unique, Others, Thinned;
      ghost var kv0, tag0 := indexKv, indexTag;
      if name !in byName {
        NotListed(byName, indexKv, indexTag, name);
        return false;
      }
      var attrs := byName[name];
      ghost var byName0 := byName;
      ThinnedStart(kv0, name);
      ThinnedStart(tag0, name);
      byName := byName - {name};
      var keys := attrs.kv.Keys;
      StartRemoving(byName0, indexKv, indexTag, name);
      while keys != {}
        invariant byName == byName0 - {name} && TagsUnique(byName0) && keys <= attrs.kv.Keys
        invariant TagsPartly(byName0, indexTag, name, attrs.tags) && KvPartly(byName0, indexKv, name, keys)
        invariant indexTag == tag0 && Thinned(kv0, indexKv, name)
        decreases |keys|
      {
        var key :| key in keys;
        ThinnedNext(kv0, indexKv, name, (key, attrs.kv[key]));
        KeyGone(byName0, indexKv, name, keys, key);
        indexKv := DropName(indexKv, (key, attrs.kv[key]), name);
        keys := keys - {key};
      }
      assert attrs.tags[0..] == attrs.tags;
      for i := 0 to |attrs.tags|
        invariant byName == byName0 - {name} && TagsUnique(byName0)
        invariant TagsPartly(byName0, indexTag, name, attrs.tags[i..]) && KvPartly(byName0, indexKv, name, {})
        invariant Thinned(kv0, indexKv, name) && Thinned(tag0, indexTag, name)
      {
        ThinnedNext(tag0, indexTag, name, attrs.tags[i]);
        TagGone(byName0, indexTag, name, attrs.tags[i..]);
        indexTag := DropName(indexTag, attrs.tags[i], name);
        assert attrs.tags[i..][1..] == attrs.tags[i + 1..];
      }
      EndRemoving(byName0, indexKv, indexTag, name);
      ThinnedEnd(byName, kv0, indexKv, tag0, indexTag, name);
      existed := true;
    }

    /** The names of all files, in their order. */
    method Names() returns (names: seq<string>)
      ensures InOrder(names) && forall n :: n in names <==> n in byName
    {
      names := [];
      var left := byName.Keys;
      while left != {}
        invariant InOrder(names) && left <= byName.Keys
        invariant forall n :: n in names <==> n in byName && n !in left
        invariant forall n, m :: n in names && m in left ==> Less(n, m)
        decreases |left|
      {
        LeastExists(left);
        var n: string :| n in left && forall m :: m in left && m != n ==> Less(n, m);
        names := names + [n];
        left := left - {n};
      }
    }

    /** query_indexed: candidates from the indexes, narrowed filter by filter. */
    method QueryIndexed(tag: Option<string>, owner: Option<string>, keyword: Option<seq<byte>>) returns (r: seq<string>)
      requires Valid()
      ensures IndexedResult(byName, tag, owner, keyword, r)
      ensures tag.Some? ==> r == Keep(Listed(indexTag, tag.value), Answer(byName, tag, owner, keyword))
      ensures tag.None? && owner.Some? ==> r == Keep(Listed(indexKv, ("owner", owner.value)), Answer(byName, tag, owner, keyword))
      ensures tag.None? && owner.None? ==> InOrder(r)
    {
      hide TagsUnique, Occurs, Unique, InOrder, Keep;
      ghost var base: seq<string> := [];
      var candidates: Option<seq<string>> := None;
      if tag.Some? {
        ListedUnique(indexTag, tag.value);
        candidates := Some(Intersect(candidates, Listed(indexTag, tag.value)));
        base := candidates.value;
        KeepAll(base, Answer(byName, tag, None, None));
      }
      if owner.Some? {
        var list := Listed(indexKv, ("owner", owner.value));
        ListedUnique(indexKv, ("owner", owner.value));
        if candidates.Some? {
          FilterIsKeep(base, list);
          KeepSame(base, NamesOf(list), Answer(byName, tag, owner, None));
        } else {
          base := list;
          KeepAll(base, Answer(byName, tag, owner, None));
        }
        candidates := Some(Intersect(candidates, list));
      }
      assert candidates.Some? ==> Unique(candidates.value) && candidates.value == Keep(base, Answer(byName, tag, owner, None));
      if keyword.Some? {
        var names;
        if candidates.Some? {
          names := candidates.value;
        } else {
          names := Names();
          OrderedOnce(names);
          base := names;
          KeepAll(base, Answer(byName, tag, owner, None));
        }
        var hit := KeywordHits(names, keyword.value);
        KeepTwice(base, Answer(byName, tag, owner, None), HasKeyword(byName, keyword.value));
        KeepSame(base, Answer(byName, tag, owner, None) * HasKeyword(byName, keyword.value), Answer(byName, tag, owner, keyword));
        if tag.None? && owner.None? {
          KeepInOrder(base, Answer(byName, tag, owner, keyword));
        }
        candidates := Some(hit);
      }
      Kept(base, Answer(byName, tag, owner, keyword));
      UniqueFacts([], "");
      NothingInOrder();
      r := if candidates.Some? then candidates.value else [];
    }

    /** The keyword filter: the files of a list whose digest has the keyword, in the list's order. */
    method KeywordHits(names: seq<string>, keyword: seq<byte>) returns (hit: seq<string>)
      requires Unique(names) && forall n :: n in names ==> n in byName
      ensures Unique(hit) && hit == Keep(names, HasKeyword(byName, keyword))
    {
      hide Occurs, Unique;
      hit := [];
      UniqueFacts(hit, "");
      for i := 0 to |names|
        invariant Unique(hit) && hit == Keep(names[..i], HasKeyword(byName, keyword))
      {
        NextName(names, i);
        assert names[..i + 1][..i] == names[..i];
        var found := Memmem(byName[names[i]].digest, keyword);
        if found {
          Kept(names[..i], HasKeyword(byName, keyword));
          UniqueFacts(hit, names[i]);
          hit := hit + [names[i]];
        }
      }
      assert names[..|names|] == names;
    }

    /** query_full_scan: every file against every filter. */
    method QueryFullScan(tag: Option<string>, owner: Option<string>, keyword: Option<seq<byte>>) returns (r: seq<string>)
      ensures ScanResult(byName, tag, owner, keyword, r) && InOrder(r)
    {
      hide Occurs, Unique, InOrder, Keep;
      var names := Names();
      OrderedOnce(names);
      r := [];
      KeepNone(Answer(byName, tag, owner, keyword));
      for i := 0 to |names|
        invariant r == Keep(names[..i], Answer(byName, tag, owner, keyword))
      {
        NextName(names, i);
        assert names[..i + 1] == names[..i] + [names[i]];
        KeepSnoc(names[..i], names[i], Answer(byName, tag, owner, keyword));
        var attrs := byName[names[i]];
        if tag.Some? && tag.value !in attrs.tags {
          continue;
        }
        if owner.Some? && !("owner" in attrs.kv && attrs.kv["owner"] == owner.value) {
          continue;
        }
        if keyword.Some? {
          var found := Memmem(attrs.digest, keyword.value);
          if !found {
            continue;
          }
        }
        r := r + [names[i]];
      }
      assert names[..|names|] == names;
      Kept(names, Answer(byName, tag, owner, keyword));
      KeepInOrder(names, Answer(byName, tag, owner, keyword));
      OrderedOnce(r);
    }
  }

  /** The files whose digest has the keyword. */
  ghost function HasKeyword(byName: map<string, FileAttrs>, keyword: seq<byte>): set<string> {
    set n | n in byName && Occurs(byName[n].digest, keyword)
  }

  lemma NothingInOrder()
    ensures InOrder([])
  {
  }

  // ---------- what the queries answer

  ghost predicate SomeFilter(tag: Option<string>, owner: Option<string>, keyword: Option<seq<byte>>) {
    tag.Some? || owner.Some? || keyword.Some?
  }

  /** With a filter, the files that meet all filters, each once; without one, nothing. */
  ghost predicate IndexedResult(byName: map<string, FileAttrs>, tag: Option<string>, owner: Option<string>,
                                keyword: Option<seq<byte>>, r: seq<string>) {
    && Unique(r)
    && (forall n :: n in r <==> SomeFilter(tag, owner, keyword) && n in Answer(byName, tag, owner, keyword))
  }

  /** The files that meet all filters, each once. */
  ghost predicate ScanResult(byName: map<string, FileAttrs>, tag: Option<string>, owner: Option<string>, keyword: Option<seq<byte>>, r: seq<string>) {
    Unique(r) && forall n :: n in r <==> n in Answer(byName, tag, owner, keyword)
  }

  /** The two queries find the same files exactly when there is a filter, or no file at all. */
  lemma QueriesAgree(byName: map<string, FileAttrs>, tag: Option<string>, owner: Option<string>, keyword: Option<seq<byte>>,
                     indexed: seq<string>, scanned: seq<string>)
    requires IndexedResult(byName, tag, owner, keyword, indexed) && ScanResult(byName, tag, owner, keyword, scanned)
    ensures (forall n :: n in indexed <==> n in scanned) <==> SomeFilter(tag, owner, keyword) || byName == map[]
    ensures (forall n :: n in indexed <==> n in scanned) ==> |indexed| == |scanned|
  {
    if !SomeFilter(tag, owner, keyword) && byName != map[] {
      var n :| n in byName;
      assert n in Answer(byName, tag, owner, keyword);
    }
    if forall n :: n in indexed <==> n in scanned {
      SameLength(indexed, scanned);
    }
  }

  lemma {:induction false} SameLength(a: seq<string>, b: seq<string>)
    requires Unique(a) && Unique(b) && forall n :: n in a <==> n in b
    ensures |a| == |b|
  {
    if a == [] {
      HeadIn(b);
    } else {
      var rest := Retain(b, a[0]);
      assert a[0] in a && a[0] !in a[1..];
      assert forall n :: n in a <==> n == a[0] || n in a[1..];
      RetainOne(b, a[0]);
      SameLength(a[1..], rest);
    }
  }

  lemma HeadIn(s: seq<string>)
    ensures s != [] ==> s[0] in s
  {
  }

  lemma {:induction false} RetainOne(s: seq<string>, x: string)
    requires Unique(s) && x in s
    ensures |Retain(s, x)| == |s| - 1
  {
    assert s == [s[0]] + s[1..];
    assert Unique(s[1..]) && s[0] !in s[1..];
    if s[0] != x {
      RetainOne(s[1..], x);
    }
  }

  lemma ListedUnique<K>(index: map<K, seq<string>>, key: K)
    requires forall p :: p in index ==> Unique(index[p])
    ensures Unique(Listed(index, key))
  {
  }

  lemma UniqueFacts(s: seq<string>, x: string)
    ensures Unique([])
    ensures Unique(s) && x !in s ==> Unique(s + [x])
  {
  }

  lemma NextName(names: seq<string>, i: nat)
    requires Unique(names) && i < |names|
    ensures names[i] in names && names[i] !in names[..i]
    ensures forall n :: n in names[..i + 1] <==> n in names[..i] || n == names[i]
  {
    assert names[..i + 1] == names[..i] + [names[i]];
  }

  function AttrsOf(byName: map<string, FileAttrs>, name: string): FileAttrs {
    if name in byName then byName[name] else NO_ATTRS
  }

  /** The index without `name` under a key. */
  function Dropped<K>(index: map<K, seq<string>>, key: K, name: string): map<K, seq<string>> {
    if key in index then index[key := Retain(index[key], name)] else index
  }

  /** Takes name out of the list under a key, and the key out of the index when nothing is left. */
  function DropName<K>(index: map<K, seq<string>>, key: K, name: string): (r: map<K, seq<string>>) {
    if key !in index then index
    else
      var v := Retain(index[key], name);
      if v == [] then index - {key} else index[key := v]
  }

  lemma DropNameListed<K>(index: map<K, seq<string>>, key: K, name: string)
    requires forall p :: p in index ==> Unique(index[p])
    ensures var r := DropName(index, key, name);
            && (forall p, n :: n in Listed(r, p) <==> n in Listed(index, p) && !(p == key && n == name))
            && (forall p :: p in r ==> Unique(r[p]))
  {
    hide Unique;
    var r := DropName(index, key, name);
    forall p, n
      ensures n in Listed(r, p) <==> n in Listed(index, p) && !(p == key && n == name)
    {
    }
  }

  ghost function WithoutTag(byName: map<string, FileAttrs>, name: string, tag: string): map<string, FileAttrs> {
    if name in byName then byName[name := byName[name].(tags := Retain(byName[name].tags, tag))] else byName
  }

  ghost function WithoutKey(byName: map<string, FileAttrs>, name: string, key: string): map<string, FileAttrs> {
    if name in byName then byName[name := byName[name].(kv := byName[name].kv - {key})] else byName
  }

  lemma OthersListed<K>(index: map<K, seq<string>>, key: K, name: string)
    ensures forall p :: Listed(DropName(index, key, name), p) ==
                        if p == key then Others(Listed(index, p), name) else Listed(index, p)
  {
    hide Others;
    RetainIsOthers(Listed(index, key), name);
  }

  /** The lists of index are those of index0, some of them without the name. */
  ghost predicate Thinned<K(!new)>(index0: map<K, seq<string>>, index: map<K, seq<string>>, name: string) {
    forall p :: Listed(index, p) == Listed(index0, p) || Listed(index, p) == Others(Listed(index0, p), name)
  }

  lemma ThinnedStart<K(!new)>(index: map<K, seq<string>>, name: string)
    ensures Thinned(index, index, name)
  {
  }

  lemma ThinnedNext<K(!new)>(index0: map<K, seq<string>>, index: map<K, seq<string>>, name: string, key: K)
    requires Thinned(index0, index, name)
    ensures Thinned(index0, DropName(index, key, name), name)
  {
    hide Others, DropName;
    OthersListed(index, key, name);
    OthersGone(Listed(index0, key), name);
    OthersAbsent(Others(Listed(index0, key), name), name);
  }

  lemma OthersGone(list: seq<string>, name: string)
    ensures name !in Others(list, name)
  {
    Kept(list, NamesOf(list) - {name});
  }

  /** When the name is on no list any more, every list has lost it. */
  lemma ThinnedEnd(byName: map<string, FileAttrs>, kv0: map<(string, string), seq<string>>, kv: map<(string, string), seq<string>>,
                   tag0: map<string, seq<string>>, tag: map<string, seq<string>>, name: string)
    requires Thinned(kv0, kv, name) && Thinned(tag0, tag, name) && KvOk(byName, kv) && TagsOk(byName, tag) && name !in byName
    ensures forall p :: Listed(kv, p) == Others(Listed(kv0, p), name)
    ensures forall t :: Listed(tag, t) == Others(Listed(tag0, t), name)
  {
    hide Others, Listed;
    NotListed(byName, kv, tag, name);
    forall p
      ensures Listed(kv, p) == Others(Listed(kv0, p), name)
    {
      assert Listed(kv, p) == Listed(kv0, p) || Listed(kv, p) == Others(Listed(kv0, p), name);
    }
    forall t
      ensures Listed(tag, t) == Others(Listed(tag0, t), name)
    {
      assert Listed(tag, t) == Listed(tag0, t) || Listed(tag, t) == Others(Listed(tag0, t), name);
    }
  }

  lemma NotListed(byName: map<string, FileAttrs>, kv: map<(string, string), seq<string>>, tag: map<string, seq<string>>, name: string)
    requires KvOk(byName, kv) && TagsOk(byName, tag) && name !in byName
    ensures forall p :: Listed(kv, p) == Others(Listed(kv, p), name)
    ensures forall t :: Listed(tag, t) == Others(Listed(tag, t), name)
  {
    hide Others, Listed, Unique;
    forall p
      ensures Listed(kv, p) == Others(Listed(kv, p), name)
    {
      assert name !in Listed(kv, (p.0, p.1));
      OthersAbsent(Listed(kv, p), name);
    }
    forall t
      ensures Listed(tag, t) == Others(Listed(tag, t), name)
    {
      OthersAbsent(Listed(tag, t), name);
    }
  }

  /**
   * A key of a file has been set: the file is the last on the list of the new value, even where it had that value before,
   * and no longer on the list of the old one; the others keep their order.
   */
  ghost predicate PairMoved(byName: map<string, FileAttrs>, index0: map<(string, string), seq<string>>,
                            index: map<(string, string), seq<string>>, name: string, key: string, value: string) {
    forall p :: Listed(index, p) ==
                if p == (key, value) then Others(Listed(index0, p), name) + [name]
                else if key in AttrsOf(byName, name).kv && p == (key, AttrsOf(byName, name).kv[key]) then Others(Listed(index0, p), name)
                else Listed(index0, p)
  }

  lemma MovedToEnd(byName: map<string, FileAttrs>, indexKv: map<(string, string), seq<string>>, name: string, key: string, value: string)
    requires KvOk(byName, indexKv)
    ensures var attrs := AttrsOf(byName, name);
            var index1 := if key in attrs.kv then Dropped(indexKv, (key, attrs.kv[key]), name) else indexKv;
            PairMoved(byName, indexKv, index1[(key, value) := WithName(Listed(index1, (key, value)), name)], name, key, value)
  {
    hide Others, Unique;
    var attrs := AttrsOf(byName, name);
    var list := Listed(indexKv, (key, value));
    OthersGone(list, name);
    if name !in list {
      OthersAbsent(list, name);
    }
    if key in attrs.kv {
      RetainIsOthers(Listed(indexKv, (key, attrs.kv[key])), name);
    }
    assert name in list ==> key in attrs.kv && attrs.kv[key] == value;
  }

  lemma TagRemoved(byName: map<string, FileAttrs>, indexTag: map<string, seq<string>>, name: string, tag: string)
    requires TagsOk(byName, indexTag)
    ensures TagsOk(WithoutTag(byName, name, tag), DropName(indexTag, tag, name))
  {
    hide Unique, DropName, Listed;
    DropNameListed(indexTag, tag, name);
  }

  lemma KvRemoved(byName: map<string, FileAttrs>, indexKv: map<(string, string), seq<string>>, name: string, key: string)
    requires KvOk(byName, indexKv) && name in byName && key in byName[name].kv
    ensures KvOk(WithoutKey(byName, name, key), DropName(indexKv, (key, byName[name].kv[key]), name))
  {
    hide Unique, DropName, Listed;
    var index2, byName2 := DropName(indexKv, (key, byName[name].kv[key]), name), WithoutKey(byName, name, key);
    DropNameListed(indexKv, (key, byName[name].kv[key]), name);
    forall k, v, n
      ensures n in Listed(index2, (k, v)) <==> n in byName2 && k in byName2[n].kv && byName2[n].kv[k] == v
    {
      assert n in Listed(indexKv, (k, v)) <==> n in byName && k in byName[n].kv && byName[n].kv[k] == v;
    }
  }

  /** The index of pairs, with those of file `name` left for the given keys only. */
  ghost predicate KvPartly(byName: map<string, FileAttrs>, indexKv: map<(string, string), seq<string>>, name: string, keys: set<string>) {
    && (forall k, v, n :: n in Listed(indexKv, (k, v)) <==>
          n in byName && k in byName[n].kv && byName[n].kv[k] == v && (n == name ==> k in keys))
    && (forall p :: p in indexKv ==> Unique(indexKv[p]))
  }

  /** The index of tags, with those of file `name` left for the given tags only. */
  ghost predicate TagsPartly(byName: map<string, FileAttrs>, indexTag: map<string, seq<string>>, name: string, tags: seq<string>) {
    && Unique(tags)
    && (forall t, n :: n in Listed(indexTag, t) <==> n in byName && t in byName[n].tags && (n == name ==> t in tags))
    && (forall t :: t in indexTag ==> Unique(indexTag[t]))
  }

  lemma StartRemoving(byName: map<string, FileAttrs>, indexKv: map<(string, string), seq<string>>, indexTag: map<string, seq<string>>, name: string)
    requires TagsOk(byName, indexTag) && KvOk(byName, indexKv) && TagsUnique(byName) && name in byName
    ensures KvPartly(byName, indexKv, name, byName[name].kv.Keys) && TagsPartly(byName, indexTag, name, byName[name].tags)
  {
    hide Unique, Listed;
  }

  lemma KeyGone(byName: map<string, FileAttrs>, indexKv: map<(string, string), seq<string>>, name: string, keys: set<string>, key: string)
    requires name in byName && key in keys && key in byName[name].kv && KvPartly(byName, indexKv, name, keys)
    ensures KvPartly(byName, DropName(indexKv, (key, byName[name].kv[key]), name), name, keys - {key})
  {
    hide Unique, DropName, Listed;
    var index2 := DropName(indexKv, (key, byName[name].kv[key]), name);
    DropNameListed(indexKv, (key, byName[name].kv[key]), name);
    forall k, v, n
      ensures n in Listed(index2, (k, v)) <==>
              n in byName && k in byName[n].kv && byName[n].kv[k] == v && (n == name ==> k in keys - {key})
    {
      assert n in Listed(indexKv, (k, v)) <==>
        n in byName && k in byName[n].kv && byName[n].kv[k] == v && (n == name ==> k in keys);
    }
  }

  lemma TagGone(byName: map<string, FileAttrs>, indexTag: map<string, seq<string>>, name: string, tags: seq<string>)
    requires tags != [] && TagsPartly(byName, indexTag, name, tags)
    ensures TagsPartly(byName, DropName(indexTag, tags[0], name), name, tags[1..])
  {
    assert Unique(tags[1..]) && tags[0] !in tags[1..];
    assert forall t :: t in tags <==> t == tags[0] || t in tags[1..];
    hide Unique, DropName, Listed;
    DropNameListed(indexTag, tags[0], name);
  }

  lemma EndRemoving(byName: map<string, FileAttrs>, indexKv: map<(string, string), seq<string>>, indexTag: map<string, seq<string>>, name: string)
    requires KvPartly(byName, indexKv, name, {}) && TagsPartly(byName, indexTag, name, []) && TagsUnique(byName)
    ensures TagsOk(byName - {name}, indexTag) && KvOk(byName - {name}, indexKv) && TagsUnique(byName - {name})
  {
    hide Unique, Listed;
    var byName2 := byName - {name};
    forall t, n
      ensures n in Listed(indexTag, t) <==> n in byName2 && t in byName2[n].tags
    {
      assert n in Listed(indexTag, t) <==> n in byName && t in byName[n].tags && n != name;
    }
    forall k, v, n
      ensures n in Listed(indexKv, (k, v)) <==> n in byName2 && k in byName2[n].kv && byName2[n].kv[k] == v
    {
      assert n in Listed(indexKv, (k, v)) <==> n in byName && k in byName[n].kv && byName[n].kv[k] == v && n != name;
    }
  }

  lemma TagAdded(byName: map<string, FileAttrs>, indexTag: map<string, seq<string>>, name: string, tag: string)
    requires TagsOk(byName, indexTag)
    ensures TagsOk(byName[name := AttrsOf(byName, name).(tags := WithName(AttrsOf(byName, name).tags, tag))],
                   indexTag[tag := WithName(Listed(indexTag, tag), name)])
  {
    var byName2 := byName[name := AttrsOf(byName, name).(tags := WithName(AttrsOf(byName, name).tags, tag))];
    var index2 := indexTag[tag := WithName(Listed(indexTag, tag), name)];
    assert Unique(Listed(indexTag, tag));
    hide Unique;
    forall t, n
      ensures n in Listed(index2, t) <==> n in byName2 && t in byName2[n].tags
    {
      assert n in Listed(indexTag, t) <==> n in byName && t in byName[n].tags;
    }
  }

  lemma KvSet(byName: map<string, FileAttrs>, indexKv: map<(string, string), seq<string>>, name: string, key: string, value: string)
    requires KvOk(byName, indexKv)
    ensures var attrs := AttrsOf(byName, name);
            var index1 := if key in attrs.kv then Dropped(indexKv, (key, attrs.kv[key]), name) else indexKv;
            KvOk(byName[name := attrs.(kv := attrs.kv[key := value])],
                 index1[(key, value) := WithName(Listed(index1, (key, value)), name)])
  {
    var attrs := AttrsOf(byName, name);
    var index1 := if key in attrs.kv then Dropped(indexKv, (key, attrs.kv[key]), name) else indexKv;
    var byName2 := byName[name := attrs.(kv := attrs.kv[key := value])];
    var index2 := index1[(key, value) := WithName(Listed(index1, (key, value)), name)];
    hide Unique, Listed, Dropped, WithName;
    if key in attrs.kv {
      DroppedListed(indexKv, (key, attrs.kv[key]), name);
    }
    AddedListed(index1, (key, value), name);
    forall k, v, n
      ensures n in Listed(index2, (k, v)) <==> n in byName2 && k in byName2[n].kv && byName2[n].kv[k] == v
    {
      assert n in Listed(indexKv, (k, v)) <==> n in byName && k in byName[n].kv && byName[n].kv[k] == v;
    }
  }

  lemma DroppedListed<K>(index: map<K, seq<string>>, key: K, name: string)
    requires forall p :: p in index ==> Unique(index[p])
    ensures var r := Dropped(index, key, name);
            && (forall p, n :: n in Listed(r, p) <==> n in Listed(index, p) && !(p == key && n == name))
            && (forall p :: p in r ==> Unique(r[p]))
  {
    hide Unique;
  }

  lemma AddedListed<K>(index: map<K, seq<string>>, key: K, name: string)
    requires forall p :: p in index ==> Unique(index[p])
    ensures var r := index[key := WithName(Listed(index, key), name)];
            && (forall p, n :: n in Listed(r, p) <==> n in Listed(index, p) || (p == key && n == name))
            && (forall p :: p in r ==> Unique(r[p]))
  {
    UniqueFacts([], "");
    hide Unique;
  }

  lemma TagsUniqueKept(byName: map<string, FileAttrs>, byName': map<string, FileAttrs>, name: string)
    requires TagsUnique(byName) && name in byName' && byName' == byName[name := byName'[name]]
    requires Unique(byName'[name].tags)
    ensures TagsUnique(byName')
  {
    hide Unique;
  }

  lemma AttrsUnique(store: FileAttrStore, name: string)
    requires store.Valid()
    ensures Unique(store.Attrs(name).tags)
  {
  }

  lemma TagsKept(byName: map<string, FileAttrs>, byName': map<string, FileAttrs>, indexTag: map<string, seq<string>>, name: string)
    requires TagsOk(byName, indexTag) && name in byName'
    requires byName' == byName[name := byName'[name]]
    requires byName'[name].tags == if name in byName then byName[name].tags else []
    ensures TagsOk(byName', indexTag)
  {
    hide Unique;
  }

  lemma KvKept(byName: map<string, FileAttrs>, byName': map<string, FileAttrs>, indexKv: map<(string, string), seq<string>>, name: string)
    requires KvOk(byName, indexKv) && name in byName'
    requires byName' == byName[name := byName'[name]]
    requires byName'[name].kv == if name in byName then byName[name].kv else map[]
    ensures KvOk(byName', indexKv)
  {
    hide Unique;
  }
}
