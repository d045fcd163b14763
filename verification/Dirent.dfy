/** Directory entries, and the table of names that a directory's bytes spell out. */
module Dirents {
  import opened Bytes
  import opened Collections

  const NAME_LENGTH_LIMIT: nat := 27

  type Name = seq<byte>

  /** A name field of 28 bytes, padded with NULs, and an inode number. */
  datatype DirEntry = DirEntry(bytes: seq<byte>, inodeNumber: u32) {
    ghost predicate WellFormed() { |bytes| == 28 }
  }

  function NewEntry(name: Name, inodeNumber: u32): (e: DirEntry)
    requires |name| <= 28
    ensures e.WellFormed() && e.inodeNumber == inodeNumber
  {
    DirEntry(Splice(Zeros(28), 0, name), inodeNumber)
  }

  function AsBytes(e: DirEntry): (s: seq<byte>)
    requires e.WellFormed()
    ensures |s| == 32
  {
    e.bytes + ToLe(e.inodeNumber, 4)
  }

  function FromBytes(s: seq<byte>): (e: DirEntry)
    requires |s| == 32
    ensures e.WellFormed()
  {
    Pow256Values();
    FromLeBound(s[28..]);
    DirEntry(s[..28], FromLe(s[28..]))
  }

  /** Position of the first NUL, or the length when there is none. */
  function NulAt(s: seq<byte>): (n: nat)
    ensures n <= |s| && (n < |s| ==> s[n] == 0)
    ensures forall i :: 0 <= i < n ==> s[i] != 0
  {
    if s == [] || s[0] == 0 then 0 else 1 + NulAt(s[1..])
  }

  /** The name of an entry, up to its first NUL; None where the search for one runs off the field. */
  function NameOf(e: DirEntry): Option<Name> {
    var len := NulAt(e.bytes);
    if len < |e.bytes| then Some(e.bytes[..len]) else None
  }

  predicate ValidName(name: Name) {
    |name| <= NAME_LENGTH_LIMIT && 0 !in name
  }

  /** An entry survives the trip to its 32 bytes and back. */
  lemma EntryBytesRoundTrip(e: DirEntry)
    requires e.WellFormed()
    ensures FromBytes(AsBytes(e)) == e
  {
    Pow256Values();
    FromLeToLe(e.inodeNumber, 4);
    assert AsBytes(e)[28..] == ToLe(e.inodeNumber, 4);
  }

  /** Of the names that fit the field, exactly those of at most 27 bytes without a NUL can be read back. */
  lemma NameRoundTrip(name: Name, inodeNumber: u32)
    requires |name| <= 28
    ensures NameOf(NewEntry(name, inodeNumber)) == Some(name) <==> ValidName(name)
  {
    var bytes := NewEntry(name, inodeNumber).bytes;
    var n := NulAt(bytes);
    assert forall i :: 0 <= i < 28 ==> bytes[i] == if i < |name| then name[i] else 0;
    assert forall i :: 0 <= i < n ==> bytes[..n][i] != 0;
    if ValidName(name) {
      assert bytes[|name|] == 0;
      assert forall i :: 0 <= i < |name| ==> bytes[i] == name[i] && name[i] in name;
      assert n == |name| && bytes[..n] == name;
    }
  }

  // ---------- a directory's bytes as a list of entries

  function EntryAt(s: seq<byte>, k: nat): DirEntry
    requires 32 * k + 32 <= |s|
  {
    FromBytes(s[32 * k..32 * k + 32])
  }

  function Entries(s: seq<byte>): (es: seq<DirEntry>)
    ensures |es| == |s| / 32
    ensures forall k :: 0 <= k < |es| ==> es[k] == EntryAt(s, k)
  {
    seq(|s| / 32, k requires 0 <= k < |s| / 32 => EntryAt(s, k))
  }

  lemma EntriesAppend(s: seq<byte>, e: DirEntry)
    requires |s| % 32 == 0 && e.WellFormed()
    ensures Entries(s + AsBytes(e)) == Entries(s) + [e]
  {
    var t := s + AsBytes(e);
    EntryBytesRoundTrip(e);
    forall k | 0 <= k < |t| / 32
      ensures EntryAt(t, k) == (Entries(s) + [e])[k]
    {
      if k < |s| / 32 {
        assert t[32 * k..32 * k + 32] == s[32 * k..32 * k + 32];
      } else {
        assert t[32 * k..32 * k + 32] == AsBytes(e);
      }
    }
  }

  /** The names of a directory and the inodes they stand for. */
  function Names(es: seq<DirEntry>): (m: map<Name, u32>) {
    if es == [] then map[]
    else
      var m, e := Names(es[..|es| - 1]), es[|es| - 1];
      if NameOf(e).Some? then m[NameOf(e).value := e.inodeNumber] else m
  }

  /** Every entry can be read, and no two have the same name or the same inode. */
  ghost predicate Distinct(es: seq<DirEntry>) {
    && (forall k :: 0 <= k < |es| ==> NameOf(es[k]).Some?)
    && (forall j, k :: 0 <= j < k < |es| ==> NameOf(es[j]) != NameOf(es[k]))
    && (forall j, k :: 0 <= j < k < |es| ==> es[j].inodeNumber != es[k].inodeNumber)
  }

  ghost predicate Lists(es: seq<DirEntry>, name: Name, id: u32) {
    exists k :: 0 <= k < |es| && NameOf(es[k]) == Some(name) && es[k].inodeNumber == id
  }

  /** The table says what the entries say. */
  lemma {:induction false} NamesListed(es: seq<DirEntry>)
    requires Distinct(es)
    ensures |Names(es)| == |es|
    ensures forall name, id :: name in Names(es) && Names(es)[name] == id <==> Lists(es, name, id)
  {
    if es != [] {
      hide Lists, NameOf, Distinct;
      var n := |es| - 1;
      var rest, e := es[..n], es[n];
      LastIsNew(es);
      NamesListed(rest);
      assert es == rest + [e];
      NamesSnoc(rest, e);
      hide Names;
      assert forall name :: name in Names(rest) ==> Lists(rest, name, Names(rest)[name]);
      forall name, id
        ensures name in Names(es) && Names(es)[name] == id <==> Lists(es, name, id)
      {
        ListsSnoc(rest, e, name, id);
      }
    }
  }

  lemma LastIsNew(es: seq<DirEntry>)
    requires Distinct(es) && es != []
    ensures var rest := es[..|es| - 1];
            && Distinct(rest) && NameOf(es[|es| - 1]).Some?
            && forall name, id :: Lists(rest, name, id) ==> Some(name) != NameOf(es[|es| - 1])
  {
  }

  lemma ListsSnoc(rest: seq<DirEntry>, e: DirEntry, name: Name, id: u32)
    ensures Lists(rest + [e], name, id) <==> Lists(rest, name, id) || (NameOf(e) == Some(name) && e.inodeNumber == id)
  {
    var es := rest + [e];
    if Lists(rest, name, id) {
      var k :| 0 <= k < |rest| && NameOf(rest[k]) == Some(name) && rest[k].inodeNumber == id;
      assert es[k] == rest[k];
    }
    assert es[|rest|] == e;
  }

  /** Files of different names have different inodes. */
  lemma NamesInjective(es: seq<DirEntry>, a: Name, b: Name)
    requires Distinct(es) && a in Names(es) && b in Names(es) && Names(es)[a] == Names(es)[b]
    ensures a == b
  {
    NamesListed(es);
    assert Lists(es, a, Names(es)[a]) && Lists(es, b, Names(es)[b]);
  }

  lemma NamesSnoc(es: seq<DirEntry>, e: DirEntry)
    ensures Names(es + [e]) == if NameOf(e).Some? then Names(es)[NameOf(e).value := e.inodeNumber] else Names(es)
  {
    assert (es + [e])[..|es|] == es;
  }
}
