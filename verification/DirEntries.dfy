/** Directories as bytes: records of a name and an inode number, and the map they stand for. */
module DirEntries {
  import opened Common
  import opened RangeCodec
  import opened FileBytes

  const NAME_SIZE: nat := 60 // with the terminating zero
  const ENTRY_SIZE: nat := 64

  datatype Entry = Entry(name: Block, id: nat)

  /** The bytes before the first zero. */
  function CString(s: Block): (r: Block)
    ensures |r| <= |s| && r == s[..|r|] && 0 !in r && (|r| < |s| ==> s[|r|] == 0)
  {
    if s == [] || s[0] == 0 then [] else [s[0]] + CString(s[1..])
  }

  /** What is kept of a name. */
  function Trimmed(name: Block): (r: Block) {
    if |name| < NAME_SIZE then name else name[..NAME_SIZE - 1]
  }

  /** A stored entry: the name filled up with zeros, then the inode number. */
  function EntryBytes(name: Block, id: nat): (rec: Block)
    ensures |rec| == ENTRY_SIZE
  {
    Trimmed(name) + Zeros(NAME_SIZE - |Trimmed(name)|) + Bytes32(id)
  }

  function EntryOf(rec: Block): (e: Entry)
    requires |rec| == ENTRY_SIZE
  {
    Entry(CString(rec[..NAME_SIZE]), Num32(rec[NAME_SIZE..]))
  }

  lemma {:induction false} CStringPadded(name: Block, n: nat)
    requires 0 !in name
    ensures CString(name + Zeros(n)) == name
  {
    if name != [] {
      CStringPadded(name[1..], n);
      assert (name + Zeros(n))[1..] == name[1..] + Zeros(n);
    }
  }

  /** Where a stored entry has its name, filled up with zeros, and its number. */
  lemma EntryLayout(name: Block, id: nat)
    requires id < U32
    ensures var rec, kept := EntryBytes(name, id), |Trimmed(name)|;
            && kept == (if |name| < NAME_SIZE then |name| else 59) && rec[..kept] == name[..kept]
            && rec[kept..NAME_SIZE] == Zeros(NAME_SIZE - kept) && Little(rec[NAME_SIZE..]) == id
  {
    hide Bytes32, Little;
    LittleEndian(id);
    assert EntryBytes(name, id)[NAME_SIZE..] == Bytes32(id);
  }

  /** A stored entry reads back, with its name cut to 59 bytes. */
  lemma EntryRoundTrip(name: Block, id: nat)
    requires 0 !in name && id < U32
    ensures EntryOf(EntryBytes(name, id)) == Entry(Trimmed(name), id)
  {
    hide CString, Num32, Bytes32, Zeros;
    var rec, n := EntryBytes(name, id), NAME_SIZE - |Trimmed(name)|;
    CStringPadded(Trimmed(name), n);
    RoundTrip32(id);
    assert rec[..NAME_SIZE] == Trimmed(name) + Zeros(n);
    assert rec[NAME_SIZE..] == Bytes32(id);
  }

  /** Record k. */
  function Record(c: Block, k: nat): (rec: Block)
    requires k < |c| / ENTRY_SIZE
    ensures |rec| == ENTRY_SIZE
  {
    c[ENTRY_SIZE * k..ENTRY_SIZE * k + ENTRY_SIZE]
  }

  /** The entries of a directory, by its bytes. A part of a record at the end is ignored. */
  function Entries(c: Block): (es: seq<Entry>)
    ensures |es| == |c| / ENTRY_SIZE && forall k :: 0 <= k < |es| ==> es[k] == EntryOf(Record(c, k))
  {
    seq(|c| / ENTRY_SIZE, k requires 0 <= k < |c| / ENTRY_SIZE => EntryOf(Record(c, k)))
  }

  /** Writing a record over record k replaces that entry only. */
  lemma EntryReplaced(c: Block, k: nat, rec: Block)
    requires k < |c| / ENTRY_SIZE && |rec| == ENTRY_SIZE
    ensures Entries(Overwrite(c, ENTRY_SIZE * k, rec)) == Entries(c)[k := EntryOf(rec)]
  {
    hide EntryOf;
    var d := Overwrite(c, ENTRY_SIZE * k, rec);
    forall j | 0 <= j < |c| / ENTRY_SIZE
      ensures Record(d, j) == if j == k then rec else Record(c, j)
    {
    }
  }

  /** Writing a record after the last one adds an entry. */
  lemma EntryAppended(c: Block, rec: Block)
    requires |rec| == ENTRY_SIZE
    ensures Entries(Overwrite(c, ENTRY_SIZE * (|c| / ENTRY_SIZE), rec)) == Entries(c) + [EntryOf(rec)]
  {
    hide EntryOf;
    var n := |c| / ENTRY_SIZE;
    var d := Overwrite(c, ENTRY_SIZE * n, rec);
    forall j | 0 <= j < n + 1
      ensures Record(d, j) == if j == n then rec else Record(c, j)
    {
    }
  }

  /** Writing less than a record after the last one changes nothing. */
  lemma EntryCutShort(c: Block, part: Block)
    requires |part| < ENTRY_SIZE
    ensures Entries(Overwrite(c, ENTRY_SIZE * (|c| / ENTRY_SIZE), part)) == Entries(c)
  {
    hide EntryOf;
    var n := |c| / ENTRY_SIZE;
    var d := Overwrite(c, ENTRY_SIZE * n, part);
    forall j | 0 <= j < n
      ensures Record(d, j) == Record(c, j)
    {
    }
  }

  /** Cutting the bytes cuts the entries. */
  lemma EntriesCut(c: Block, k: nat)
    requires k <= |c| / ENTRY_SIZE
    ensures Entries(c[..ENTRY_SIZE * k]) == Entries(c)[..k]
  {
    hide EntryOf;
    forall j | 0 <= j < k
      ensures Record(c[..ENTRY_SIZE * k], j) == Record(c, j)
    {
    }
  }

  /** No two entries share a name; the entries with an empty name are deleted ones. */
  ghost predicate Unique(es: seq<Entry>) {
    forall i, j :: 0 <= i < j < |es| && es[i].name == es[j].name ==> es[i].name == []
  }

  ghost predicate Absent(es: seq<Entry>, name: Block) {
    forall i :: 0 <= i < |es| ==> es[i].name != name
  }

  /** The map a directory stands for. */
  ghost function Names(es: seq<Entry>): (m: map<Block, nat>) {
    if es == [] then map[]
    else
      var e, m := es[|es| - 1], Names(es[..|es| - 1]);
      if e.name == [] then m else m[e.name := e.id]
  }

  lemma NamedSomewhere(es: seq<Entry>, name: Block, k: nat)
    requires k < |es| && es[k].name == name
    ensures !Absent(es, name)
  {
  }

  lemma Place(es: seq<Entry>, name: Block) returns (k: nat)
    requires !Absent(es, name)
    ensures k < |es| && es[k].name == name
  {
    k :| k < |es| && es[k].name == name;
  }

  lemma {:induction false} NamesIs(es: seq<Entry>)
    requires Unique(es)
    ensures forall k :: 0 <= k < |es| && es[k].name != [] ==>
              es[k].name in Names(es) && Names(es)[es[k].name] == es[k].id
    ensures forall n :: n in Names(es) ==> n != [] && !Absent(es, n)
  {
    if es != [] {
      var front := es[..|es| - 1];
      NamesIs(front);
      forall n | n in Names(es)
        ensures n != [] && !Absent(es, n)
      {
        if n != [] && n == es[|es| - 1].name {
          NamedSomewhere(es, n, |es| - 1);
        } else {
          assert n in Names(front);
          var k := Place(front, n);
          NamedSomewhere(es, n, k);
        }
      }
    }
  }

  /** Looking a name up in the entries is looking it up in the map. */
  lemma NamesLookup(es: seq<Entry>, name: Block)
    requires Unique(es) && name != []
    ensures name in Names(es) <==> !Absent(es, name)
    ensures forall k :: 0 <= k < |es| && es[k].name == name ==> name in Names(es) && Names(es)[name] == es[k].id
  {
    NamesIs(es);
  }

  /** Adding an entry keeps names unique exactly when its name, as stored, is a new one. */
  lemma UniqueAppend(es: seq<Entry>, e: Entry)
    requires Unique(es)
    ensures Unique(es + [e]) <==> e.name == [] || Absent(es, e.name)
    ensures e.name != [] ==> Names(es + [e]) == Names(es)[e.name := e.id]
  {
    var all := es + [e];
    assert all[..|es|] == es;
    if Unique(all) && e.name != [] {
      forall i | 0 <= i < |es|
        ensures es[i].name != e.name
      {
        assert all[i] == es[i] && all[|es|] == e;
      }
    }
  }

  /** No entry but entry k has the name. */
  ghost predicate AbsentBut(es: seq<Entry>, k: nat, name: Block) {
    forall i :: 0 <= i < |es| && i != k ==> es[i].name != name
  }

  lemma PlaceTaken(es: seq<Entry>, k: nat, e: Entry)
    requires Unique(es) && k < |es|
    ensures Unique(es[k := e]) <==> e.name == [] || AbsentBut(es, k, e.name)
  {
    var new' := es[k := e];
    if Unique(new') && e.name != [] {
      forall i | 0 <= i < |es| && i != k
        ensures es[i].name != e.name
      {
        assert new'[i] == es[i] && new'[k] == e;
      }
    }
  }

  lemma AbsentFromRest(es: seq<Entry>, k: nat, name: Block)
    requires Unique(es) && k < |es|
    ensures name == [] || AbsentBut(es, k, name) <==> name == [] || name !in Names(es) - {es[k].name}
  {
    hide Names;
    NamesIs(es);
    if name in Names(es) && name != es[k].name {
      var j := Place(es, name);
    }
  }

  lemma NamesAfterReplace(es: seq<Entry>, k: nat, e: Entry)
    requires Unique(es) && k < |es| && Unique(es[k := e])
    ensures Names(es[k := e]) ==
              if e.name == [] then Names(es) - {es[k].name} else (Names(es) - {es[k].name})[e.name := e.id]
  {
    hide Names, Absent;
    var new' := es[k := e];
    NamesIs(es);
    NamesIs(new');
    var want := if e.name == [] then Names(es) - {es[k].name} else (Names(es) - {es[k].name})[e.name := e.id];
    forall n | n in Names(new')
      ensures n in want && want[n] == Names(new')[n]
    {
      var j := Place(new', n);
      assert new'[k] == e;
    }
    forall n | n in want
      ensures n in Names(new')
    {
      if n == e.name {
        assert new'[k].name == n;
      } else {
        var j := Place(es, n);
        assert new'[j].name == n;
      }
    }
  }

  /** Putting another entry in the place of entry k keeps names unique exactly when no other entry has its name. */
  lemma NamesReplace(es: seq<Entry>, k: nat, e: Entry)
    requires Unique(es) && k < |es|
    ensures Unique(es[k := e]) <==> e.name == [] || e.name !in Names(es) - {es[k].name}
    ensures Unique(es[k := e]) && e.name == [] ==> Names(es[k := e]) == Names(es) - {es[k].name}
    ensures Unique(es[k := e]) && e.name != [] ==> Names(es[k := e]) == (Names(es) - {es[k].name})[e.name := e.id]
  {
    hide Names, Absent, AbsentBut, Unique;
    PlaceTaken(es, k, e);
    AbsentFromRest(es, k, e.name);
    if Unique(es[k := e]) {
      NamesAfterReplace(es, k, e);
    }
  }

  lemma LastIsNew(es: seq<Entry>)
    requires Unique(es) && es != []
    ensures Unique(es[..|es| - 1])
    ensures es[|es| - 1].name == [] || Absent(es[..|es| - 1], es[|es| - 1].name)
  {
  }

  lemma NoEmptyName(es: seq<Entry>)
    requires Unique(es)
    ensures [] !in Names(es) && forall n :: n in Names(es) ==> !Absent(es, n)
  {
    NamesIs(es);
  }

  /** Dropping the last entry. */
  lemma NamesCut(es: seq<Entry>)
    requires Unique(es) && es != []
    ensures Unique(es[..|es| - 1]) && Names(es[..|es| - 1]) == Names(es) - {es[|es| - 1].name}
  {
    hide Absent, Unique;
    var front, last := es[..|es| - 1], es[|es| - 1];
    LastIsNew(es);
    NoEmptyName(front);
    assert last.name !in Names(front);
  }

  /** A name of up to 59 bytes that no entry has is still new when stored. */
  lemma ShortNameStaysNew(es: seq<Entry>, name: Block, id: nat)
    requires Unique(es) && Absent(es, name) && |name| < NAME_SIZE
    ensures Unique(es + [Entry(Trimmed(name), id)])
  {
    UniqueAppend(es, Entry(Trimmed(name), id));
  }

  /**
   * Two names of 60 bytes that differ in the last one only: the second is not found, and adding it doubles the first.
   */
  lemma LongNamesCollide(id: nat, id': nat)
    ensures var a, b := seq(NAME_SIZE, _ => 97 as Byte), seq(NAME_SIZE - 1, _ => 97 as Byte) + [98 as Byte];
            var es := [Entry(Trimmed(a), id)];
            a != b && Unique(es) && Absent(es, b) && !Unique(es + [Entry(Trimmed(b), id')])
  {
    var a, b := seq(NAME_SIZE, _ => 97 as Byte), seq(NAME_SIZE - 1, _ => 97 as Byte) + [98 as Byte];
    var es := [Entry(Trimmed(a), id)];
    assert a[NAME_SIZE - 1] != b[NAME_SIZE - 1];
    assert Trimmed(a) == Trimmed(b);
    var e := Entry(Trimmed(b), id');
    UniqueAppend(es, e);
    assert es[0].name == e.name && |e.name| == NAME_SIZE - 1;
  }
}
