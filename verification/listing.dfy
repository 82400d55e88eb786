/** Directory listings: the order they are sorted in, and their wire form. */
module Listing {
  import opened Bytes
  import opened Packets
  import opened Paths
  import opened FileSystem

  datatype DirectoryEntry = DirectoryEntry(name: Str, isDirectory: bool, size: uint64, modifiedTime: uint64)

  // ---- order ----

  /** operator< of std::string */
  predicate NameLess(a: Str, b: Str) {
    b != [] && (a == [] || a[0] < b[0] || (a[0] == b[0] && NameLess(a[1..], b[1..])))
  }

  /** Directories first, then by name. */
  predicate Less(a: DirectoryEntry, b: DirectoryEntry) {
    if a.isDirectory != b.isDirectory then a.isDirectory else NameLess(a.name, b.name)
  }

  lemma {:induction false} NameLessIsStrictTotal(a: Str, b: Str, c: Str)
    ensures !NameLess(a, a)
    ensures a != b ==> NameLess(a, b) || NameLess(b, a)
    ensures NameLess(a, b) && NameLess(b, c) ==> NameLess(a, c)
  {
    if a != [] && b != [] && c != [] {
      NameLessIsStrictTotal(a[1..], b[1..], c[1..]);
      assert a == [a[0]] + a[1..] && b == [b[0]] + b[1..];
    } else if a != [] && b != [] {
      NameLessIsStrictTotal(a[1..], b[1..], []);
      assert a == [a[0]] + a[1..] && b == [b[0]] + b[1..];
    } else if a != [] {
      NameLessIsStrictTotal(a[1..], [], []);
    }
  }

  /** Byte strings are compared at the first byte where they differ; a proper prefix comes first. */
  lemma {:induction false} NameLessIsLexicographic(a: Str, b: Str)
    ensures NameLess(a, b) <==>
            (a < b || exists k | 0 <= k < |a| && k < |b| :: a[..k] == b[..k] && a[k] < b[k])
  {
    if a != [] && b != [] {
      NameLessIsLexicographic(a[1..], b[1..]);
      assert a == [a[0]] + a[1..] && b == [b[0]] + b[1..];
      if a[0] == b[0] {
        if k :| 0 <= k < |a[1..]| && k < |b[1..]| && a[1..][..k] == b[1..][..k] && a[1..][k] < b[1..][k] {
          assert a[..k + 1] == [a[0]] + a[1..][..k] && b[..k + 1] == [b[0]] + b[1..][..k];
          assert a[k + 1] < b[k + 1];
        }
        if k :| 0 <= k < |a| && k < |b| && a[..k] == b[..k] && a[k] < b[k] {
          assert k > 0;
          assert a[1..][..k - 1] == a[..k][1..] && b[1..][..k - 1] == b[..k][1..];
          assert a[1..][k - 1] < b[1..][k - 1];
        }
      } else if a[0] < b[0] {
        assert a[..0] == b[..0];
      } else {
        assert forall k | 0 < k <= |a| && k <= |b| :: a[..k][0] != b[..k][0];
      }
    } else if a == [] && b != [] {
      assert a < b;
    }
  }

  predicate Sorted(es: seq<DirectoryEntry>) {
    forall i, j | 0 <= i < j < |es| :: Less(es[i], es[j])
  }

  /** What the order means for a listing: directories in front of files, and each of the two by name. */
  lemma SortedMeansDirectoriesFirst(es: seq<DirectoryEntry>, i: nat, j: nat)
    requires Sorted(es) && i < j < |es|
    ensures es[j].isDirectory ==> es[i].isDirectory
    ensures es[i].isDirectory == es[j].isDirectory ==> NameLess(es[i].name, es[j].name)
  {
    assert Less(es[i], es[j]);
  }

  /** The comparator is a strict total order on entries with distinct names. */
  lemma LessIsStrictTotal(a: DirectoryEntry, b: DirectoryEntry, c: DirectoryEntry)
    ensures !Less(a, a)
    ensures a.name != b.name ==> Less(a, b) || Less(b, a)
    ensures Less(a, b) && Less(b, c) ==> Less(a, c)
  {
    NameLessIsStrictTotal(a.name, b.name, c.name);
  }

  predicate DistinctNames(es: seq<DirectoryEntry>) {
    forall i, j | 0 <= i < j < |es| :: es[i].name != es[j].name
  }

  function Insert(e: DirectoryEntry, es: seq<DirectoryEntry>): seq<DirectoryEntry> {
    if es == [] || !Less(es[0], e) then [e] + es else [es[0]] + Insert(e, es[1..])
  }

  /** Stands for std::sort: by SortedPermutationIsUnique, any sort with this comparator gives the same. */
  function Sort(es: seq<DirectoryEntry>): seq<DirectoryEntry> {
    if es == [] then [] else Insert(es[0], Sort(es[1..]))
  }

  lemma {:induction false} InsertSorts(e: DirectoryEntry, es: seq<DirectoryEntry>)
    requires Sorted(es) && forall x | x in es :: x.name != e.name
    ensures Sorted(Insert(e, es))
    ensures multiset(Insert(e, es)) == multiset(es) + multiset{e}
  {
    if es == [] {
    } else if !Less(es[0], e) {
      forall i | 0 <= i < |es|
        ensures Less(e, es[i])
      {
        LessIsStrictTotal(es[0], e, e);
        LessIsStrictTotal(e, es[0], es[i]);
      }
    } else {
      InsertSorts(e, es[1..]);
      assert es == [es[0]] + es[1..];
      forall x | x in Insert(e, es[1..])
        ensures Less(es[0], x)
      {
        assert x in multiset(Insert(e, es[1..]));
        assert x == e || x in es[1..];
      }
    }
  }

  lemma {:induction false} SortSorts(es: seq<DirectoryEntry>)
    requires DistinctNames(es)
    ensures Sorted(Sort(es)) && multiset(Sort(es)) == multiset(es)
  {
    if es != [] {
      SortSorts(es[1..]);
      TailMultiset(es);
      forall x | x in Sort(es[1..])
        ensures x.name != es[0].name
      {
        SameMembers(Sort(es[1..]), es[1..], x);
      }
      InsertSorts(es[0], Sort(es[1..]));
    }
  }

  lemma SameMembers<T>(xs: seq<T>, ys: seq<T>, x: T)
    requires multiset(xs) == multiset(ys) && x in xs
    ensures x in ys
  {
    assert x in multiset(xs);
  }

  lemma HeadIsLeast(xs: seq<DirectoryEntry>, y: DirectoryEntry)
    requires Sorted(xs) && y in xs
    ensures y == xs[0] || Less(xs[0], y)
  {
  }

  lemma HeadsAgree(xs: seq<DirectoryEntry>, ys: seq<DirectoryEntry>)
    requires Sorted(xs) && Sorted(ys) && xs != [] && ys != [] && multiset(xs) == multiset(ys)
    ensures xs[0] == ys[0]
  {
    assert xs[0] in multiset(ys) && ys[0] in multiset(xs);
    HeadIsLeast(xs, ys[0]);
    HeadIsLeast(ys, xs[0]);
    LessIsStrictTotal(xs[0], ys[0], xs[0]);
  }

  lemma TailMultiset<T>(xs: seq<T>)
    requires xs != []
    ensures multiset(xs[1..]) == multiset(xs) - multiset{xs[0]}
  {
    assert xs == [xs[0]] + xs[1..];
  }

  /** There is one ordered permutation. */
  lemma {:induction false} SortedPermutationIsUnique(xs: seq<DirectoryEntry>, ys: seq<DirectoryEntry>)
    requires Sorted(xs) && Sorted(ys) && multiset(xs) == multiset(ys)
    ensures xs == ys
  {
    assert |multiset(xs)| == |xs| && |multiset(ys)| == |ys|;
    if xs != [] {
      HeadsAgree(xs, ys);
      TailMultiset(xs);
      TailMultiset(ys);
      SortedPermutationIsUnique(xs[1..], ys[1..]);
      assert xs == [xs[0]] + xs[1..] && ys == [ys[0]] + ys[1..];
    }
  }

  /** What the listing says about one directory entry; the time stamp comes from outside. */
  function EntryOf(fs: FS, dir: Path, name: Str, clock: Path -> uint64): DirectoryEntry {
    var p := dir + [name];
    if IsDir(fs, p) then DirectoryEntry(name, true, 0, clock(p))
    else DirectoryEntry(name, false, |Content(fs, if IsFile(fs, p) then fs.tree[p].ino else 0)| % U64, clock(p))
  }

  function Entries(fs: FS, dir: Path, order: seq<Str>, clock: Path -> uint64): seq<DirectoryEntry> {
    seq(|order|, i requires 0 <= i < |order| => EntryOf(fs, dir, order[i], clock))
  }

  /** order is one of the orders in which directory_iterator can visit the directory. */
  ghost predicate Visits(fs: FS, dir: Path, order: seq<Str>) {
    && (forall i, j | 0 <= i < j < |order| :: order[i] != order[j])
    && (forall name :: name in order <==> dir + [name] in fs.tree)
  }

  /** The entry tells what the tree holds at p: a directory of size 0, or a file with its size; and the time stamp. */
  ghost predicate IsEntryAt(fs: FS, p: Path, e: DirectoryEntry, clock: Path -> uint64) {
    && p in fs.tree
    && e.modifiedTime == clock(p)
    && match fs.tree[p]
       case Dir => e.isDirectory && e.size == 0
       case File(ino) => !e.isDirectory && e.size == |Content(fs, ino)| % U64
  }

  /** Whatever order the directory is visited in, the listing is the same. */
  lemma ListingIgnoresVisitOrder(fs: FS, dir: Path, xs: seq<Str>, ys: seq<Str>, clock: Path -> uint64)
    requires Visits(fs, dir, xs) && Visits(fs, dir, ys)
    ensures Sorted(Sort(Entries(fs, dir, xs, clock)))
    ensures Sort(Entries(fs, dir, xs, clock)) == Sort(Entries(fs, dir, ys, clock))
  {
    SameEntries(fs, dir, xs, ys, clock);
    SortSorts(Entries(fs, dir, xs, clock));
    SortSorts(Entries(fs, dir, ys, clock));
    SortedPermutationIsUnique(Sort(Entries(fs, dir, xs, clock)), Sort(Entries(fs, dir, ys, clock)));
  }

  /** The listing holds one entry for each name in the directory, with what the tree says about it, and nothing else. */
  lemma ListingIsTheDirectory(fs: FS, dir: Path, order: seq<Str>, clock: Path -> uint64, e: DirectoryEntry)
    requires Visits(fs, dir, order)
    ensures var es := Sort(Entries(fs, dir, order, clock));
      && |es| == |order| && DistinctNames(es)
      && (e in es <==> IsEntryAt(fs, dir + [e.name], e, clock))
  {
    var es := Entries(fs, dir, order, clock);
    SortSorts(es);
    EntriesByName(fs, dir, order, clock, e);
    assert e in es <==> e in multiset(es);
    assert e in Sort(es) <==> e in multiset(Sort(es));
    assert |multiset(es)| == |es| && |multiset(Sort(es))| == |Sort(es)|;
    SortKeepsNamesDistinct(es);
  }

  lemma SortKeepsNamesDistinct(es: seq<DirectoryEntry>)
    requires DistinctNames(es)
    ensures DistinctNames(Sort(es))
  {
    SortSorts(es);
    var sorted := Sort(es);
    forall i, j | 0 <= i < j < |sorted|
      ensures sorted[i].name != sorted[j].name
    {
      SameMembers(sorted, es, sorted[i]);
      SameMembers(sorted, es, sorted[j]);
      LessIsStrictTotal(sorted[i], sorted[j], sorted[i]);
    }
  }

  lemma SameEntries(fs: FS, dir: Path, xs: seq<Str>, ys: seq<Str>, clock: Path -> uint64)
    requires Visits(fs, dir, xs) && Visits(fs, dir, ys)
    ensures DistinctNames(Entries(fs, dir, xs, clock)) && DistinctNames(Entries(fs, dir, ys, clock))
    ensures multiset(Entries(fs, dir, xs, clock)) == multiset(Entries(fs, dir, ys, clock))
  {
    var ex, ey := Entries(fs, dir, xs, clock), Entries(fs, dir, ys, clock);
    forall e
      ensures e in ex <==> e in ey
    {
      EntriesByName(fs, dir, xs, clock, e);
      EntriesByName(fs, dir, ys, clock, e);
      assert dir + [e.name] in fs.tree <==> e.name in xs;
    }
    DistinctIsMultiset(ex, ey);
  }

  lemma EntriesByName(fs: FS, dir: Path, order: seq<Str>, clock: Path -> uint64, e: DirectoryEntry)
    ensures e in Entries(fs, dir, order, clock) <==> e.name in order && e == EntryOf(fs, dir, e.name, clock)
  {
    var es := Entries(fs, dir, order, clock);
    if e.name in order {
      var i :| 0 <= i < |order| && order[i] == e.name;
      assert es[i] == EntryOf(fs, dir, e.name, clock);
    }
  }

  lemma DistinctIsMultiset<T>(xs: seq<T>, ys: seq<T>)
    requires forall i, j | 0 <= i < j < |xs| :: xs[i] != xs[j]
    requires forall i, j | 0 <= i < j < |ys| :: ys[i] != ys[j]
    requires forall s :: s in xs <==> s in ys
    ensures multiset(xs) == multiset(ys)
  {
    forall s
      ensures multiset(xs)[s] == multiset(ys)[s]
    {
      CountInDistinct(xs, s);
      CountInDistinct(ys, s);
    }
  }

  lemma {:induction false} CountInDistinct<T>(xs: seq<T>, s: T)
    requires forall i, j | 0 <= i < j < |xs| :: xs[i] != xs[j]
    ensures multiset(xs)[s] == if s in xs then 1 else 0
  {
    if xs != [] {
      assert xs == [xs[0]] + xs[1..];
      CountInDistinct(xs[1..], s);
    }
  }

  /** FileService::listDirectory behind its existence check: collect in visiting order, then sort. */
  method CollectAndSort(fs: FS, dir: Path, order: seq<Str>,
                        clock: Path -> uint64) returns (entries: seq<DirectoryEntry>)
    ensures entries == Sort(Entries(fs, dir, order, clock))
    ensures Visits(fs, dir, order) ==> Sorted(entries) && DistinctNames(entries)
    ensures Visits(fs, dir, order) ==>
      forall e :: e in entries <==> IsEntryAt(fs, dir + [e.name], e, clock)
  {
    entries := [];
    for i := 0 to |order|
      invariant entries == Entries(fs, dir, order[..i], clock)
    {
      var p := dir + [order[i]];
      var isDirectory := IsDir(fs, p);
      var size := 0;
      if !isDirectory {
        size := |Content(fs, if IsFile(fs, p) then fs.tree[p].ino else 0)| % U64;
      }
      entries := entries + [DirectoryEntry(order[i], isDirectory, size, clock(p))];
    }
    assert order[..|order|] == order;
    entries := Sort(entries);
    if Visits(fs, dir, order) {
      ListingIgnoresVisitOrder(fs, dir, order, order, clock);
      forall e {
        ListingIsTheDirectory(fs, dir, order, clock, e);
      }
    }
  }

  // ---- wire form ----

  function EntryBytes(e: DirectoryEntry): seq<byte> {
    ToBE(|e.name| % U16, 2)
    + (e.name + ([if e.isDirectory then 1 else 0] + (ToBE(e.size, 8) + ToBE(e.modifiedTime, 8))))
  }

  /** The wire form of an entry is that of four fields: name, directory flag, size and time. */
  lemma EntryIsFourFields(e: DirectoryEntry)
    ensures EntryBytes(e) == Encode([Text(e.name), Flag(e.isDirectory), Num(e.size), Num(e.modifiedTime)])
  {
    var fs := [Text(e.name), Flag(e.isDirectory), Num(e.size), Num(e.modifiedTime)];
    hide ToBE;
    EncodeSnoc([], fs[0]);
    EncodeSnoc(fs[..1], fs[1]);
    EncodeSnoc(fs[..2], fs[2]);
    EncodeSnoc(fs[..3], fs[3]);
    assert [] + [fs[0]] == fs[..1] && fs[..1] + [fs[1]] == fs[..2];
    assert fs[..2] + [fs[2]] == fs[..3] && fs[..3] + [fs[3]] == fs;
    hide Encode;
    assert Encode([]) + EncodeField(fs[0]) == EncodeField(fs[0]) by { NoFields(); }
    var len, flag := ToBE(|e.name| % U16, 2), [if e.isDirectory then 1 else 0];
    Associate(len, e.name, flag + (ToBE(e.size, 8) + ToBE(e.modifiedTime, 8)));
    Associate(len + e.name, flag, ToBE(e.size, 8) + ToBE(e.modifiedTime, 8));
    Associate(len + e.name + flag, ToBE(e.size, 8), ToBE(e.modifiedTime, 8));
  }

  lemma NoFields()
    ensures Encode([]) == []
  {
  }

  function Body(es: seq<DirectoryEntry>): seq<byte> {
    if es == [] then [] else EntryBytes(es[0]) + Body(es[1..])
  }

  function SerializeEntries(es: seq<DirectoryEntry>): seq<byte> {
    ToBE(Narrow32(|es|), 4) + Body(es)
  }

  /** Name length, name, directory byte, size and time; Bad when the bytes run out. */
  function DecodeEntry(p: seq<byte>): Parse<DirectoryEntry> {
    if |p| < 2 then Bad else
    var n := FromBE(p[..2]);
    if |p| < 2 + n + 1 + 16 then Bad else
    var q := p[2 + n + 1..];
    FromBEBounds(q[..8]);
    FromBEBounds(q[8..16]);
    Good(DirectoryEntry(p[2..2 + n], p[2 + n] == 1, FromBE(q[..8]), FromBE(q[8..16])), q[16..])
  }

  function DecodeEntries(count: nat, p: seq<byte>): Option<seq<DirectoryEntry>> {
    if count == 0 then Some([]) else
    match DecodeEntry(p)
    case Bad => None
    case Good(e, rest) =>
      match DecodeEntries(count - 1, rest)
      case None => None
      case Some(es) => Some([e] + es)
  }

  function DeserializeEntries(p: seq<byte>): Option<seq<DirectoryEntry>> {
    if |p| < 4 then None else DecodeEntries(FromBE(p[..4]), p[4..])
  }

  predicate NamesFit(es: seq<DirectoryEntry>) {
    es == [] || (|es[0].name| < U16 && NamesFit(es[1..]))
  }

  lemma DecodeEntryAt(p: seq<byte>, n: nat, name: Str, flag: byte, q: seq<byte>)
    requires |p| >= 2 && n == FromBE(p[..2]) && |name| == n && |q| >= 16
    requires p[2..] == name + ([flag] + q)
    ensures FromBE(q[..8]) < U64 && FromBE(q[8..16]) < U64
    ensures DecodeEntry(p) == Good(DirectoryEntry(name, flag == 1, FromBE(q[..8]), FromBE(q[8..16])), q[16..])
  {
    FromBEBounds(q[..8]);
    FromBEBounds(q[8..16]);
    var r := p[2..];
    assert p[2..2 + n] == r[..n] == name;
    assert p[2 + n] == r[n] == flag;
    assert p[2 + n + 1..] == r[n + 1..] == q;
  }

  /** An entry with a longer name comes back, if at all, under a shorter one. */
  lemma EntryRoundTrip(e: DirectoryEntry, tail: seq<byte>)
    ensures var d := DecodeEntry(EntryBytes(e) + tail);
      if |e.name| < U16 then d == Good(e, tail) else d.Good? ==> d.value.name != e.name
  {
    hide ToBE, FromBE, Pow256, DecodeEntry;
    Widths();
    var n := |e.name| % U16;
    var p := EntryBytes(e) + tail;
    var numbers := ToBE(e.size, 8) + ToBE(e.modifiedTime, 8);
    var q := numbers + tail;
    var flag: byte := if e.isDirectory then 1 else 0;
    var behind := e.name + ([flag] + q);
    HeadNumber(n, 2, behind);
    assert p == ToBE(n, 2) + behind by {
      Associate(ToBE(n, 2), e.name + ([flag] + numbers), tail);
      Associate(e.name, [flag] + numbers, tail);
      Associate([flag], numbers, tail);
    }
    if |e.name| < U16 {
      NumbersRoundTrip(e.size, e.modifiedTime, tail);
      DecodeEntryAt(p, n, e.name, flag, q);
    } else {
      ShortName(p, n);
    }
  }

  lemma ShortName(p: seq<byte>, n: nat)
    requires |p| >= 2 && n == FromBE(p[..2])
    ensures DecodeEntry(p).Good? ==> |DecodeEntry(p).value.name| == n
  {
  }

  lemma NumbersRoundTrip(a: uint64, b: uint64, tail: seq<byte>)
    ensures var q := ToBE(a, 8) + ToBE(b, 8) + tail;
      FromBE(q[..8]) == a && FromBE(q[8..16]) == b && q[16..] == tail
  {
    Widths();
    var q := ToBE(a, 8) + ToBE(b, 8) + tail;
    FromBEOfToBE(a, 8);
    FromBEOfToBE(b, 8);
    assert q[..8] == ToBE(a, 8) && q[8..16] == ToBE(b, 8);
  }

  lemma {:induction false} DecodeEntriesOfBody(es: seq<DirectoryEntry>, tail: seq<byte>)
    ensures DecodeEntries(|es|, Body(es) + tail) == Some(es) <==> NamesFit(es)
  {
    hide EntryBytes, DecodeEntry;
    if es != [] {
      var tail' := Body(es[1..]) + tail;
      Associate(EntryBytes(es[0]), Body(es[1..]), tail);
      EntryRoundTrip(es[0], tail');
      DecodeEntriesOfBody(es[1..], tail);
      assert es == [es[0]] + es[1..];
      var rec := DecodeEntries(|es| - 1, tail');
      if rec.Some? {
        assert ([es[0]] + rec.value)[1..] == rec.value;
      }
    }
  }

  lemma {:induction false} DecodeEntriesLength(count: nat, p: seq<byte>)
    ensures DecodeEntries(count, p).Some? ==> |DecodeEntries(count, p).value| == count
  {
    if count > 0 && DecodeEntry(p).Good? {
      DecodeEntriesLength(count - 1, DecodeEntry(p).rest);
    }
  }

  lemma DeserializeHead(n: nat, body: seq<byte>)
    requires n < U32
    ensures DeserializeEntries(ToBE(n, 4) + body) == DecodeEntries(n, body)
  {
    Widths();
    HeadNumber(n, 4, body);
  }

  lemma WrongCount(es: seq<DirectoryEntry>, n: nat, p: seq<byte>)
    requires n != |es|
    ensures DecodeEntries(n, p) != Some(es)
  {
    DecodeEntriesLength(n, p);
  }

  lemma RightCount(es: seq<DirectoryEntry>)
    ensures DecodeEntries(|es|, Body(es)) == Some(es) <==> NamesFit(es)
  {
    DecodeEntriesOfBody(es, []);
    assert Body(es) + [] == Body(es);
  }

  /** A listing survives the wire exactly when its names and its length fit their fields. */
  lemma ListingRoundTripsExactly(es: seq<DirectoryEntry>)
    ensures DeserializeEntries(SerializeEntries(es)) == Some(es) <==> |es| < U32 && NamesFit(es)
  {
    var n := Narrow32(|es|);
    DeserializeHead(n, Body(es));
    if n == |es| {
      RightCount(es);
    } else {
      WrongCount(es, n, Body(es));
    }
  }

  lemma {:induction false} BodySnoc(es: seq<DirectoryEntry>, e: DirectoryEntry)
    ensures Body(es + [e]) == Body(es) + EntryBytes(e)
  {
    if es == [] {
      assert [e][1..] == [];
    } else {
      assert (es + [e])[1..] == es[1..] + [e];
      BodySnoc(es[1..], e);
    }
  }

  lemma EmptyBody(es: seq<DirectoryEntry>)
    requires es == []
    ensures Body(es) == []
  {
  }

  /** DirectorySerializer::serialize */
  method SerializeListing(entries: seq<DirectoryEntry>) returns (buffer: seq<byte>)
    ensures buffer == SerializeEntries(entries)
  {
    hide EntryBytes, Body;
    var count := ToBE(Narrow32(|entries|), 4);
    buffer := count;
    EmptyBody(entries[..0]);
    for i := 0 to |entries|
      invariant buffer == count + Body(entries[..i])
    {
      var e := entries[i];
      BodySnoc(entries[..i], e);
      assert entries[..i + 1] == entries[..i] + [e];
      Associate(count, Body(entries[..i]), EntryBytes(e));
      buffer := AppendEntry(buffer, e);
    }
    assert entries[..|entries|] == entries;
  }

  /** The insertions for one entry. */
  method AppendEntry(before: seq<byte>, e: DirectoryEntry) returns (buffer: seq<byte>)
    ensures buffer == before + EntryBytes(e)
  {
    buffer := before + ToBE(|e.name| % U16, 2);
    buffer := buffer + e.name;
    buffer := buffer + [if e.isDirectory then 1 else 0];
    buffer := buffer + ToBE(e.size, 8);
    buffer := buffer + ToBE(e.modifiedTime, 8);
  }

  /** The loop body of deserialize: one entry at offset, with its two size checks. */
  method ReadEntry(data: seq<byte>, offset: nat) returns (ok: bool, e: DirectoryEntry, next: nat)
    requires offset <= |data|
    ensures ok == DecodeEntry(data[offset..]).Good?
    ensures ok ==> next <= |data| && DecodeEntry(data[offset..]) == Good(e, data[next..])
  {
    ghost var rest := data[offset..];
    e, next := DirectoryEntry([], false, 0, 0), offset;
    if |data| < offset + 2 {
      return false, e, next;
    }
    var nameLen := FromBE(data[offset..offset + 2]);
    assert rest[..2] == data[offset..offset + 2];
    var at := offset + 2;
    if |data| < at + nameLen + 1 + 16 {
      return false, e, next;
    }
    var name := data[at..at + nameLen];
    at := at + nameLen;
    var isDirectory := data[at] == 1;
    at := at + 1;
    ghost var q := rest[2 + nameLen + 1..];
    assert rest[2..] == name + ([data[at - 1]] + q);
    assert q[..8] == data[at..at + 8] && q[8..16] == data[at + 8..at + 16] && q[16..] == data[at + 16..];
    DecodeEntryAt(rest, nameLen, name, data[at - 1], q);
    var size := FromBE(data[at..at + 8]);
    var mtime := FromBE(data[at + 8..at + 16]);
    e := DirectoryEntry(name, isDirectory, size, mtime);
    next := at + 16;
    ok := true;
  }

  /** Entries already read, in front of the outcome for the rest. */
  function Behind(done: seq<DirectoryEntry>, more: Option<seq<DirectoryEntry>>): Option<seq<DirectoryEntry>> {
    match more
    case None => None
    case Some(es) => Some(done + es)
  }

  lemma BehindNothing(more: Option<seq<DirectoryEntry>>)
    ensures Behind([], more) == more
  {
    if more.Some? {
      assert [] + more.value == more.value;
    }
  }

  lemma BehindSnoc(done: seq<DirectoryEntry>, e: DirectoryEntry, more: Option<seq<DirectoryEntry>>)
    ensures Behind(done, if more == None then None else Some([e] + more.value)) == Behind(done + [e], more)
  {
    if more.Some? {
      assert done + ([e] + more.value) == done + [e] + more.value;
    }
  }

  /** DirectorySerializer::deserialize: in bounds and terminating on every input. */
  method DeserializeListing(data: seq<byte>) returns (ok: bool, entries: seq<DirectoryEntry>)
    ensures ok == DeserializeEntries(data).Some?
    ensures ok ==> entries == DeserializeEntries(data).value
  {
    entries := [];
    if |data| < 4 {
      return false, entries;
    }
    var count := FromBE(data[..4]);
    var offset := 4;
    ghost var all := DeserializeEntries(data);
    var i := 0;
    BehindNothing(all);
    while i < count
      invariant 0 <= i <= count && 4 <= offset <= |data|
      invariant all == Behind(entries, DecodeEntries(count - i, data[offset..]))
    {
      var more, e, next := ReadEntry(data, offset);
      if !more {
        return false, entries;
      }
      BehindSnoc(entries, e, DecodeEntries(count - i - 1, data[next..]));
      entries := entries + [e];
      offset := next;
      i := i + 1;
    }
    assert entries + [] == entries;
    ok := true;
  }
}
