/** The archive catalog: `find_archive_files` globs the backup directory for
    `*.tar.bz2` and sorts the matches by their path string.  The directory
    listing is an input here, in whatever order the file system yields it. */
module ArchiveCatalog {
  import opened StringOrder
  import opened Sequences

  const ArchiveExtension := ".tar.bz2"

  /** The glob pattern `*.tar.bz2`: any name, the empty one included, followed
      by the extension. */
  predicate IsArchiveFile(name: string)
    ensures IsArchiveFile(name) <==> exists stem :: name == stem + ArchiveExtension
  {
    EndsWithConcat(name, ArchiveExtension);
    EndsWith(name, ArchiveExtension)
  }

  /** `BACKUP_DIR / name` as the string `sorted` compares. */
  function JoinPath(directory: string, name: string): string {
    directory + "/" + name
  }

  predicate Ascending(s: seq<string>) {
    forall i, j :: 0 <= i < j < |s| ==> AtMost(s[i], s[j])
  }

  predicate Distinct(s: seq<string>) {
    forall i, j :: 0 <= i < j < |s| ==> s[i] != s[j]
  }

  /** The entries the glob matches, in listing order. */
  function Archives(entries: seq<string>): (r: seq<string>)
    ensures forall x :: multiset(r)[x] == if IsArchiveFile(x) then multiset(entries)[x] else 0
  {
    if |entries| == 0 then []
    else
      assert entries == [entries[0]] + entries[1..];
      var rest := Archives(entries[1..]);
      if IsArchiveFile(entries[0]) then [entries[0]] + rest else rest
  }

  lemma PrependAscending(x: string, s: seq<string>)
    requires Ascending(s)
    requires |s| == 0 || AtMost(x, s[0])
    ensures Ascending([x] + s)
  {
    forall i, j | 0 <= i < j < |[x] + s|
      ensures AtMost(([x] + s)[i], ([x] + s)[j])
    {
      if i == 0 && 1 < j {
        AtMostTransitive(x, s[0], s[j - 1]);
      }
    }
  }

  /** Putting back the head of an ascending sequence in front of a
      rearrangement of its tail plus a larger element keeps it ascending. */
  lemma ReattachHead(s: seq<string>, x: string, t: seq<string>)
    requires 0 < |s| && Ascending(s) && Less(s[0], x)
    requires Ascending(t)
    requires multiset(t) == multiset(s[1..]) + multiset{x}
    ensures Ascending([s[0]] + t)
  {
    forall k | 0 <= k < |t|
      ensures AtMost(s[0], t[k])
    {
      assert t[k] in multiset(t);
      if t[k] != x {
        assert t[k] in multiset(s[1..]);
        var i :| 0 <= i < |s[1..]| && s[1..][i] == t[k];
        assert s[i + 1] == t[k];
      }
    }
  }

  function Insert(x: string, s: seq<string>): (r: seq<string>)
    requires Ascending(s)
    ensures Ascending(r)
    ensures multiset(r) == multiset(s) + multiset{x}
  {
    if |s| == 0 then [x]
    else if AtMost(x, s[0]) then
      PrependAscending(x, s);
      [x] + s
    else
      LessTotal(x, s[0]);
      assert s == [s[0]] + s[1..];
      var t := Insert(x, s[1..]);
      ReattachHead(s, x, t);
      [s[0]] + t
  }

  function Sort(s: seq<string>): (r: seq<string>)
    ensures Ascending(r)
    ensures multiset(r) == multiset(s)
  {
    if |s| == 0 then []
    else
      assert s == [s[0]] + s[1..];
      Insert(s[0], Sort(s[1..]))
  }

  /** `find_archive_files()`: the matching entries in ascending string order. */
  function ListArchives(entries: seq<string>): (catalog: seq<string>)
    ensures Ascending(catalog)
    ensures forall x :: multiset(catalog)[x] == if IsArchiveFile(x) then multiset(entries)[x] else 0
    ensures forall x :: x in catalog <==> x in entries && IsArchiveFile(x)
  {
    var r := Sort(Archives(entries));
    assert forall x :: x in r <==> x in multiset(r);
    assert forall x :: x in entries <==> x in multiset(entries);
    r
  }

  /** When every entry is an archive, the catalog is a rearrangement of the
      listing. */
  lemma CatalogOfArchivesOnly(entries: seq<string>)
    requires forall i :: 0 <= i < |entries| ==> IsArchiveFile(entries[i])
    ensures multiset(ListArchives(entries)) == multiset(entries)
  {
    var c := ListArchives(entries);
    assert forall x :: multiset(c)[x] == multiset(entries)[x];
    assert multiset(c) == multiset(entries);
  }

  /** A listing without any archive catalogs as nothing. */
  lemma CatalogOfNoArchives(entries: seq<string>)
    requires forall i :: 0 <= i < |entries| ==> !IsArchiveFile(entries[i])
    ensures ListArchives(entries) == []
  {
    var c := ListArchives(entries);
    assert forall x :: x in entries ==> !IsArchiveFile(x);
    assert forall x :: multiset(c)[x] == 0;
    assert multiset(c) == multiset{};
  }

  /** A listing of two archives, in either order, catalogs as the two in
      ascending order. */
  lemma CatalogOfTwo(older: string, newer: string, entries: seq<string>)
    requires IsArchiveFile(older) && IsArchiveFile(newer) && Less(older, newer)
    requires entries == [older, newer] || entries == [newer, older]
    ensures ListArchives(entries) == [older, newer]
  {
    var c := ListArchives(entries);
    PairMultiset(older, newer, entries);
    PairAscending(older, newer);
    AscendingUnique(c, [older, newer]);
  }

  lemma PairMultiset(older: string, newer: string, entries: seq<string>)
    requires IsArchiveFile(older) && IsArchiveFile(newer)
    requires entries == [older, newer] || entries == [newer, older]
    ensures multiset(ListArchives(entries)) == multiset([older, newer])
  {
    assert IsArchiveFile(entries[0]) && IsArchiveFile(entries[1]);
    CatalogOfArchivesOnly(entries);
    if entries != [older, newer] {
      assert multiset([newer, older]) == multiset([older, newer]);
    }
  }

  lemma PairAscending(older: string, newer: string)
    requires Less(older, newer)
    ensures Ascending([older, newer])
  {
  }

  /** Two ascending arrangements of the same names are the same sequence. */
  lemma {:induction false} AscendingUnique(a: seq<string>, b: seq<string>)
    requires Ascending(a) && Ascending(b)
    requires multiset(a) == multiset(b)
    ensures a == b
    decreases |a|
  {
    assert |a| == |multiset(a)| == |multiset(b)| == |b|;
    if 0 < |a| {
      assert a[0] in multiset(b);
      var j :| 0 <= j < |b| && b[j] == a[0];
      assert b[0] in multiset(a);
      var i :| 0 <= i < |a| && a[i] == b[0];
      assert AtMost(b[0], a[0]) && AtMost(a[0], b[0]);
      AtMostAntisymmetric(a[0], b[0]);
      assert a == [a[0]] + a[1..];
      assert b == [b[0]] + b[1..];
      assert multiset(a[1..]) == multiset(a) - multiset{a[0]};
      assert multiset(b[1..]) == multiset(b) - multiset{b[0]};
      AscendingUnique(a[1..], b[1..]);
    }
  }

  /** The catalog does not depend on the order the directory lists its
      entries in. */
  lemma CatalogIgnoresListingOrder(e1: seq<string>, e2: seq<string>)
    requires multiset(e1) == multiset(e2)
    ensures ListArchives(e1) == ListArchives(e2)
  {
    var c1, c2 := ListArchives(e1), ListArchives(e2);
    assert forall x :: multiset(c1)[x] == multiset(c2)[x];
    assert multiset(c1) == multiset(c2);
    AscendingUnique(c1, c2);
  }

  lemma {:induction false} DistinctMultiplicity(s: seq<string>)
    requires Distinct(s)
    ensures forall x :: multiset(s)[x] <= 1
    decreases |s|
  {
    if 0 < |s| {
      DistinctMultiplicity(s[1..]);
      assert s == [s[0]] + s[1..];
      assert s[0] !in s[1..];
    }
  }

  lemma RepeatMultiplicity(s: seq<string>, i: int, j: int)
    requires 0 <= i < j < |s| && s[i] == s[j]
    ensures multiset(s)[s[i]] >= 2
  {
    assert s == s[..j] + s[j..];
    assert s[i] in s[..j];
    assert s[j] in s[j..];
  }

  /** A directory names each file once, so its catalog is strictly
      ascending: a total order with no ties. */
  lemma DistinctCatalogStrictlyAscending(entries: seq<string>)
    requires Distinct(entries)
    ensures forall i, j :: 0 <= i < j < |ListArchives(entries)| ==>
      Less(ListArchives(entries)[i], ListArchives(entries)[j])
  {
    var c := ListArchives(entries);
    DistinctMultiplicity(entries);
    forall i, j | 0 <= i < j < |c|
      ensures Less(c[i], c[j])
    {
      if c[i] == c[j] {
        RepeatMultiplicity(c, i, j);
        assert false;
      }
    }
  }

  /** Sorting full paths `dir/name` orders them exactly as their names. */
  lemma PathOrderIsNameOrder(directory: string, a: string, b: string)
    ensures Less(JoinPath(directory, a), JoinPath(directory, b)) <==> Less(a, b)
  {
    assert JoinPath(directory, a) == (directory + "/") + a;
    assert JoinPath(directory, b) == (directory + "/") + b;
    PrefixPreservesLess(directory + "/", a, b);
  }

  /** In an ascending catalog, an entry every other entry sorts below is the
      last one. */
  lemma GreatestIsLast(c: seq<string>, x: string)
    requires Ascending(c) && x in c
    requires forall y :: y in c ==> y == x || Less(y, x)
    ensures c[|c| - 1] == x
  {
    var i :| 0 <= i < |c| && c[i] == x;
    var last := c[|c| - 1];
    if last != x {
      assert Less(last, x);
      assert AtMost(x, last);
      LessAsymmetric(last, x);
    }
  }
}
