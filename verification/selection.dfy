/** How `restore` picks an archive by rank and how `list` numbers the
    recent archives, over the ascending catalog.  Both use Python's
    sequence indexing, written out here because a negative index counts
    from the end and a slice bound is clamped. */
module Selection {
  import opened Wrappers

  /** Python's `s[i]` for any integer `i`; `None` is the `IndexError`. */
  function PyIndex<T>(s: seq<T>, i: int): (r: Option<T>)
    ensures r.Some? <==> -|s| <= i < |s|
    ensures 0 <= i < |s| ==> r == Some(s[i])
    ensures -|s| <= i < 0 ==> r == Some(s[|s| + i])
    ensures r.Some? ==> r.value in s
  {
    if 0 <= i < |s| then Some(s[i])
    else if -|s| <= i < 0 then Some(s[|s| + i])
    else None
  }

  /** Python's `s[start:]`: a negative start counts from the end, and a
      start outside the sequence is clamped to it. */
  function PySliceFrom<T>(s: seq<T>, start: int): (r: seq<T>)
    ensures |r| <= |s| && r == s[|s| - |r|..]
    ensures start < 0 ==> |r| == (if -start < |s| then -start else |s|)
    ensures 0 <= start ==> |r| == (if start < |s| then |s| - start else 0)
  {
    var lo := if start < 0 then (if start + |s| < 0 then 0 else start + |s|)
              else (if |s| < start then |s| else start);
    s[lo..]
  }

  /** What `restore` decides before touching the device. */
  datatype Choice = NoBackups | BackupNotFound | Chosen(archive: string)

  /** `restore`: an empty catalog is "No backup found to restore."; otherwise
      the archive is `catalog[-rank]`, and an index error is "Backup not
      found.".  Rank 1 is the newest archive; rank 0 is the oldest because
      `-0 == 0`, and a negative rank counts from the front. */
  function ChooseArchive(catalog: seq<string>, rank: int): (c: Choice)
    ensures c == NoBackups <==> |catalog| == 0
    ensures 0 < |catalog| ==>
      (c == BackupNotFound <==> rank > |catalog| || rank <= -|catalog|)
    ensures 1 <= rank <= |catalog| ==> c == Chosen(catalog[|catalog| - rank])
    ensures 0 < |catalog| && -|catalog| < rank <= 0 ==> c == Chosen(catalog[-rank])
    ensures c.Chosen? ==> c.archive in catalog
  {
    if |catalog| == 0 then NoBackups
    else
      match PyIndex(catalog, -rank)
      case None => BackupNotFound
      case Some(archive) => Chosen(archive)
  }

  /** How many archives `list` shows. */
  const RecentLimit := 5

  /** One line of `list`: the number to pass to `restore -a` and the archive. */
  datatype Listed = Listed(number: int, archive: string)

  function Min(a: int, b: int): int {
    if a < b then a else b
  }

  /** `list`: the last `RecentLimit` archives, oldest first, each labelled
      `count - index`. */
  function RecentListing(catalog: seq<string>): (r: seq<Listed>)
    ensures |r| == Min(RecentLimit, |catalog|)
    ensures forall i :: 0 <= i < |r| ==> r[i].number == |r| - i
    ensures forall i :: 0 <= i < |r| ==> r[i].archive == catalog[|catalog| - |r| + i]
  {
    var recent := PySliceFrom(catalog, -RecentLimit);
    seq(|recent|, i requires 0 <= i < |recent| => Listed(|recent| - i, recent[i]))
  }

  /** The number `list` prints beside an archive is the rank that makes
      `restore` pick that same archive. */
  lemma ListingAgreesWithRestore(catalog: seq<string>, e: Listed)
    requires e in RecentListing(catalog)
    ensures ChooseArchive(catalog, e.number) == Chosen(e.archive)
  {
    var r := RecentListing(catalog);
    var i :| 0 <= i < |r| && r[i] == e;
  }

  /** Conversely every rank from 1 to the number of lines shown is printed,
      once, beside the archive `restore` picks for it. */
  lemma ListingCoversRecentRanks(catalog: seq<string>, rank: int)
    requires 1 <= rank <= Min(RecentLimit, |catalog|)
    ensures ChooseArchive(catalog, rank).Chosen?
    ensures Listed(rank, ChooseArchive(catalog, rank).archive) in RecentListing(catalog)
    ensures forall e :: e in RecentListing(catalog) && e.number == rank ==>
      e.archive == ChooseArchive(catalog, rank).archive
  {
    var r := RecentListing(catalog);
    assert r[|r| - rank] == Listed(rank, catalog[|catalog| - rank]);
  }
}
