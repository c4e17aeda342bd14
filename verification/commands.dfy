/** The device-bound commands and `list`, as traces of the effects they
    would have on the world and the exit code they end with.  Archiving,
    extracting and copying are opaque effects; the clock reading and the
    backup directory's listing are inputs. */
module Commands {
  import opened Wrappers
  import opened StringOrder
  import opened ArchiveCatalog
  import opened ArchiveNaming
  import opened Selection

  datatype Level = Info | Error

  datatype Effect =
    | Log(level: Level, message: string)
      /** One `<number> - <mtime> - <name>` line of `list`. */
    | ShowBackup(number: int, archive: string)
      /** `shutil.make_archive(directory/baseName, "bztar", rootDir, ".")`. */
    | MakeArchive(directory: string, baseName: string, rootDir: string)
      /** `copy_tree(source, target, update=...)`. */
    | CopyTree(source: string, target: string, updateOnly: bool)
      /** `shutil.unpack_archive(archive, target)`. */
    | UnpackArchive(archive: string, target: string)

  datatype Run = Run(effects: seq<Effect>, exitCode: int)

  /** The process-wide location of the archives. */
  datatype Config = Config(backupDir: string)

  datatype Kind = Archiving | Copying | Unpacking

  predicate OfKind(e: Effect, k: Kind) {
    match k
    case Archiving => e.MakeArchive?
    case Copying => e.CopyTree?
    case Unpacking => e.UnpackArchive?
  }

  /** The effects of one kind, in the order they happen. */
  function Only(effects: seq<Effect>, k: Kind): (r: seq<Effect>)
    ensures forall i :: 0 <= i < |r| ==> OfKind(r[i], k)
  {
    if |effects| == 0 then []
    else (if OfKind(effects[0], k) then [effects[0]] else []) + Only(effects[1..], k)
  }

  lemma OnlyPair(a: Effect, b: Effect, k: Kind)
    ensures Only([a, b], k) == (if OfKind(a, k) then [a] else []) + (if OfKind(b, k) then [b] else [])
  {
    var tail := if OfKind(b, k) then [b] else [];
    assert [b][1..] == [];
    assert Only([b], k) == tail + [];
    assert tail + [] == tail;
    assert [a, b][1..] == [b];
  }

  /** Every archiving effect comes before every copy. */
  predicate ArchivesBeforeCopies(effects: seq<Effect>) {
    forall i, j :: 0 <= i < |effects| && 0 <= j < |effects| && effects[i].MakeArchive? && effects[j].CopyTree? ==> i < j
  }

  /** Python truthiness of the `device` option: `None` and `""` are false. */
  predicate HasDevice(device: Option<string>) {
    device.Some? && device.value != ""
  }

  /** `require_device`: `None` lets the command go on, otherwise the run
      that `sys.exit(2)` ends with. */
  function RequireDevice(device: Option<string>): (stop: Option<Run>)
    ensures stop.None? <==> HasDevice(device)
    ensures stop.Some? ==> stop.value.exitCode == 2 && stop.value.effects == []
  {
    if device.None? || device.value == "" then Some(Run([], 2)) else None
  }

  /** The run `list` makes from catalog `c`: a header line, then one line
      per archive among the last five, oldest first, numbered so that the
      newest is 1. */
  predicate ShowsRecent(r: Run, c: seq<string>) {
    && r.exitCode == 0
    && 0 < |r.effects| && r.effects[0] == Log(Info, "Backups:")
    && |r.effects| == 1 + Min(RecentLimit, |c|)
    && forall i :: 1 <= i < |r.effects| ==>
         r.effects[i] == ShowBackup(|r.effects| - i, c[|c| - |r.effects| + i])
  }

  /** `list`: the header, then the recent archives with their numbers. */
  function List(entries: seq<string>): (r: Run)
    ensures ShowsRecent(r, ListArchives(entries))
  {
    ListFrom(ListArchives(entries))
  }

  /** `list`, given the catalog it reads. */
  function ListFrom(c: seq<string>): (r: Run)
    ensures ShowsRecent(r, c)
  {
    Run([Log(Info, "Backups:")] + ShowLines(RecentListing(c)), 0)
  }

  /** One `ShowBackup` per line of the listing, in order. */
  function ShowLines(listing: seq<Listed>): (r: seq<Effect>)
    ensures |r| == |listing|
    ensures forall i :: 0 <= i < |r| ==> r[i] == ShowBackup(listing[i].number, listing[i].archive)
  {
    if |listing| == 0 then []
    else [ShowBackup(listing[0].number, listing[0].archive)] + ShowLines(listing[1..])
  }

  /** `restore -d device -a rank`. */
  function Restore(config: Config, device: Option<string>, entries: seq<string>, rank: int): (r: Run)
    ensures !HasDevice(device) ==> r == Run([], 2)
    ensures Only(r.effects, Archiving) == [] && Only(r.effects, Copying) == []
    ensures HasDevice(device) && |ListArchives(entries)| == 0 ==>
      r == Run([Log(Error, "No backup found to restore.")], 1)
    ensures var c := ListArchives(entries);
      HasDevice(device) && 0 < |c| && (rank > |c| || rank <= -|c|) ==>
      r == Run([Log(Error, "Backup not found.")], 1)
    ensures var c := ListArchives(entries);
      HasDevice(device) && 1 <= rank <= |c| ==>
      r.exitCode == 0 && Only(r.effects, Unpacking) == [UnpackArchive(JoinPath(config.backupDir, c[|c| - rank]), device.value)]
    ensures var c := ListArchives(entries);
      HasDevice(device) && 0 < |c| && -|c| < rank <= 0 ==>
      r.exitCode == 0 && Only(r.effects, Unpacking) == [UnpackArchive(JoinPath(config.backupDir, c[-rank]), device.value)]
    ensures r.exitCode != 0 ==> Only(r.effects, Unpacking) == []
  {
    if !HasDevice(device) then Run([], 2)
    else RestoreFrom(config, device.value, ListArchives(entries), rank)
  }

  /** `restore` past `require_device`, given the catalog it lists. */
  function RestoreFrom(config: Config, device: string, c: seq<string>, rank: int): (r: Run)
    ensures Only(r.effects, Archiving) == [] && Only(r.effects, Copying) == []
    ensures |c| == 0 ==> r == Run([Log(Error, "No backup found to restore.")], 1)
    ensures 0 < |c| && (rank > |c| || rank <= -|c|) ==> r == Run([Log(Error, "Backup not found.")], 1)
    ensures 1 <= rank <= |c| ==>
      r.exitCode == 0 && Only(r.effects, Unpacking) == [UnpackArchive(JoinPath(config.backupDir, c[|c| - rank]), device)]
    ensures 0 < |c| && -|c| < rank <= 0 ==>
      r.exitCode == 0 && Only(r.effects, Unpacking) == [UnpackArchive(JoinPath(config.backupDir, c[-rank]), device)]
    ensures r.exitCode != 0 ==> Only(r.effects, Unpacking) == []
  {
    Restoring(config, device, ChooseArchive(c, rank))
  }

  /** What `restore` does once the archive has been chosen. */
  function Restoring(config: Config, device: string, choice: Choice): (r: Run)
    ensures Only(r.effects, Archiving) == [] && Only(r.effects, Copying) == []
    ensures choice == NoBackups ==> r == Run([Log(Error, "No backup found to restore.")], 1)
    ensures choice == BackupNotFound ==> r == Run([Log(Error, "Backup not found.")], 1)
    ensures choice.Chosen? ==>
      (r.exitCode == 0 && Only(r.effects, Unpacking) == [UnpackArchive(JoinPath(config.backupDir, choice.archive), device)])
  {
    match choice
    case NoBackups => Run([Log(Error, "No backup found to restore.")], 1)
    case BackupNotFound => Run([Log(Error, "Backup not found.")], 1)
    case Chosen(name) =>
      var path := JoinPath(config.backupDir, name);
      OnlyPair(Log(Info, "Restoring " + path), UnpackArchive(path, device), Archiving);
      OnlyPair(Log(Info, "Restoring " + path), UnpackArchive(path, device), Copying);
      OnlyPair(Log(Info, "Restoring " + path), UnpackArchive(path, device), Unpacking);
      Run([Log(Info, "Restoring " + path), UnpackArchive(path, device)], 0)
  }

  /** `backup(device)` at clock reading `now`. */
  function Backup(config: Config, device: string, now: Timestamp): (effects: seq<Effect>)
    requires Valid(now)
    ensures Only(effects, Archiving) == [MakeArchive(config.backupDir, ArchiveBaseName(now), device)]
    ensures Only(effects, Copying) == [] && Only(effects, Unpacking) == []
  {
    var base := ArchiveBaseName(now);
    var log := Log(Info, "Archiving to " + JoinPath(config.backupDir, base) + ArchiveExtension);
    var make := MakeArchive(config.backupDir, base, device);
    OnlyPair(log, make, Archiving);
    OnlyPair(log, make, Copying);
    OnlyPair(log, make, Unpacking);
    [log, make]
  }

  lemma OnlyAppend(a: seq<Effect>, b: seq<Effect>, k: Kind)
    ensures Only(a + b, k) == Only(a, k) + Only(b, k)
  {
    if |a| == 0 {
      assert a + b == b;
    } else {
      assert (a + b)[1..] == a[1..] + b;
      OnlyAppend(a[1..], b, k);
    }
  }

  lemma {:induction false} NoneOfKind(effects: seq<Effect>, k: Kind)
    requires Only(effects, k) == []
    ensures forall i :: 0 <= i < |effects| ==> !OfKind(effects[i], k)
  {
    if 0 < |effects| {
      NoneOfKind(effects[1..], k);
      forall i | 1 <= i < |effects|
        ensures !OfKind(effects[i], k)
      {
        assert effects[i] == effects[1..][i - 1];
      }
    }
  }

  /** Archiving that comes entirely before the copying keeps the order. */
  lemma ArchivesBeforeCopiesAppend(a: seq<Effect>, b: seq<Effect>)
    requires Only(a, Copying) == [] && Only(b, Archiving) == []
    ensures ArchivesBeforeCopies(a + b)
  {
    NoneOfKind(a, Copying);
    NoneOfKind(b, Archiving);
    forall k | 0 <= k < |a|
      ensures !(a + b)[k].CopyTree?
    {
      assert (a + b)[k] == a[k];
    }
    forall k | |a| <= k < |a + b|
      ensures !(a + b)[k].MakeArchive?
    {
      assert (a + b)[k] == b[k - |a|];
    }
  }

  /** `deploy -d device -s source`. */
  function Deploy(config: Config, device: Option<string>, source: string, now: Timestamp): (r: Run)
    requires Valid(now)
    ensures !HasDevice(device) ==> r == Run([], 2)
    ensures HasDevice(device) ==> r.exitCode == 0
    ensures HasDevice(device) ==>
      Only(r.effects, Archiving) == [MakeArchive(config.backupDir, ArchiveBaseName(now), device.value)]
    ensures HasDevice(device) ==> Only(r.effects, Copying) == [CopyTree(source, device.value, true)]
    ensures Only(r.effects, Unpacking) == []
    ensures ArchivesBeforeCopies(r.effects)
  {
    match RequireDevice(device)
    case Some(stop) => stop
    case None =>
      var first := Backup(config, device.value, now);
      var log := Log(Info, "Deploying " + source + " to " + device.value);
      var copy := [log, CopyTree(source, device.value, true)];
      OnlyPair(log, CopyTree(source, device.value, true), Archiving);
      OnlyPair(log, CopyTree(source, device.value, true), Copying);
      OnlyPair(log, CopyTree(source, device.value, true), Unpacking);
      OnlyAppend(first, copy, Archiving);
      OnlyAppend(first, copy, Copying);
      OnlyAppend(first, copy, Unpacking);
      ArchivesBeforeCopiesAppend(first, copy);
      Run(first + copy, 0)
  }

  /** `sync -d device -D dest`: a full copy back from the device, with no
      backup taken first. */
  function Sync(device: Option<string>, dest: string): (r: Run)
    ensures !HasDevice(device) ==> r == Run([], 2)
    ensures HasDevice(device) ==> r.exitCode == 0
    ensures HasDevice(device) ==> Only(r.effects, Copying) == [CopyTree(device.value, dest, false)]
    ensures Only(r.effects, Archiving) == [] && Only(r.effects, Unpacking) == []
  {
    match RequireDevice(device)
    case Some(stop) => stop
    case None =>
      var log := Log(Info, "Copying " + device.value + " to " + dest);
      var copy := CopyTree(device.value, dest, false);
      OnlyPair(log, copy, Archiving);
      OnlyPair(log, copy, Copying);
      OnlyPair(log, copy, Unpacking);
      Run([log, copy], 0)
  }

  // ---------------------------------------------------------------------
  // Across commands
  // ---------------------------------------------------------------------

  /** The number `list` prints beside an archive, given to `restore -a`,
      restores exactly that archive. */
  lemma ListedNumberRestoresThatArchive(config: Config, device: Option<string>, entries: seq<string>, i: int)
    requires HasDevice(device)
    requires 1 <= i < |List(entries).effects|
    ensures var shown := List(entries).effects[i];
      var path := JoinPath(config.backupDir, shown.archive);
      Restore(config, device, entries, shown.number) == Run([Log(Info, "Restoring " + path), UnpackArchive(path, device.value)], 0)
  {
    var c := ListArchives(entries);
    var listing := RecentListing(c);
    ShownIsListed(entries, i);
    ListingAgreesWithRestore(c, listing[i - 1]);
  }

  lemma ShownIsListed(entries: seq<string>, i: int)
    requires 1 <= i < |List(entries).effects|
    ensures var listing := RecentListing(ListArchives(entries));
      i - 1 < |listing| &&
      List(entries).effects[i] == ShowBackup(listing[i - 1].number, listing[i - 1].archive)
  {
    var c := ListArchives(entries);
    assert List(entries) == ListFrom(c);
    ShownFromListing(c, i);
  }

  lemma ShownFromListing(c: seq<string>, i: int)
    requires 1 <= i < |ListFrom(c).effects|
    ensures var listing := RecentListing(c);
      i - 1 < |listing| &&
      ListFrom(c).effects[i] == ShowBackup(listing[i - 1].number, listing[i - 1].archive)
  {
    var lines := ShowLines(RecentListing(c));
    assert ListFrom(c).effects == [Log(Info, "Backups:")] + lines;
    assert ListFrom(c).effects[i] == lines[i - 1];
  }

  /** The names of the files a run's archiving effects add to the backup
      directory, appended to its listing when not already there. */
  function DirectoryAfter(config: Config, entries: seq<string>, effects: seq<Effect>): (r: seq<string>)
    ensures forall x :: x in entries ==> x in r
    decreases |effects|
  {
    if |effects| == 0 then entries
    else
      var e := effects[0];
      var next :=
        if e.MakeArchive? && e.directory == config.backupDir && e.baseName + ArchiveExtension !in entries
        then entries + [e.baseName + ArchiveExtension]
        else entries;
      DirectoryAfter(config, next, effects[1..])
  }

  lemma DirectoryAfterDeploy(config: Config, device: Option<string>, source: string, now: Timestamp, entries: seq<string>)
    requires Valid(now) && HasDevice(device)
    ensures var after := DirectoryAfter(config, entries, Deploy(config, device, source, now).effects);
      forall x :: x in after <==> x in entries || x == ArchiveFileName(now)
  {
    var effects := Deploy(config, device, source, now).effects;
    var name := ArchiveFileName(now);
    assert effects[1] == MakeArchive(config.backupDir, ArchiveBaseName(now), device.value);
    var next := if name in entries then entries else entries + [name];
    var rest := effects[2..];
    assert rest[0].Log? && rest[1].CopyTree? && |rest| == 2;
    assert rest[1..][1..] == [];
    assert DirectoryAfter(config, next, rest[1..][1..]) == next;
    assert DirectoryAfter(config, next, rest[1..]) == next;
    assert DirectoryAfter(config, next, rest) == next;
    assert effects[1..][1..] == rest;
    assert DirectoryAfter(config, entries, effects) == DirectoryAfter(config, next, rest);
  }

  /** A deploy whose clock reads later than every archive already in the
      directory leaves its own backup as the one `restore` picks by
      default. */
  lemma RestoreAfterDeployPicksNewBackup(config: Config, device: Option<string>, source: string, now: Timestamp, entries: seq<string>)
    requires Valid(now) && HasDevice(device)
    requires forall e :: e in entries && IsArchiveFile(e) ==>
      ParseArchiveFileName(e).Some? && Before(ParseArchiveFileName(e).value, now)
    ensures var after := DirectoryAfter(config, entries, Deploy(config, device, source, now).effects);
      var path := JoinPath(config.backupDir, ArchiveFileName(now));
      Restore(config, device, after, 1) == Run([Log(Info, "Restoring " + path), UnpackArchive(path, device.value)], 0)
  {
    var after := DirectoryAfter(config, entries, Deploy(config, device, source, now).effects);
    var name := ArchiveFileName(now);
    DirectoryAfterDeploy(config, device, source, now, entries);
    var c := ListArchives(after);
    forall y | y in c
      ensures y == name || Less(y, name)
    {
      if y != name {
        var t := ParseArchiveFileName(y).value;
        NameOfParse(y);
        NameOrderIsTimeOrder(t, now);
      }
    }
    GreatestIsLast(c, name);
  }

  /** Archives made by successive backups list in the order they were made:
      every catalog built from archive names is chronological. */
  lemma CatalogIsChronological(entries: seq<string>)
    requires forall e :: e in entries && IsArchiveFile(e) ==> ParseArchiveFileName(e).Some?
    ensures var c := ListArchives(entries);
      forall i, j :: 0 <= i < j < |c| ==>
        var ti, tj := ParseArchiveFileName(c[i]).value, ParseArchiveFileName(c[j]).value;
        ti == tj || Before(ti, tj)
  {
    var c := ListArchives(entries);
    forall i, j | 0 <= i < j < |c|
      ensures ParseArchiveFileName(c[i]).value == ParseArchiveFileName(c[j]).value
        || Before(ParseArchiveFileName(c[i]).value, ParseArchiveFileName(c[j]).value)
    {
      assert c[i] in c && c[j] in c;
      var ti, tj := ParseArchiveFileName(c[i]).value, ParseArchiveFileName(c[j]).value;
      NameOfParse(c[i]);
      NameOfParse(c[j]);
      NameOrderIsTimeOrder(ti, tj);
    }
  }

  /** Two backups, listed by the directory in either order: rank 1 restores
      the later one, rank 2 the earlier one, and rank 3 is not found. */
  lemma TwoBackupsScenario(config: Config, device: Option<string>, t1: Timestamp, t2: Timestamp, listedNewerFirst: bool)
    requires HasDevice(device)
    requires Valid(t1) && Valid(t2) && Before(t1, t2)
    ensures var older := ArchiveFileName(t1);
      var newer := ArchiveFileName(t2);
      var entries := if listedNewerFirst then [newer, older] else [older, newer];
      && Only(Restore(config, device, entries, 1).effects, Unpacking)
           == [UnpackArchive(JoinPath(config.backupDir, newer), device.value)]
      && Only(Restore(config, device, entries, 2).effects, Unpacking)
           == [UnpackArchive(JoinPath(config.backupDir, older), device.value)]
      && Restore(config, device, entries, 3) == Run([Log(Error, "Backup not found.")], 1)
  {
    var older, newer := ArchiveFileName(t1), ArchiveFileName(t2);
    var entries := if listedNewerFirst then [newer, older] else [older, newer];
    NameOrderIsTimeOrder(t1, t2);
    CatalogOfTwo(older, newer, entries);
  }

  /** With no archive in the backup directory, `list` prints only its header
      and `restore`, whatever the rank, fails with exit code 1 and extracts
      nothing. */
  lemma EmptyBackupDirectory(config: Config, device: Option<string>, entries: seq<string>, rank: int)
    requires HasDevice(device)
    requires forall i :: 0 <= i < |entries| ==> !IsArchiveFile(entries[i])
    ensures List(entries) == Run([Log(Info, "Backups:")], 0)
    ensures Restore(config, device, entries, rank) == Run([Log(Error, "No backup found to restore.")], 1)
  {
    CatalogOfNoArchives(entries);
    assert List(entries) == ListFrom([]);
    assert Restore(config, device, entries, rank) == RestoreFrom(config, device.value, [], rank);
  }
}
