# circman core, modelled in Dafny

circman is a command-line tool that deploys a project directory onto a
CircuitPython board mounted as a `CIRCUITPY` volume, and keeps timestamped
`.tar.bz2` backups of the board so they can be restored. This project models
its core, `src/circman/__main__.py`, as pure functions and proves properties
about them:

- **Device locator** (`find_device`). On a POSIX host it runs `mount` and then
  `/sbin/mount`, splits each output into lines and fields, and keeps the
  last third field that ends in `CIRCUITPY`. Running a command is a parameter
  `run: string -> CommandOutcome`. The outcome is `NotFound`
  (`FileNotFoundError`, which is caught), `Failed` (any other exception of
  `check_output`, which propagates), or `Output(bytes)`.
- **Archive naming and catalog** (`backup`, `find_archive_files`). Names are
  `archive-%Y%m%d_%H%M%S.tar.bz2`, built from a clock reading passed in as
  a `Timestamp`. The catalog is the listing's `*.tar.bz2` entries sorted by
  Python's string order. The listing is an input, in any order.
- **Restore selection and list numbering** (`restore`, `list`). These use
  Python's negative indexing and slice clamping, written out in
  `Selection.PyIndex` and `Selection.PySliceFrom`.
- **Command sequencing** (`require_device`, `restore`, `deploy`, `sync`,
  `list`). Each command returns a `Run`: the effects it would have, in order
  (log lines, archive creation, extraction, tree copies), and its exit code.

Modules: `Wrappers`, `Sequences`, `StringOrder`, `MountTable`, `DeviceLocator`,
`ArchiveCatalog`, `ArchiveNaming`, `Selection`, `Commands`. Each has its
own `.dfy` file.

Three behaviours of the code are easy to misread; the model follows the code:

- The locator returns the **last** match. The loop never stops early, so a
  match in `/sbin/mount`'s output replaces one from `mount`.
- `restore` accepts any integer rank. Rank `0` restores the **oldest**
  archive, because `-0 == 0`. A negative rank `-k` restores `catalog[k]`.
  Only ranks above the catalog size or at most `-len` give "Backup not found."
- The locator can also raise: a failing command, or a mount line with fewer
  than three fields (`IndexError`). Both are modelled as errors, not as
  "no device".

## Model

| member | source | states |
|---|---|---|
| StringOrder.LessIsFirstDifference | src/circman/__main__.py:121 | The string order `sorted` uses: `a < b` exactly when `a` is a proper prefix of `b`, or `a` has the smaller code point at the first position where they differ |
| StringOrder.LessTotal | src/circman/__main__.py:121 | Any two different names are ordered one way or the other, so the catalog order is total |
| StringOrder.LessTransitive | src/circman/__main__.py:121 | The catalog order is transitive |
| StringOrder.LessAsymmetric | src/circman/__main__.py:121 | No two names sort before each other |
| StringOrder.LessIrreflexive | src/circman/__main__.py:121 | No name sorts before itself |
| StringOrder.LessConcat | src/circman/__main__.py:127 | Strings that start with blocks of equal width compare block first, remainder only on a tie; they are equal iff both parts are |
| StringOrder.PrefixPreservesLess | src/circman/__main__.py:121 | A shared prefix never changes the order of two strings |
| ArchiveCatalog.Archives | src/circman/__main__.py:121 | The `*.tar.bz2` glob keeps each entry that ends in `.tar.bz2`, as many times as it is listed, and drops every other entry |
| ArchiveCatalog.IsArchiveFile | src/circman/__main__.py:121 | The glob `*.tar.bz2` matches a name exactly when it is some stem followed by `.tar.bz2` |
| ArchiveCatalog.CatalogOfNoArchives | src/circman/__main__.py:119-121 | A listing without any `.tar.bz2` name catalogs as nothing |
| ArchiveCatalog.Insert | src/circman/__main__.py:121 | Inserting a name into an ascending sequence keeps it ascending and adds exactly that name |
| ArchiveCatalog.Sort | src/circman/__main__.py:121 | The sort result is ascending and is a rearrangement of its input |
| ArchiveCatalog.ListArchives | src/circman/__main__.py:119-121 | The catalog is ascending and holds exactly the listed archive files, each as often as it is listed |
| ArchiveCatalog.AscendingUnique | src/circman/__main__.py:121 | Two ascending arrangements of the same names are the same sequence |
| ArchiveCatalog.CatalogIgnoresListingOrder | src/circman/__main__.py:121 | The catalog does not depend on the order the directory lists its entries |
| ArchiveCatalog.CatalogOfArchivesOnly | src/circman/__main__.py:121 | When every entry is an archive, the catalog is a rearrangement of the listing |
| ArchiveCatalog.DistinctCatalogStrictlyAscending | src/circman/__main__.py:121 | A listing without repeats gives a strictly ascending catalog |
| ArchiveCatalog.PathOrderIsNameOrder | src/circman/__main__.py:121 | Sorting the full paths `BACKUP_DIR/name` orders them exactly as their names |
| ArchiveCatalog.GreatestIsLast | src/circman/__main__.py:121 | In an ascending catalog, the entry every other entry sorts below is the last entry |
| ArchiveCatalog.CatalogOfTwo | src/circman/__main__.py:121 | Two archives listed in either order catalog as the smaller one, then the larger |
| ArchiveNaming.Padded | src/circman/__main__.py:127 | A `%Y` (4) or `%m %d %H %M %S` (2) field has exactly its width and only digits |
| ArchiveNaming.ValueOfPadded | src/circman/__main__.py:127 | A padded field reads back as the number it was made from |
| ArchiveNaming.PaddedOfValue | src/circman/__main__.py:127 | Every digit string is the padded form of the number it spells |
| ArchiveNaming.PaddedInjective | src/circman/__main__.py:127 | Different numbers print as different fields of the same width |
| ArchiveNaming.PaddedOrder | src/circman/__main__.py:127 | Fields of the same width compare as strings exactly as their numbers compare |
| ArchiveNaming.DateFieldOrder | src/circman/__main__.py:127 | `%Y%m%d` of one reading sorts before another's iff its (year, month, day) is smaller, and the two fields are equal iff the dates are |
| ArchiveNaming.TimeFieldOrder | src/circman/__main__.py:127 | `%H%M%S` of one reading sorts before another's iff its (hour, minute, second) is smaller, and the two fields are equal iff the times are |
| ArchiveNaming.StampOrder | src/circman/__main__.py:127 | `%Y%m%d_%H%M%S` of one reading sorts before another's iff that reading is earlier |
| ArchiveNaming.ArchiveBaseName | src/circman/__main__.py:127 | The base name is always 23 characters |
| ArchiveNaming.ArchiveFileName | src/circman/__main__.py:127-130 | The archive file is always 31 characters and matches the catalog's `*.tar.bz2` glob |
| ArchiveNaming.NameOrderIsTimeOrder | src/circman/__main__.py:126-127 | For valid readings, an archive name sorts before another iff it was taken earlier |
| ArchiveNaming.ParseArchiveFileName | src/circman/__main__.py:127 | Reading a name back yields only valid timestamps |
| ArchiveNaming.ParseOfName | src/circman/__main__.py:127 | Reading back the name of a valid reading gives that reading |
| ArchiveNaming.NameOfParse | src/circman/__main__.py:127 | Every name that reads back is exactly the name of the reading it gives |
| ArchiveNaming.NameInjective | src/circman/__main__.py:126-127 | Two valid readings share an archive name iff they are the same reading |
| Selection.ChooseArchive | src/circman/__main__.py:102-112 | An empty catalog gives "no backup"; rank `1..n` picks `catalog[n - rank]`; rank `0..-(n-1)` picks `catalog[-rank]`; any other rank gives "not found"; a chosen file is in the catalog |
| Selection.PyIndex | src/circman/__main__.py:109 | `archive_files[-archive]`: defined iff `-len <= index < len`; a non-negative index counts from the front, a negative one from the end, and the result is an element |
| Selection.PySliceFrom | src/circman/__main__.py:74 | `archive_files[-recent_back_limit:]` is a suffix of the catalog; with a negative start its length is `min(-start, len)`, otherwise `max(len - start, 0)` |
| Selection.RecentListing | src/circman/__main__.py:72-85 | `list` shows `min(5, n)` entries: the newest ones, oldest first, numbered from the count down to 1 |
| Selection.ListingAgreesWithRestore | src/circman/__main__.py:74-109 | Passing the number `list` shows for a file to `restore -a` chooses that same file |
| Selection.ListingCoversRecentRanks | src/circman/__main__.py:74-109 | Every rank from 1 to the number of lines shown is printed beside the archive `restore` picks for it |
| MountTable.LineLength | src/circman/__main__.py:185 | Measures the run up to the first `\n` or `\r`: no break inside it, and a break right after it unless the input ends |
| MountTable.SplitLines | src/circman/__main__.py:185 | `bytes.splitlines()`: no line contains a line break |
| MountTable.SplitLinesOfTerminated | src/circman/__main__.py:185 | Break-free lines, all ended by the same one of `\n`, `\r` or `\r\n`, split back into the same lines |
| MountTable.WordLength | src/circman/__main__.py:186 | Measures the run up to the first ASCII whitespace byte: none inside it, and one right after it unless the line ends |
| MountTable.Fields | src/circman/__main__.py:186 | `bytes.split()`: every field is non-empty and holds no ASCII whitespace |
| MountTable.FieldsSkipWhitespace | src/circman/__main__.py:186 | Leading whitespace does not change the fields |
| MountTable.FieldsOfWord | src/circman/__main__.py:186 | A word followed by whitespace is the first field |
| MountTable.MountPoint | src/circman/__main__.py:186 | `split()[2]` succeeds iff the line has at least three fields (otherwise the `IndexError`), and the mount point it gives is a non-empty run without whitespace |
| MountTable.FieldsOfSpaced | src/circman/__main__.py:186 | Non-empty, whitespace-free words, each followed by its own non-empty run of ASCII whitespace (the runs may differ), split back into the same words |
| MountTable.MountPointOfMountLine | src/circman/__main__.py:186 | On a line `<device> on <mount point> ...`, `split()[2]` is the mount point |
| DeviceLocator.MountPoints | src/circman/__main__.py:186 | The list comprehension succeeds iff every line has at least three fields, and then gives each line's third field, in order |
| DeviceLocator.IsDeviceVolume | src/circman/__main__.py:188 | `volume.endswith(b"CIRCUITPY")` holds exactly when the volume is some stem followed by `CIRCUITPY` |
| DeviceLocator.LastMatch | src/circman/__main__.py:187-189 | The inner loop ends with the last volume ending in `CIRCUITPY`, or keeps the earlier value when none matches |
| DeviceLocator.Scan | src/circman/__main__.py:183-191 | Commands run in order and form a prefix of the list; on success all of them ran; an error names the last command that ran |
| DeviceLocator.FindDevice | src/circman/__main__.py:172-195 | On a non-`posix` host: no command runs and `NotImplementedError` is raised for that OS name. On `posix`: the commands run in order, both run when nothing is raised, and a returned path ends in `CIRCUITPY` |
| DeviceLocator.ScanFindsOnlyDevices | src/circman/__main__.py:187-189 | The scan never returns a volume that does not end in `CIRCUITPY` |
| DeviceLocator.LastMatchAppend | src/circman/__main__.py:183-189 | Scanning two outputs in turn equals scanning them as one sequence, because `device_dir` carries over |
| DeviceLocator.LastMatchForgetsEarlier | src/circman/__main__.py:187-189 | Once some volume matches, what was found before no longer matters |
| DeviceLocator.ScanIsLastOfAll | src/circman/__main__.py:183-191 | The streaming scan equals collecting every mount point of every command that ran and taking the last match; a raised error propagates unchanged |
| DeviceLocator.FindDeviceIsLastMatch | src/circman/__main__.py:181-195 | On `posix` with no error, both commands run and a path is returned iff some mount point ends in `CIRCUITPY`; the path is the last such mount point |
| DeviceLocator.AllMountPointsOfBoth | src/circman/__main__.py:183-191 | Collecting from both commands gives `mount`'s mount points followed by `/sbin/mount`'s |
| DeviceLocator.LaterCommandWins | src/circman/__main__.py:183-189 | A match in `/sbin/mount`'s output beats any match in `mount`'s output; otherwise `mount`'s last match stands |
| DeviceLocator.FallsBackToSbinMount | src/circman/__main__.py:183-191 | If `mount` is missing, both commands are tried in order and `/sbin/mount`'s output alone decides the result |
| DeviceLocator.EscapedPlain | src/circman/__main__.py:194 | `repr` adds no escapes to text without quotes, backslashes or control characters |
| DeviceLocator.Repr | src/circman/__main__.py:194 | `repr` of the OS name is wrapped in matching quotes, double exactly when the name holds a single quote and no double quote, and is never shorter than the name plus its quotes |
| DeviceLocator.UnsupportedMessage | src/circman/__main__.py:194 | The `NotImplementedError` text is `OS `, then the `repr` of the OS name, then ` not supported.` |
| DeviceLocator.UnsupportedMessageOfPlainName | src/circman/__main__.py:194 | For an ordinary OS name such as `foo`, the message is `OS 'foo' not supported.` |
| Commands.RequireDevice | src/circman/__main__.py:198-201 | The command stops with exit code 2 and no effects iff the device is `None` or empty (Python falsiness) |
| Commands.Only | src/circman/__main__.py:124-130 | Helper for stating `backup`'s and `deploy`'s effect counts: filtering a trace by kind keeps only effects of that kind |
| Commands.OnlyAppend | src/circman/__main__.py:145-148 | Helper for stating `deploy`'s effect counts from its backup part and its copy part: filtering a joined trace joins the filtered parts |
| Commands.List | src/circman/__main__.py:69-85 | `list` exits 0. It prints the header, then one line per recent archive. With `m = min(5, n)` lines shown, the line at position `i` (1..m, after the header) names catalog entry `n - m - 1 + i` and carries the number `m + 1 - i` |
| Commands.ListFrom | src/circman/__main__.py:72-85 | Given the catalog, `list` prints the header and then, oldest first, the last five archives (or all of them when there are fewer), numbered down to 1 for the newest |
| Commands.Restore | src/circman/__main__.py:98-116 | No device: exit 2, no effects. Empty catalog: exit 1 with "No backup found to restore.". Out-of-range rank: exit 1 with "Backup not found.". Otherwise exit 0 and exactly one extraction, of the chosen archive onto the device. A restore never archives or copies, and never extracts when it fails |
| Commands.RestoreFrom | src/circman/__main__.py:101-116 | Given the catalog: empty gives exit 1 with "No backup found to restore."; a rank outside it gives exit 1 with "Backup not found."; rank `k` in 1..n extracts entry `n - k` and rank `k` in `-n+1..0` extracts entry `-k`, exactly once |
| Commands.Restoring | src/circman/__main__.py:102-116 | Each choice gives its message and exit code; only a chosen archive is extracted, exactly once, onto the device |
| Commands.Backup | src/circman/__main__.py:124-130 | A backup makes exactly one archive, named from the clock reading, of the device directory, and copies or extracts nothing |
| Commands.ArchivesBeforeCopiesAppend | src/circman/__main__.py:145-148 | Helper for stating `deploy`'s ordering: a trace with no copy followed by one with no archiving has every archive before every copy |
| Commands.Deploy | src/circman/__main__.py:142-148 | No device: exit 2 and nothing happens. Otherwise exit 0, exactly one archive of the device, then exactly one update-only copy from source to device. Nothing is extracted, and every archive comes before every copy |
| Commands.Sync | src/circman/__main__.py:160-169 | No device: exit 2. Otherwise exit 0 and exactly one full copy from device to destination. No backup is taken and nothing is extracted |
| Commands.ListedNumberRestoresThatArchive | src/circman/__main__.py:78-116 | The number `list` prints beside an archive, passed to `restore`, extracts exactly that archive |
| Commands.DirectoryAfter | src/circman/__main__.py:130 | Archiving never removes a file from the backup directory |
| Commands.DirectoryAfterDeploy | src/circman/__main__.py:124-148 | After a deploy, the backup directory holds the earlier files plus the new archive, and nothing else |
| Commands.RestoreAfterDeployPicksNewBackup | src/circman/__main__.py:107-146 | If the deploy's clock reads later than every existing archive, `restore` with its default rank extracts the archive that deploy just made |
| Commands.CatalogIsChronological | src/circman/__main__.py:119-127 | A catalog of archive names lists their timestamps in chronological order |
| Commands.TwoBackupsScenario | src/circman/__main__.py:107-116 | With two backups listed in either order, rank 1 restores the later one, rank 2 the earlier one, and rank 3 is "Backup not found." |
| Commands.EmptyBackupDirectory | src/circman/__main__.py:72-105 | With no archive, `list` prints only its header, and `restore` with any rank exits 1 with "No backup found to restore." |

## Left out

- Click option parsing is not modelled: help text, `--version`, the defaults of `-d`, `-s`, `-D` and `-a`, and the existence checks of `click.Path`. That includes click's own exit code 2 for a missing `-d` when autodiscovery finds nothing. These belong to the click library. Commands take the device as an `Option<string>`, and only `require_device`'s exit 2 is modelled.
- Logging setup, the log file handler and its format are not modelled (I/O). Log lines appear as `Log` effects that carry their message text.
- `list` prints each archive's modification time. That time comes from the file system and is formatted with `datetime`, so the model's `ShowBackup` effect carries only the number and the name.
- Creating the data and log directories at import time is file-system I/O and is not modelled.
- `subprocess.check_output` is not called: its result is the `run` parameter of `DeviceLocator.FindDevice`.
- `shutil.make_archive`, `shutil.unpack_archive` and `copy_tree` belong to foreign libraries. They appear only as opaque effects. An I/O error raised inside them would end the process; the model does not represent that.
- The clock is an input `Timestamp` with whole seconds. `datetime.now` also reads microseconds, but the format never prints them, so two backups in the same second share a name. `Commands.DirectoryAfter` then keeps one file.
- ArchiveCatalog.IsArchiveFile: models the `*.tar.bz2` glob with POSIX case-sensitive matching. On Windows `Path.glob` matches case-insensitively, so a name such as `X.TAR.BZ2` would also be catalogued there; the model does not promise that.
- ArchiveCatalog.ListArchives: file names are sequences of Unicode scalar values. On Linux, `Path.glob` decodes a file name that is not valid UTF-8 with surrogateescape, which yields lone surrogates U+DC80–U+DCFF (for example `"\udcff.tar.bz2"` from the bytes `b"\xff.tar.bz2"`). Such names cannot be represented and are outside the model; code-point order would sort them like any other character.
- Globbing is not modelled: the backup directory's listing is an input. Paths are built as `dir + "/" + name`, without `pathlib`'s normalisation.
- DeviceLocator.FindDevice: returns the matched mount point as bytes. The UTF-8 decode at line 189, and the `UnicodeDecodeError` it raises on invalid bytes, are not modelled.
- DeviceLocator.Repr: escapes only backslash, the quote character, `\n`, `\r` and `\t`. Python's `repr` also escapes other non-printable characters as `\x..` or `\u....`.
- ArchiveNaming.Padded: writes `%Y` zero-padded to four digits, as Python documents it. For years below 1000, some C libraries print the year without padding.
- The `main` click group and `__main__` entry point do nothing beyond dispatch.
