# Backtrack, verified

Backtrack backs a computer up with Borg, keeps a catalogue of what every backup
holds, and shows it as a timeline. This project models the parts of it whose
correctness is hard to see from their code, and proves what they are for:

- **Exclusion patterns** (`Pattern`, `Exclusions`, `Levels`): the wildcard
  matcher that keeps only its last wildcard to resume from, against a declarative
  meaning of token lists; patterns as they are written, split up and put to use;
  and what `**/` stands for.
- **PNG images** (`Checksums`, `Png`): the encoder, with its nibble table and
  stored deflate blocks, against a decoder that follows RFC 2083, RFC 1950 and
  RFC 1951 and checks a chunk with a register that takes one bit at a time; that
  register is proved apart to divide polynomials.
- **Dates and archive names** (`Text`, `Calendar`, `Stamps`, `ArchiveNames`):
  three copies of the day-number arithmetic, one of them truncating, the names
  made from it and the search for a free one.
- **The catalogue** (`Index`, `IndexRemove`, `IndexSync`, `IndexOrder`,
  `IndexWriter`, `Expiry`, `Sorting`): rows that say that a file held one content
  over a stretch of archives. A *history* is what each archive held; a set of
  rows *encodes* a history when it is exactly the history's maximal runs. Reading
  archives in (full, delta or scoped listings), removing them and slotting new
  ones in are each proved against what they do to the history; and, since what
  slotting leaves need not encode anything that is true, against what any whole
  rows *show* of each archive before and after. `Expiry` follows the date a local
  archive may be discarded from.
- **Cataloguing** (`Channel`, `Cataloguing`, `CatalogueRuns`, `Lapses`): a listing crossing
  a channel in batches, the archive committed from it, and a state machine of
  repository and catalogue in which listings fail, jobs are cancelled and the
  daemon stops between any two steps. The catalogue in it is the writer's own
  rows: a sync leaves what slotting leaves, and reading in adds to what is there.
  `Lapses` holds runs of it, from the start, that end in an untruth.
- **Snapper** (`SnapperLoop`, `SnapperInfo`): the loop that looks, queues a job
  and looks again, over the same rows; the `info.xml` reader and the archive
  names.
- **The walk** (`Walk`): an explicit stack with pruning, device boundaries and
  path rewriting, over a finite tree, against what can be reached in it.
- **The window** (`Timeline`, `Window`, `Listings`): which backup is viewed and
  which are listed, when answers arrive late and in any order; and the
  catalogue's answer, which makes a backup left out no loss.
- **Recovery** (`Recovery`, `Layout`, `Homes`): the patterns file, the steps a
  recovery is made of, and which folder was the home folder.
- **The spool's limit and the Trash** (`Cap`, `Readers`, `TrashInfo`).

Code that works by changing things is a method with a loop, or a class with
those fields, proved against functions of its inputs or its old state; what the
code promises is then proved of those functions.

## Where the code and what is said of it part

The model follows the code. Where it does less than its comments or its caller
need, a lemma says on exactly which inputs.

- In shell style the matcher misses matches when a `*` after a `**` can be stuck
  at a `/` that the `**` could have taken (`Pattern.ShellStyleExactIff`; one
  such text is built for every such pattern).
- `**/` may stand for part of a level, where the tokens' own description says
  whole levels: `sh:**/foo` excludes `barfoo` (`Levels.ExcludesBarfoo`). Where
  some `**` can be told from what is next to it, of those that do not go on to a
  star or to the end, the two readings differ on some text unless the pattern
  matches nothing; and where there are no such, they agree
  (`Levels.WholeLevelsIff`).
- The pattern `pp:/` excludes nothing inside the root
  (`Exclusions.PrefixIsWithinIff`).
- Two or more archives slotted in next to each other, between archives that
  share an unchanged file, leave every second of them claiming that file,
  though nobody has read it: splitting a row around the first leaves the other
  half starting at the second, which then no longer spans it
  (`IndexSync.SyncSoundIff`, and of any rows `IndexSync.NewcomersBlankIff`). In a
  run of the catalogue such a sync leaves something shown of an archive that
  waits (`CatalogueRuns.UncarefulSyncShows`), and reading that archive in makes
  it browsable with a file it does not hold, unless it holds it after all
  (`CatalogueRuns.StepTellsTruthIff`, and a run from the start that comes to it,
  `Lapses.LiesAfterSync`). A backlog of snapshots is slotted in the same way
  (`SnapperLoop.DueBlankIff`, `SnapperLoop.NewcomerShowsIff`).
- Carrying rows over an archive whose listing does not speak for them joins each
  to one row that takes up again after it, and deletes every other that does.
  What is shown of the other archives is kept, whichever row the store comes to
  first or when that is the shortest, if and only if whatever one of two such rows
  covers past the other's end is covered by rows that stay
  (`Index.CarryKeepsIff`, `Index.ShortestKeepsIff`,
  `IndexWriter.ScopedKeepsIff`), as it is in rows that encode a history. After
  two snapshots are slotted in between backups that share a file it need not be:
  reading them in can take the file from the backup after them
  (`Lapses.BackupLoses`).
- A backlog of snapshots is read newest first, so one whose neighbour before it
  still waits is taken to hold nothing outside the folders read
  (`SnapperLoop.SnapshotShows`, `SnapperLoop.NewerShowsNothing`).
- Slotting archives in turns rows back to front when the catalogue was not in
  order of time and name, as an archive appended after the clock went back
  leaves it (`IndexOrder.RowsStayWholeIff`).
- Slotting archives in also loses the date each local archive may be discarded
  from, which is not among the columns carried over, so the next backup starts
  its clock again where that is promised not to happen
  (`Expiry.SyncKeepsDateIff`, `Expiry.ClockResetIff`,
  `Expiry.SlottingResetsClock`).
- After a backup, the writer is listening before the archive's listing is
  opened. If it does not open, an archive holding nothing is committed as read
  (`Cataloguing.CatalogueArchive`). Catching up opens the listing first and does
  not (`Cataloguing.IngestOne`). More generally a forwarding task that goes away
  before its last message commits part of a listing as the whole
  (`Channel.TruthfulIff`, `CatalogueRuns.StepTellsTruthIff`).
- A backup is left out of a folder's list because the next one holds all it does.
  That is so, in every folder, if and only if each file last shown of an archive
  nobody has read is shown of the next one read (`Listings.LeavesOutIff`); then
  landing loses nothing (`Listings.LandingKeepsFiles`). A run from the start comes
  to where it is not so, and the window passes over the one backup that holds a
  file (`Lapses.HiddenAfterPrune`).
- Asking for the listed backup one step away can go nowhere: a backup still
  being catalogued is listed, and landing passes over it
  (`Window.StepMovesIff`, `Window.StepCanStick`).
- Archive names sort as their times do only before the year 10000
  (`ArchiveNames.NamesSortIff`); a stamp before year 0 is not read back
  (`Stamps.StampReadsBackIff`).
- The spool's limit does depend on an even share being a fair estimate of what
  an eviction frees (`Cap.UnfairShareBreaksTheCap`): it is kept, for every limit
  and every archive arriving, if and only if the oldest archives together are
  never smaller than their even shares (`Cap.RespectsTheCapIff`).
- Sources that lie one inside another find the files they share twice
  (`Walk.OnceInAllIff`, `Walk.NestedFindsTwice`).
- After a recovery, a root that held the home folder from above is dropped, and
  what it backed up in the home folder with it (`Homes.BackupsCarryOnIff`).
- A percent escape or a character reference of a plus sign and digits is taken
  for a number, where a broken one is promised to be refused
  (`Readers.DecodesIff`, `Readers.UnescapesIff`, `Readers.PlusIsTaken`).

## Model

| member | source | states |
|---|---|---|
| Pattern.GlobMatch | crates/backtrack-core/src/pattern.rs:261-316 | the loop with one wildcard to resume from computes the recursive form of itself, within (text + 1) × (tokens + 1) rounds |
| Pattern.GlobSound | crates/backtrack-core/src/pattern.rs:261-316 | in either style, whatever the loop accepts the tokens mean |
| Pattern.MeansInPieces | crates/backtrack-core/src/pattern.rs:261-316 | tokens mean a text exactly if it is in pieces, one for each token, of which each is what its token stands for |
| Pattern.DefaultStyleExact | crates/backtrack-core/src/pattern.rs:261-316 | in the default style the loop accepts exactly what the tokens mean, for every token list and text |
| Pattern.ShellStyleExactIff | crates/backtrack-core/src/pattern.rs:286-309 | in shell style it does so on every text if and only if some token can match nothing or no star after a `**` can be stuck at a slash |
| Exclusions.ParseClass | crates/backtrack-core/src/pattern.rs:217-242 | a bracket's items up to the closing bracket, a first `]` an item, ranges, negation, or none if it is never closed |
| Exclusions.Tokenise | crates/backtrack-core/src/pattern.rs:170-213 | the loop yields the tokens of the grammar, one after another |
| Exclusions.WrittenIsRead | crates/backtrack-core/src/pattern.rs:170-242 | tokens written down as a pattern are split up into themselves, classes and ranges included |
| Exclusions.TokensSpelled | crates/backtrack-core/src/pattern.rs:170-242 | every text spells one list of tokens, which is the one it is split up into: classes end at the first bracket that may close them, and a bracket nothing closes is itself |
| Exclusions.DefaultStyleHasNoDirs | crates/backtrack-core/src/pattern.rs:170-213 | the default style never yields the token for whole folders |
| Levels.WholeLevelsIff | crates/backtrack-core/src/pattern.rs:170-186 | where no `**` falls short of a star or the end, or some such can be told, whole levels and any run mean the same on every text exactly for loose or hopeless token lists |
| Levels.PlainWholeLevelsIff | crates/backtrack-core/src/pattern.rs:170-186 | so for every list of which no token stands for some one character, such as any list of literals |
| Levels.SplitUpSpaced | crates/backtrack-core/src/pattern.rs:170-213 | as every pattern is split up, no wildcard comes right after a star |
| Levels.PartOfALevel | crates/backtrack-core/src/pattern.rs:170-186 | for every other such list, a text built from it that is matched with part of a level |
| Levels.LooseIsWhole | crates/backtrack-core/src/pattern.rs:170-186 | a loose list, told or not, matches nothing that whole levels do not |
| Levels.MadeUpFor | crates/backtrack-core/src/pattern.rs:170-186 | a list that is not loose and whose `**` cannot be told means the same all the same |
| Levels.ExcludesBarfoo | crates/backtrack-core/src/pattern.rs:170-186 | one pattern as written, and a path it excludes without a whole level |
| Exclusions.Compile | crates/backtrack-core/src/pattern.rs:91-100 | what is left out follows from each pattern's prefix, all of them in turn: `pp:` the folder and what is in it, `pf:` the very path, `sh:` and `fm:` what the rest means in that style, and anything else in the default one; exactly those with `re:` are reported |
| Exclusions.ParsedIs | crates/backtrack-core/src/pattern.rs:128-147 | so does each pattern: not compiled if and only if it starts with `re:`, and otherwise leaving out just what its prefix says |
| Exclusions.Excludes | crates/backtrack-core/src/pattern.rs:114-166 | a path is excluded exactly if some pattern excludes it, default style by the meaning of its tokens |
| Exclusions.PrefixIsWithinIff | crates/backtrack-core/src/pattern.rs:158-164 | a path prefix excludes what is at or inside its folder if and only if the folder is not the root |
| Checksums.NibbleIsFourBits | xtask/src/png.rs:108-136 | one step through the nibble table is four of the bit-at-a-time register |
| Checksums.Crc32.Write | xtask/src/png.rs:128-136 | the register goes on as the bit-at-a-time register does over the bytes |
| Checksums.CrcFoldJoins | xtask/src/png.rs:128-136 | checking in pieces is checking the whole |
| Checksums.CrcIsPolynomialDivision | xtask/src/png.rs:102-140 | the checksum is, bit for bit, the remainder of dividing by the generator polynomial |
| Checksums.Adler32 | xtask/src/png.rs:90-100 | the running sums reduced at every byte are the two sums of RFC 1950 section 8.2, reduced at the end |
| Png.WriteZlibStored | xtask/src/png.rs:63-88 | the data as stored blocks of at most 65535 bytes, the last one marked, with its checksum |
| Png.Encode | xtask/src/png.rs:24-47 | the file written for a size and a painting |
| Png.ZlibReadsBack | xtask/src/png.rs:63-88 | a reader of stored blocks that checks LEN against NLEN and the Adler-32 sum gives the data back |
| Png.ChunkReadsBack | xtask/src/png.rs:49-61 | a chunk is read back up to the longest length the standard allows, and from there to 2^32 refused |
| Png.DecodesIff | xtask/src/png.rs:24-47 | a decoder with the bytes RFC 2083 gives for the signature, the chunk types and the header's end returns every pixel painted if and only if the width and height are ones it allows and their data, counted from them, is below 2^31 bytes |
| Calendar.CopiesAgree | crates/backtrack-cli/src/render.rs:307-328 | the truncating copy and both Euclidean copies give one date, for every day and every second |
| Calendar.DateRoundTrip | crates/backtrackd/src/pipeline.rs:1370-1381 | every date of the calendar is the date of its own day number |
| Calendar.DayRoundTrip | crates/backtrack-core/src/index/item.rs:286-296 | every day's date is valid and counts back to the day |
| Calendar.DatesFollowTheCalendar | xtask/src/main.rs:387-398 | the date of the next day is the Gregorian successor of the date of the day, and day 0 is 1 January 1970 |
| Calendar.DatesAreOrdered | crates/backtrackd/src/pipeline.rs:1370-1381 | later days have later dates, and earlier ones have not |
| Stamps.StampReadsBackIff | xtask/src/main.rs:375-385 | a stamp is read back as its second exactly from year 0 on, and otherwise not at all |
| Stamps.FractionReads | crates/backtrack-core/src/index/item.rs:249-282 | a stamp with a fraction is read as its second and the first six digits as millionths, short ones filled up; one without a digit is refused |
| Stamps.StampShape | xtask/src/main.rs:375-385 | a stamp of a year that fits four characters, a minus sign one of them, has nineteen, with its marks at their places |
| Stamps.IntsRead | crates/backtrack-core/src/index/item.rs:257-265 | a number is digits with at most one sign, and nothing else is one |
| ArchiveNames.NamesDiffer | crates/backtrackd/src/pipeline.rs:1340-1366 | different seconds from the epoch on have different names |
| ArchiveNames.NamesInOrder | crates/backtrackd/src/pipeline.rs:1340-1366 | through year 9999, later seconds have names later as text |
| ArchiveNames.NamesSortIff | crates/backtrackd/src/pipeline.rs:1340-1366 | all names up to a horizon sort by time if and only if the horizon is before the year 10000 |
| ArchiveNames.NextFreeName | crates/backtrackd/src/pipeline.rs:1314-1328 | the first second from now on whose name is not taken, in at most as many steps as names taken, once the epoch is reached |
| ArchiveNames.NameSpelled | crates/backtrackd/src/pipeline.rs:1340-1366 | a name's sixteen characters, and the number each field of them is |
| ArchiveNames.BeforeTheEpoch | crates/backtrackd/src/pipeline.rs:1314-1328 | every instant before the epoch is named as the epoch is, `19700101T000000Z` |
| Index.ReadsBack | crates/backtrack-core/src/index/writer.rs:347-367 | the rows that cover an archive say exactly what it held |
| Index.OneEncoding | crates/backtrack-core/src/index/writer.rs:347-367 | a history has one set of rows |
| Index.EveryHistoryEncoded | crates/backtrack-core/src/index/writer.rs:347-367 | every history has such a set of rows |
| Index.ItemEncodes | crates/backtrack-core/src/index/writer.rs:502-541 | an item of a path the archive does not have yet, joining the rows either side of it that match, gives the rows of the history with that item |
| Index.ItemShows | crates/backtrack-core/src/index/writer.rs:502-541 | whatever the rows were, an item read in is shown of its archive besides what was, and nothing else changes |
| Index.CarryEncodes | crates/backtrack-core/src/index/writer.rs:176-208 | carrying, each row joined to one that takes it up, gives the rows of the history in which the archive holds what the one before held of everything not spoken for |
| Index.CarryShows | crates/backtrack-core/src/index/writer.rs:176-208 | whatever the rows were and whichever are joined, what carrying leaves shown of every archive, and just what it loses |
| Index.CarryKeepsIff | crates/backtrack-core/src/index/writer.rs:176-208 | whichever rows are joined nothing is lost, if and only if what one of two rows taken up covers past the other is covered by rows that stay |
| Index.ShortestKeepsIff | crates/backtrack-core/src/index/writer.rs:176-208 | the same condition for a store that comes to the shortest row first |
| Index.CarryLoses | crates/backtrack-core/src/index/writer.rs:176-208 | three rows of a file of which carrying leaves one, and an archive that loses the file |
| Index.ReachIsCarry | crates/backtrack-core/src/index/writer.rs:543-559 | for the newest archive, a delta's simpler way comes to the same |
| IndexRemove.RenumberedTiles | crates/backtrack-core/src/index/writer.rs:874-892 | clamping and renumbering leaves rows that say all of what the surviving archives held and nothing else, in pieces |
| IndexRemove.RenumberedShows | crates/backtrack-core/src/index/writer.rs:874-892 | whatever the rows were, what they show of each archive that stays is as it was |
| IndexRemove.Coalesce | crates/backtrack-core/src/index/writer.rs:917-975 | merging adjacent pieces left to right gives the history's one encoding |
| IndexRemove.RemoveArchives | crates/backtrack-core/src/index/writer.rs:849-905 | removing archives leaves the rows of the others' history, as if those had never been read |
| IndexSync.MovedEncodes | crates/backtrack-core/src/index/writer.rs:645-661 | renumbered, rows stand for newcomers holding whatever is unchanged across them |
| IndexSync.SyncEncodes | crates/backtrack-core/src/index/writer.rs:218-237 | what the rows stand for after splitting around the first so many newcomers |
| IndexSync.SyncSoundIff | crates/backtrack-core/src/index/writer.rs:676-691 | newcomers are left holding nothing if and only if no two are next to each other between archives that share an unchanged file |
| IndexSync.SlotShows | crates/backtrack-core/src/index/writer.rs:645-691 | whatever the rows were, what slotting leaves shown of each archive, newcomers included |
| IndexSync.NewcomersBlankIff | crates/backtrack-core/src/index/writer.rs:676-691 | whatever the rows were, nothing is shown of any newcomer if and only if no row spans two that are next to each other |
| IndexSync.SecondClaims | crates/backtrack-core/src/index/writer.rs:218-237 | the second of two newcomers in a gap left showing a file held on either side of it |
| IndexOrder.ExistingInOrder | crates/backtrack-core/src/index/writer.rs:612-631 | a stable sort by time and name keeps the existing archives of a catalogue in order as they were |
| IndexOrder.PositionIsNewNumber | crates/backtrack-core/src/index/writer.rs:633-641 | an archive's new number is its rank's among the slots |
| IndexOrder.RowsStayWholeIff | crates/backtrack-core/src/index/writer.rs:645-661 | slotting anything in leaves no row back to front, whatever the archives held, if and only if the catalogue was in order |
| IndexWriter.Writer.AppendArchive | crates/backtrack-core/src/index/writer.rs:325-345 | a pending row at the end of any catalogue, holding nothing, and nothing else changes |
| IndexWriter.Writer.Ingest | crates/backtrack-core/src/index/writer.rs:449-572 | of any archive, all of a listing goes in beside what was shown already, and the row is browsable; a scoped one then carries the rest as `Index.Carry` does; or, if it was cut short, nothing changes |
| IndexWriter.ScopedKeepsIff | crates/backtrack-core/src/index/writer.rs:449-572 | reading a scoped listing in leaves every other archive shown as it was, however the store comes to its rows, if and only if it is safe to carry |
| IndexWriter.Writer.Remove | crates/backtrack-core/src/index/writer.rs:849-905 | rows go with what they show, and what encoded a history encodes the survivors' history |
| IndexWriter.Writer.MarkExpirable | crates/backtrack-core/src/index/writer.rs:815-821 | every local archive without a date is given this one, and no other row changes |
| IndexWriter.Writer.Slot | crates/backtrack-core/src/index/writer.rs:609-699 | the catalogue in order of time and name, a row for each archive that was there and one, pending, for each newcomer; its rows moved and split as `IndexWriter.Slotted` says |
| IndexWriter.Writer.SyncArchives | crates/backtrack-core/src/index/writer.rs:585-699 | the store's archives become exactly those its repository lists, other stores' stay, and the rows are those of removing and then slotting |
| IndexWriter.SlottedShows | crates/backtrack-core/src/index/writer.rs:609-699 | in a catalogue in order, what is shown of each archive of the new one |
| IndexWriter.IngestAll | crates/backtrack-core/src/index/writer.rs:347-367 | listings read in, in a given order, by the writer's own calls |
| IndexWriter.AnyOrderSameRows | crates/backtrack-core/src/index/writer.rs:355-362 | the same calls in two orders leave the same shown of every archive, and the same rows where nothing was known of the archives read |
| Channel.Forward | crates/backtrackd/src/pipeline.rs:476-508 | the messages sent, for every listing, failure, cancellation and writer that goes away |
| Channel.SentIs | crates/backtrackd/src/pipeline.rs:476-508 | those messages: batches of 4096 items until the job is seen to be cancelled or fewer are left, then what is left or, exactly if it broke off or was cancelled by then, word that it is cut short |
| Channel.BatchedItems.Next | crates/backtrackd/src/pipeline.rs:1221-1237 | the items still to come, one at a time, across batches and empty ones |
| Channel.ArrivesWholeOrCut | crates/backtrackd/src/pipeline.rs:203-267 | the writer is given the whole listing in order, or whole batches of it and word that it was cut short |
| Channel.TruthfulIff | crates/backtrackd/src/pipeline.rs:240-267 | given only the first messages, it commits the whole listing or nothing if and only if the last got through or had nothing in it |
| Cataloguing.ReadIn | crates/backtrackd/src/pipeline.rs:462-475 | the archive is committed exactly if no message says that the listing is cut short, in any catalogue |
| Cataloguing.IngestOne | crates/backtrackd/src/pipeline.rs:203-244 | the archive becomes browsable with its whole listing, or nothing changes |
| Cataloguing.CatalogueArchive | crates/backtrackd/src/pipeline.rs:438-532 | from any catalogue, the archive is recorded, and committed if its listing comes to its end uncancelled, or does not open at all; it says that the engine failed, that it was cut short, that the job was cancelled or that all went well, each if and only if so |
| CatalogueRuns.StepTellsTruthIff | crates/backtrackd/src/pipeline.rs:97-165 | a step keeps every browsable row true if and only if it is harmless: a commit of a row of which no more is claimed than its archive holds, and which the messages given and what was claimed already make up in full |
| CatalogueRuns.StepSoundIff | crates/backtrackd/src/pipeline.rs:97-165 | a step keeps the rows the encoding of what has been read, and in order, if and only if it is careful: no archive appended out of order, no newcomers slotted in where a row spans two, no closing unheard before the last item |
| CatalogueRuns.AlwaysSoundIff | crates/backtrackd/src/pipeline.rs:97-344 | so it is at every point of a run exactly if every step of it is careful |
| CatalogueRuns.AlwaysTrueIff | crates/backtrackd/src/pipeline.rs:97-344 | every browsable row is true, in order, at every point of a run exactly if every step is harmless and none appends out of order |
| CatalogueRuns.UncarefulSyncShows | crates/backtrack-core/src/index/writer.rs:676-691 | every other sync leaves something shown of an archive that waits |
| CatalogueRuns.EveryRunTellsTruth | crates/backtrackd/src/pipeline.rs:97-344 | over every run of careful steps from nothing: a browsable row says what its archive truly holds, its listing was read to the end, and nothing is shown of one that waits |
| CatalogueRuns.BrowsableWasRead | crates/backtrackd/src/pipeline.rs:119-150 | over such runs an archive nobody has read to the end stays pending or unknown |
| CatalogueRuns.CatchUp | crates/backtrackd/src/pipeline.rs:97-165 | what one run of catching up leaves, newest first: of any catalogue, exactly the names listed and which become browsable; of one in order, what each row shows |
| CatalogueRuns.CaughtUpIff | crates/backtrackd/src/pipeline.rs:97-165 | the catalogue matches the repository, browsable and true, if and only if every outstanding listing reads, the job is not cancelled before it, and nothing untrue was claimed of it |
| CatalogueRuns.CaughtUpSoundlyIff | crates/backtrackd/src/pipeline.rs:97-165 | after a careful sync of a sound catalogue, if and only if every outstanding listing reads before the job is cancelled |
| Lapses.LiesAfterSync | crates/backtrack-core/src/index/writer.rs:676-691 | a run from the start after which a browsable backup shows a file it does not hold |
| Lapses.HiddenAfterPrune | crates/backtrack-core/src/index/reader.rs:700-753 | a run from the start after which the window passes over the only backup that holds a file |
| Lapses.BackupLoses | crates/backtrack-core/src/index/writer.rs:176-208 | two jobs that read a backlog of two snapshots, after which the backup after them shows a file no more |
| SnapperLoop.Catalogue.RunJob | crates/backtrackd/src/pipeline.rs:975-1079 | one job matches the snapshots found and reads the newest that waits, its rows carried as `Index.Carry` does, or leaves it out from then on |
| SnapperLoop.StaleIff | crates/backtrackd/src/snapper.rs:73-93 | a job is due if and only if the names held are not those found that have not failed, or one held has not been read |
| SnapperLoop.Catalogue.Watch | crates/backtrackd/src/snapper.rs:120-157 | the loop ends with just the names of the snapshots found that have not failed, all read, each tried once, after at most one job more than there were to try, and none exactly if it began so; no archive shows more than it should, and each just that, if the catalogue was sure |
| SnapperLoop.SureIff | crates/backtrack-core/src/index/writer.rs:609-699 | a catalogue of which nothing untrue is claimed stays so over a sync, listings being orderly, if and only if no row spans two newcomers next to each other |
| SnapperLoop.LoopLeaves | crates/backtrackd/src/pipeline.rs:1010-1079 | what the loop leaves of each archive: read with what stood before it when the loop began, or as it was; no more than that, and if the catalogue was sure no less |
| SnapperLoop.SnapshotShows | crates/backtrackd/src/pipeline.rs:1010-1079 | if it was sure, what a snapshot comes to show: its items and, outside its folders, what the one before it shows unless that waited too |
| SnapperLoop.NewerShowsNothing | crates/backtrackd/src/pipeline.rs:1010-1079 | two unchanged snapshots after a backup, of which the newer comes to show nothing |
| SnapperLoop.NewcomerShowsIff | crates/backtrackd/src/pipeline.rs:1010-1079 | right after its job a newcomer shows just what its listing and the archive before say if and only if it is not every second of its gap, or all that spans the gap is in its listing |
| SnapperLoop.DueBlankIff | crates/backtrack-core/src/index/writer.rs:676-691 | nothing is claimed of the snapshots that wait after slotting if and only if no row spans two that are next to each other |
| Expiry.SyncKeepsDateIff | crates/backtrack-core/src/index/writer.rs:609-699 | of the archives a sync keeps, exactly those without a date keep their row where it had anything to slot in, and all where it had not |
| Expiry.RestacksIff | crates/backtrack-core/src/index/writer.rs:609-699 | a sync has anything to slot in if and only if its store lists a name that no row of that store has |
| Expiry.AsWritten | crates/backtrack-core/src/index/writer.rs:609-699 | a run's rows after a sync are those the writer's sync leaves |
| Expiry.DateIs | crates/backtrack-core/src/index/writer.rs:806-821 | over a run of syncs and markings a date stays until the rows are made again, and is then the first marking since |
| Expiry.ClockResetIff | crates/backtrack-core/src/index/writer.rs:806-821 | an archive's date moves over a run if and only if a sync made the rows again and the first marking since is not for the same date |
| Expiry.SlottingResetsClock | crates/backtrack-core/src/index/writer.rs:806-821 | a snapshot, a backup slotted in before it and a marking, after which it is due to go at the second date |
| Walk.WalkFrom | crates/backtrack-core/src/walk.rs:221-274 | the stack walk hands on, as a bag, exactly what the recursive walk of the folder does |
| Walk.Walk | crates/backtrack-core/src/walk.rs:115-134 | a walk hands on exactly what is found of some source, or is a source's own row, in the order of the paths' text, as often as the recursive walk does; and counts the folders it could not read |
| Walk.Measure | crates/backtrack-core/src/walk.rs:153-168 | the sum over the files found, or nothing exactly if it was called off at one of them |
| Walk.FoundExactly | crates/backtrack-core/src/walk.rs:221-274 | what is found below a source is what can be reached with, at every step of the way, no folder of the never list at or above it, the rules not excluding it and, if asked, the source's device |
| Walk.SourcesExactly | crates/backtrack-core/src/walk.rs:171-207 | what all the sources give is what is found of one of them or is its own row, which it has if folders are asked for and it is not the root, in the never list or excluded |
| Walk.NothingUnreadIff | crates/backtrack-core/src/walk.rs:221-274 | no folder is counted as unread if and only if every source, and every folder reached, could be read |
| Walk.OnceBelow | crates/backtrack-core/src/walk.rs:221-274 | nothing is found twice below one source |
| Walk.OnceInAllIff | crates/backtrack-core/src/walk.rs:115-134 | the whole walk finds nothing twice if and only if no source with anything to find is inside another |
| Walk.NestedFindsTwice | crates/backtrack-core/src/walk.rs:115-134 | a tree and two sources, one inside the other, that find a file twice |
| Walk.WalkedAsItLies | crates/backtrack-core/src/walk.rs:209-219 | walking a tree at one place as though it lay at another finds what walking it there would |
| Timeline.EntriesSpec | crates/backtrack-gtk/src/model/trash.rs:82-106 | an entry is listed exactly when something that counts went to the Trash in its gap, at the latest such time |
| Timeline.EntryHasBase | crates/backtrack-gtk/src/model/trash.rs:37-73 | an entry's base is the newest catalogued backup no later than it, and it has none exactly if there is none |
| Window.AppState.SetCatalogue | crates/backtrack-gtk/src/state.rs:419-447 | a load's new state, and what is announced |
| Window.AppState.SetListing | crates/backtrack-gtk/src/state.rs:453-474 | an answer counts only for the folder and the load it was asked of |
| Window.AppState.SetFolder | crates/backtrack-gtk/src/state.rs:549-571 | a folder's new state, with its listing if it is known |
| Window.LoadTakes | crates/backtrack-gtk/src/state.rs:419-447 | a load takes its archives and listing, and keeps what is viewed while that is among them; otherwise it views where the newest catalogued backup lands, or nothing |
| Window.OtherTakes | crates/backtrack-gtk/src/state.rs:453-571 | every other operation takes what it is given, an answer only if it is current, and leaves the rest |
| Window.LandingIsSettled | crates/backtrack-gtk/src/state.rs:210-259 | landing is idempotent, for every view and number |
| Window.LandingLosesNothing | crates/backtrack-gtk/src/state.rs:200-259 | if each left-out backup holds no more than the next newer one, landing loses nothing any backup held |
| Listings.ListedExactly | crates/backtrack-core/src/index/reader.rs:700-753 | below a folder, the newest backup and each older one with a file the next archive does not hold as it was |
| Listings.ListedIsRead | crates/backtrack-core/src/index/reader.rs:700-753 | every backup listed has been read, where nothing is claimed of those that have not |
| Listings.CarriesOn | crates/backtrack-core/src/index/reader.rs:700-753 | a backup left out of a folder holds no file there that the next one read does not, where files go on over archives not read |
| Listings.SilentCarriesOn | crates/backtrack-core/src/index/reader.rs:700-753 | files go on so where nothing is claimed of an archive not read |
| Listings.LeavesOutIff | crates/backtrack-core/src/index/reader.rs:700-753 | so it is in every folder if and only if each file last shown of an archive not read is shown of the next one read |
| Listings.LandingKeepsFiles | crates/backtrack-gtk/src/state.rs:200-259 | given the catalogue's own answer, where the window lands holds every file the backup asked for holds in the folder |
| Listings.ClaimOfUnreadHides | crates/backtrack-core/src/index/reader.rs:700-753 | any three archives of which the middle one, not read, shows the file of the first and the last does not: the window lands on the last |
| Window.EveryRunIsSettled | crates/backtrack-gtk/src/state.rs:419-571 | over every run: what is viewed is where it lands, the list is newest first, a listing taken for current is the catalogue's answer, and so is every one kept |
| Window.ListedExactly | crates/backtrack-gtk/src/state.rs:289-307 | after every run, exactly which backups and entries are listed |
| Window.ViewedIsListed | crates/backtrack-gtk/src/state.rs:264-307 | after every run asking for known places, with a catalogued backup, what is viewed is listed |
| Window.StepIs | crates/backtrack-gtk/src/state.rs:350-360 | a step is to the place so many further on in the list, newest and oldest included, and to none past either end |
| Window.StepMovesIff | crates/backtrack-gtk/src/state.rs:350-360 | stepping moves to the place asked for if and only if landing does not pass over it |
| Window.StepCanStick | crates/backtrack-gtk/src/state.rs:350-360 | three backups on which a step goes nowhere |
| Recovery.WithinIsPrefix | crates/backtrack-core/src/recovery.rs:170-172 | a path is inside a folder exactly if the folder's names begin its own |
| Recovery.WithinIsRelative | crates/backtrack-core/src/recovery.rs:170-183 | the two tests agree, and what is inside goes back under the folder |
| Recovery.Patterns | crates/backtrack-core/src/recovery.rs:273-294 | the file, read back line by line, trimmed, first match first, selects a path exactly if it is in no `never` and in a `whole` or is an `exact`; refused exactly if a path cannot be written |
| Recovery.PathReadsBackIff | crates/backtrack-core/src/recovery.rs:262-278 | a path written into such a file is read as itself if and only if it is not refused, or is empty |
| Recovery.SpacesAre | crates/backtrack-core/src/recovery.rs:262-278 | which characters count as space at a line's end |
| Layout.Layout | crates/backtrack-core/src/recovery.rs:189-244 | the steps share out the home folder's entries: a step for each visible folder, the fewest bytes first and by name where those are equal, and the rest last; each counts the files in it outside Backtrack's own folders, and together everything inside outside those |
| Layout.SkipsNext | crates/backtrack-core/src/recovery.rs:224-229 | what is never restored is wholly within the last step, so taking it off never stops at zero |
| Homes.CommonFolder | crates/backtrack-core/src/recovery.rs:150-162 | the deepest folder that holds every root |
| Homes.SourceHome | crates/backtrack-core/src/recovery.rs:88-127 | this home if a root is inside or around it, else a most agreed guess, which some root points to, of equals the one that first comes up last, else the folder above the one root or the deepest around them all; none exactly if nothing was backed up |
| Homes.GuessIs | crates/backtrack-core/src/recovery.rs:128-147 | a root that names the user points to the part up to the last such name, another below `home` or `var/home` to the folder there, and any other to nothing |
| Homes.BackupsCarryOnIff | crates/backtrack-core/src/recovery.rs:249-264 | all that was backed up inside the home folder still is if and only if no root held it from above, or it was a root too |
| SnapperInfo.FieldsRead | crates/backtrack-core/src/snapper.rs:282-307 | the elements of a printed file are its fields, in order |
| SnapperInfo.CommentReads | crates/backtrack-core/src/snapper.rs:284-290 | a comment is passed over, whatever is in it |
| SnapperInfo.OthersPassedOver | crates/backtrack-core/src/snapper.rs:291-299 | so are a declaration and a closing tag |
| SnapperInfo.BodyFound | crates/backtrack-core/src/snapper.rs:272-277 | the element that holds them is found whole, whatever the fields say |
| SnapperInfo.SnapshotReadsBackIff | crates/backtrack-core/src/snapper.rs:245-269 | a snapshot's file is read as that snapshot, whatever its description, if and only if its number has 64 bits and its date is not before year 0 |
| SnapperInfo.UndescribedReadsBack | crates/backtrack-core/src/snapper.rs:259-262 | and so is one without a description, which is empty |
| SnapperInfo.NeedsAllThree | crates/backtrack-core/src/snapper.rs:245-258 | a file without a number, a type or a date is not read |
| SnapperInfo.CopyOfUndoes | crates/backtrack-core/src/snapper.rs:81-100 | a snapshot's archive name gives back its copy and its subvolume |
| SnapperInfo.NamedByFolder | crates/backtrack-core/src/snapper.rs:76-84 | a snapshot is named by the folder its copy is in, the root included |
| SnapperInfo.NamedAsRead | crates/backtrack-core/src/snapper.rs:89-100 | a name read as a snapshot's is that snapshot's own name, up to slashes that say nothing |
| Readers.Unescape | crates/backtrack-core/src/snapper.rs:312-338 | the loop computes the recursive reading of escapes |
| Readers.UnescapeUndoes | crates/backtrack-core/src/snapper.rs:312-338 | escaped text is read back as itself, each character as it is, by name, or by its number in either radix |
| Readers.UnescapesIff | crates/backtrack-core/src/snapper.rs:309-338 | exactly what writes a text in characters, the five names and decimal or hexadecimal references is read as it, but for references of a plus sign and digits |
| Readers.DigitsAre | crates/backtrack-core/src/snapper.rs:321-335 | which character is which digit, in either case |
| Readers.Decode | crates/backtrack-core/src/trash.rs:369-384 | the loop computes the recursive reading of percent escapes |
| Readers.DecodeUndoes | crates/backtrack-core/src/trash.rs:369-384 | percent-encoded bytes are read back, whichever others are left as they are |
| Readers.DecodesIff | crates/backtrack-core/src/trash.rs:367-384 | exactly what RFC 2396 section 2.4.1 writes is read, but for escapes of a plus sign and a digit |
| Readers.HexDigitsAre | crates/backtrack-core/src/trash.rs:374-377 | which byte is which hexadecimal digit, in either case |
| Readers.PlusIsTaken | crates/backtrack-core/src/trash.rs:367-384 | an escape and a reference of a plus sign and digits that are taken for a number |
| TrashInfo.ParseInfo | crates/backtrack-core/src/trash.rs:346-365 | the first path and the first date within the file's group, if it has both |
| TrashInfo.PrintedIsRead | crates/backtrack-core/src/trash.rs:346-365 | a file is read as the path and the date its group was written for, whatever lines and groups are before and after it and however many carriage returns end a line |
| TrashInfo.OtherGroupsHidden | crates/backtrack-core/src/trash.rs:349-357 | nothing after another group's header is read |
| Cap.PlanCap | crates/backtrackd/src/offline.rs:69-129 | evict the shortest run of the oldest whose even shares make room, or nothing if all of them would not |
| Cap.FitsExactly | crates/backtrackd/src/offline.rs:82-129 | there is room once what is held, less an even share for each evicted, and what is coming are at most the limit, and under the largest always |
| Cap.MoreIncomingEvictsMore | crates/backtrackd/src/offline.rs:69-129 | a bigger archive never needs fewer evictions, and what fits it fits a smaller one |
| Cap.RunsStayUnder | crates/backtrackd/src/pipeline.rs:648-705 | over every run of fair evictions, the spool never holds more than the limit, one archive taken into an empty spool, or what it began with |
| Cap.RespectsTheCapIff | crates/backtrackd/src/offline.rs:82-91 | for every limit and arriving archive the plan keeps the limit if and only if, for every k, the k oldest hold at least k even shares |
| Cap.UnfairShareBreaksTheCap | crates/backtrackd/src/offline.rs:82-91 | an eviction that frees less than its share, and a limit broken by it |

## Left out

- Borg, D-Bus, GTK, systemd, inotify, btrfs, the clock and the real filesystem: parameters, trees and maps stand for them.
- SQLite: a table is a sequence or a set of rows, and a transaction is one method; a row's mode, a path's text and the name search are not modelled, and a path is its number.
- Another job changing the catalogue between two locks of one: what keeps an archive's number good meanwhile, the exclusive access of Snapper's jobs, is not modelled.
- Listings that name a path twice: what they show is proved (`Index.ItemShows`), but rows are a set, so that two equal rows, which the writer would keep both, are one.
- Spool and filesystem-snapshot archives in the runs of the catalogue, which are of the primary store only.
- A store that fails to open, lock or write, but for the places where a failure is a parameter.
- The rest of the backup job: its phases, its measuring beside Borg and its progress.
- 64-bit overflow of sizes and times, and the encoder's capacity arithmetic.
- Symlinks among a walk's sources, names that are not UTF-8, and the order a folder is read in.
- Re-entrant subscribers of the window's state, and its selection.
- Nested elements in `info.xml`, such as user data, and a leading `.` in an archive name's folder.
- Local time zones: a Trash date is the text of its line.
- Borg's own reading of patterns: token lists and patterns files are proved against the code's meaning of them.
- The fixture builder's schedule, rendering, configuration, health, restore and scheduling, which would add only easy members.
- Levels.WholeLevelsIff: leaves out lists with a `**` that falls short of a star or the end where none such can be told from the tokens next to it; whether the readings agree there depends on what wildcards and `?`s on either side take up (`Levels.MadeUpFor`), and `Levels.LooseIsWhole` is the half that holds of all.
- IndexWriter.Writer.SyncArchives: promises whole rows for a catalogue in order; `IndexOrder.RowsStayWholeIff` says that they are not kept whole without it.
- SnapperLoop.Catalogue.RunJob: is for a catalogue in order, and so is `SnapperLoop.Catalogue.Watch`; `CatalogueRuns.StepSoundIff` says which appending leaves it so, and what removing does to rows that are not whole is not modelled.
- Cap.RunsStayUnder: is for limits below the largest 64-bit number, at which nothing is ever evicted.
- SnapperLoop.Catalogue.Watch: is for a set of snapshots that stays as it is while the loop runs, and a catalogue that can be synced.
