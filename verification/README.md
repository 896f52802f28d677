# Verified model of vmspect's disk readers, worker pools and decoders

vmspect inspects virtual machine images without starting them. This project models the parts
of it where a mistake would be hard to see, and proves what they compute:

- **The read path.** A backing file that may be read short, be interrupted or fail
  (`Files`); a sparse VMDK extent with its grain directory and lazily loaded grain tables
  (`SparseExtents`); a disk tiled by FLAT, SPARSE and ZERO extents (`Extents`); the reader over
  any of these, a raw file or an NBD session (`DiskReaders`); the `Read + Seek` view with its
  move-to-front chunk cache (`VirtualDisks`); whole runs of seeks and reads (`DiskRuns`). Each
  layer is a class or an in-place loop proved to show the bytes of one mathematical disk.
- **VMDK files.** The descriptor tokenizer and parser (`Texts`, `Descriptors`,
  `DescriptorParsing`), opening every declared extent (`DiskOpening`), the preflight walk along the
  parent chain (`ParentChain`), and opening a whole VMDK, monolithic or described by text
  (`VmdkOpening`). What the bytes and texts mean is told a second time, without those functions:
  every way to write a descriptor and what it says (`DescriptorTexts`), where directory, tables and
  grains lie in a sparse file (`SparseLayout`), and what the files together show or why they are not
  opened (`VmdkMeaning`). `EndToEnd` runs seeks and reads from the files of a VMDK, or from an NBD
  connection, through every layer.
- **The worker pools.** `inspect_batch` and `process_in_parallel` as one step system with a
  program counter per worker, a shared queue, outcome list, stored error, cancel flag and
  counters (`WorkerPool`); what the pools return (`PoolResults`, `PoolOutcomes`, `Sorting`), what
  becomes of the queue after cancellation (`PoolShutdown`) and what pollers see (`Progress`,
  `PoolProgress`). The theorems hold for every interleaving.
- **NBD.** The session permits (`NbdSessions`) and the client over a byte stream that may be cut
  anywhere or fail (`NbdClient`): each method is proved to compute a function of the connection, for
  any server, and what the function comes to is proved for a server that follows the NBD protocol
  document.
- **Partition tables.** MBR entries, EBR chains and GUID partition tables, read through the disk
  reader (`PartitionTables`, `Gpt`).
- **Discovery.** The breadth-first search for images and the rules for candidate names
  (`Discovery`, `ImageNames`, `Paths`).
- **The calendar.** Days since 1970 to civil dates, against an independent definition of the
  proleptic Gregorian calendar (`Calendar`).

Conventions: backing files never change; a failing or interrupted operation is drawn from a
schedule (`Quiet` and `Smooth` schedules contain no failure), and theorems that need a schedule
without failures say so; `usize` is 64 bits wide; bytes are integers below 256 and integer widths
are written out where the program could wrap or truncate. A read of a file that fails leaves every
invariant intact. A read of an NBD session that fails in transit may leave the client out of step
with the server; a ghost flag of the reader records that, lengths, positions and cache order stay
right, and what is said of the bytes is said of readers that have never been out of step.

Where the program departs from its documentation, or from what a caller would expect, the model follows the program:

- An exclusion given as a path excludes every directory with that final name, not only that path
  (`src/vms/discovery.rs:325-328`). `UnlistedIsExcluded` is such a directory. The two readings agree
  on every path exactly when each excluded path longer than one name also has its final name
  excluded alone (`ExcludesAsListedExactly`).
- After cancellation no pending item is to be pulled from the queue or started
  (`src/engine/mod.rs:32-34`), but a worker that has read the flag just before still takes one
  (`PullsAfterCancel`), and one past its second look still starts its task. An item can still be
  taken exactly when some worker is about to and the queue is not empty (`PullsExactly`); at most one
  for each worker is (`BoundedPulls`), and what was queued when the flag was raised is never started
  (`QueuedNeverStarts`).
- When a task itself returns `Cancelled` while the token is unset, `process_in_parallel` can end in
  a short `Ok` (`src/engine/mod.rs:127-136`). `SilentlyShort` is a run that does so. An item is in
  reach when fewer items before it do not succeed than there are workers. An uncancelled pool
  returns a short `Ok` exactly when not all items succeed and no item in reach fails
  (`ShortExactly`), whatever the interleaving.
- The stored percentage field can go backwards when workers race (`src/models/options.rs:257-269`):
  some run lowers it exactly when the pool has at least two workers
  (`StoredPercentageDropsExactly`). Snapshots recompute it and never go back.
- A read of 4 GiB or more asks the NBD server for its length modulo 2^32 and then waits for bytes
  that never come (`src/vms/nbd.rs:382-396`); a client in step succeeds exactly when the length fits
  (`ReadInStep`).
- After a read has failed in transit the client goes on with the same connection
  (`src/vms/nbd.rs:375-465`). `StaleBytesAreTaken` is a session in which the rest of the first reply
  then passes for the second one, and the read returns a byte that is not where it asked.
  `ReadBehindExactly` says exactly when a read behind stale bytes succeeds, and with which bytes; a client
  that has not failed in transit gets the export's bytes or an error (`NeverWrongInStep`).
- Numbered VMDK pieces are recognised by what follows the last separator only, so a piece whose
  descriptive suffix repeats the separator, such as `disk-s001-snap.vmdk`, passes for a primary
  image (`SuffixedPieceSlips`). `PieceIsCandidateExactly` says for every piece whether it passes;
  a suffix that does not repeat the separator, as in `disk-s001-copy.vmdk`, never does
  (`NumberedPieces`).

## Model

| member | source | states |
|---|---|---|
| Files.File.Read | src/vms/vmdk.rs:424-438 | One operating-system read: some bytes of the file from the current position, end of file, an interruption or a failure, and nothing else |
| Files.ReadOrZeros | src/vms/vmdk.rs:424-438 | Whatever the short reads and interruptions, the range is the file's bytes with zeros past its end, bytes outside the range are untouched, and the only error is a real failure, never an interruption |
| Files.ReadExact | src/vms/vmdk.rs:370-371 | Fills the buffer with the file's bytes; without failures it succeeds exactly when the file is long enough |
| Bytes.LeRoundTrip | src/vms/vmdk.rs:54-84 | Little-endian encoding is undone by decoding at any width |
| Bytes.BeRoundTrip | src/vms/nbd.rs:388-396 | Big-endian encoding is undone by decoding at any width |
| Bytes.Le64RoundTrip | src/vms/detector.rs:217-226 | Eight bytes that encode a number least significant first decode to it |
| Bytes.DivCeilCovers | src/vms/vmdk.rs:324-327 | Ceiling division is the least number of blocks that hold the bytes |
| SparseExtents.IsPowerOfTwoCorrect | src/vms/vmdk.rs:96-101 | The halving test accepts exactly the powers of two |
| SparseExtents.HeaderRoundTrip | src/vms/vmdk.rs:54-84 | A header laid out at the documented offsets, whatever fills the gap and the rest, is read back field by field |
| SparseExtents.Translate | src/vms/vmdk.rs:394-404 | Every position below the capacity decomposes into directory index, table index and offset within range that recompose to it |
| SparseExtents.GridUnique | src/vms/vmdk.rs:394-404 | That decomposition is the only one |
| SparseExtents.GridByte | src/vms/vmdk.rs:401-416 | The address map gives, at the composed position, the byte the grid cell holds; which byte of the file that is, `SparseLayout` says |
| SparseExtents.ImageSized | src/vms/vmdk.rs:324-346 | After a supported header the directory covers every position below the capacity |
| SparseExtents.SparseExtent.constructor | src/vms/vmdk.rs:351-359 | A new extent shows the image its fields describe and has no table loaded |
| SparseExtents.SparseExtent.Table | src/vms/vmdk.rs:362-383 | Returns the table the file holds, from the cache or the file alike; without failures it succeeds exactly when the table lies in the file |
| SparseExtents.SparseExtent.ReadWithinGrain | src/vms/vmdk.rs:394-417 | Fills a run inside one grain with the image's bytes and leaves the rest of the buffer alone |
| SparseExtents.SparseExtent.ReadAt | src/vms/vmdk.rs:387-421 | Returns min(length, capacity - offset) and exactly the image's bytes, whichever tables were loaded before; without failures it succeeds exactly when the needed tables lie in the file |
| SparseExtents.LoadDirectory | src/vms/vmdk.rs:342-349 | Loads the directory entries the file holds, or fails exactly when the file ends before them |
| SparseExtents.FromHeader | src/vms/vmdk.rs:315-360 | Opens, delegates or fails as the header and the file decide, and what is opened shows the planned image |
| SparseLayout.ImageShowsLayout | src/vms/vmdk.rs:334-416 | With the directory entries at the primary directory's sector times 512, or the redundant one's when flag 0x2 is set and its offset usable, the table entries at their sector times 512 and the grains at theirs, the extent shows the grains one after the other, zeros for entries 0 and 1 |
| SparseLayout.EveryImageIsLaidOut | src/vms/vmdk.rs:342-375 | Every file whose directory and tables lie inside it is laid out in that way |
| SparseLayout.TablesLaid | src/vms/vmdk.rs:362-375 | The tables of such a layout lie inside the file, so that no read fails for want of one |
| SparseLayout.HeaderDecides | src/vms/vmdk.rs:88-104 | For every header and file, in flag bits, byte counts and powers of two: opened, delegated and for which reason, or failed because the file ends before the directory |
| SparseLayout.TooLargeExactly | src/vms/vmdk.rs:324-332 | The directory is disproportionate exactly when the capacity exceeds 2^20 tables' worth of grains |
| Extents.ConcatAt | src/vms/stream.rs:555-566 | A position covered by an extent of a tiling is the matching byte of the concatenation |
| Extents.CoveredOnce | src/vms/stream.rs:555-558 | In a tiling every position in range has exactly one covering extent; empty extents cover none |
| Extents.TilingShows | src/vms/stream.rs:786-829 | A tiling from zero covers the concatenation and nothing else, so the gap branch is never taken inside it |
| Extents.Find | src/vms/stream.rs:555-558 | Finds an extent covering the position, or there is none |
| Extents.ReadFromExtent | src/vms/stream.rs:568-578 | Fills a run from a flat, sparse or zero extent with its declared content, short sparse data padded with zeros |
| Extents.ReadRun | src/vms/stream.rs:553-579 | One turn of the loop copies at least one byte of the disk, or the position is past its end |
| Extents.ReadFromExtents | src/vms/stream.rs:550-582 | Any range is the disk's bytes, zeros past the end; failures come only from files and missing tables |
| DiskReaders.ReadSparse | src/vms/stream.rs:458-463 | A sparse backend returns the bytes within its capacity |
| DiskReaders.NbdReadMeans | src/vms/stream.rs:465-468 | A client in step gets bytes of the export or an error, and only a failure in transit puts it out of step; untroubled it succeeds for every length below 2^32 and stays untroubled |
| DiskReaders.ReadNbd | src/vms/stream.rs:465-468 | In step, an NBD backend returns the bytes within its export, however the stream is cut, and tells its errors apart; out of step, as many bytes as would be expected |
| DiskReaders.DiskReader.PollCancel | src/vms/stream.rs:439-446 | Reports cancellation exactly when the token reads as set at this poll |
| DiskReaders.DiskReader.ReadRange | src/vms/stream.rs:438-477 | For any backend: as many bytes as are available before the disk, its extent or its export ends, which padded with zeros are the requested stretch unless an NBD session has been out of step; only a failure in transit puts it there; cancellation and the statistics counters exactly as documented |
| DiskReaders.DiskReader.FillRange | src/vms/stream.rs:509-516 | The driver call fills the whole buffer with the visible disk, zeros beyond it |
| DiskReaders.ClipAndPad | src/vms/stream.rs:448-451 | Clipping at the virtual size and padding again shows the same bytes as reading the visible disk |
| DiskReaders.AvailableExactly | src/vms/stream.rs:448-463 | Which bytes of a read are available: those before the virtual size, and for a sparse disk or an export before its own end |
| Lru.KeysAreMostRecent | src/vms/stream.rs:909-943 | After any trace, the move-to-front cache keys are the most recently touched distinct chunks, in order |
| Lru.RecencyOrder | src/vms/stream.rs:909-919 | Earlier keys were touched later |
| Lru.Rank | src/vms/stream.rs:909-919 | The number of distinct chunks touched since a chunk was touched is its rank in the recency list |
| Lru.HitExactly | src/vms/stream.rs:909-943 | A chunk is cached exactly when it was touched before and fewer than the capacity of distinct others were touched since |
| VirtualDisks.MaxChunks | src/vms/stream.rs:877 | Between 4 and 512 chunks whatever the chunk size |
| VirtualDisks.MaxChunksBound | src/vms/stream.rs:876-877 | That many chunks hold at most max(64 MiB, four chunks) |
| VirtualDisks.MaxChunksExactly | src/vms/stream.rs:876-877 | The most chunks that fit 64 MiB, but four at least and 512 at most |
| VirtualDisks.NextPowerOfTwo | src/vms/stream.rs:868 | The least power of two not below its argument |
| VirtualDisks.VirtualDisk.constructor | src/vms/stream.rs:867-879 | The chunk size is rounded up to less than twice max(size, 512) and fits 64 bits, as does every address of the view; position zero, empty cache |
| VirtualDisks.VirtualDisk.CacheBounded | src/vms/stream.rs:940-943 | In every state the cache keeps at most its capacity of chunks and max(64 MiB, four chunks) of bytes |
| VirtualDisks.CoherentHit | src/vms/stream.rs:909-919 | Moving a hit to the front keeps every chunk as long as the disk's, and equal to it if the driver can be trusted, and the keys in recency order of the longer trace |
| VirtualDisks.CoherentMiss | src/vms/stream.rs:940-943 | So does evicting the last chunk of a full cache and pushing the loaded one in front |
| VirtualDisks.VirtualDisk.Touch | src/vms/stream.rs:908-948 | The chunk ends up at the front with the driver's bytes; it was a hit exactly under the recency condition, and only then is a hit recorded; a failed load changes nothing |
| VirtualDisks.VirtualDisk.Load | src/vms/stream.rs:923-938 | The payload is the driver's bytes for that chunk, clipped to the virtual size |
| VirtualDisks.ChunkInView | src/vms/stream.rs:904-906 | The chunk index and offset of a position find the view's byte inside the chunk's payload |
| VirtualDisks.VirtualDisk.ReadWithCache | src/vms/stream.rs:897-962 | The count is min(buffer, view - position), always; the bytes are the view's, whatever the cache holds, unless the session has been out of step; the rest of the buffer is untouched |
| VirtualDisks.VirtualDisk.Read | src/vms/stream.rs:965-971 | The same at the current position, which advances by the count, or stays on failure |
| VirtualDisks.VirtualDisk.Seek | src/vms/stream.rs:973-988 | Fails exactly for a negative target and then stays; otherwise moves there (taken as 64 bits); where that is, the seek rows of `DiskRuns` say |
| DiskRuns.Perform | src/vms/stream.rs:965-988 | One seek or read on the cached disk answers as the pure view does, or the read fails and the position stays; out of step, the answer is right but for its bytes |
| DiskRuns.PerformAll | src/vms/stream.rs:897-988 | Every run of seeks and reads conforms to the pure view up to the read that puts a session out of step, if one does, which fails; the later answers are right but for their bytes; undisturbed, the run equals the pure run |
| DiskRuns.ConformingRun | src/vms/stream.rs:897-988 | A conforming run without failures is the pure run, so cache state cannot show |
| DiskRuns.SplitRead | src/vms/stream.rs:901-961 | Two reads in a row return together what one read of both lengths returns |
| DiskRuns.ReadsFromStart | src/vms/stream.rs:973-988 | From anywhere, a seek to p from the start and a read give the bytes of the view from p on |
| DiskRuns.ReadsFromEnd | src/vms/stream.rs:973-988 | From anywhere, a seek to k bytes before the end and a read give the last k bytes, or as many of them as were asked for |
| DiskRuns.ReadsAgain | src/vms/stream.rs:965-988 | Stepping back over what was read and reading again gives the same bytes |
| DiskRuns.SkipsAhead | src/vms/stream.rs:965-988 | Stepping over bytes leads where reading them leads |
| DiskRuns.RefusedExactly | src/vms/stream.rs:979-984 | A seek is refused exactly when it leads before the start, and then what follows is as if it had not been tried |
| DiskOpening.PlanTiles | src/vms/stream.rs:786-829 | The opened extents tile from zero and their total is the declared sectors times 512 |
| DiskOpening.PlanBodies | src/vms/stream.rs:788-823 | Each extent starts after those before it, has its declared length and the body its line asks for |
| DiskOpening.PlanStops | src/vms/stream.rs:793-822 | The first extent that cannot be opened natively decides the outcome |
| DiskOpening.OpenSparse | src/vms/vmdk.rs:275-313 | A sparse extent file opens, is delegated or fails as its header and contents decide |
| DiskOpening.OpenBody | src/vms/stream.rs:790-822 | One descriptor line, its offset in bytes inside 64 bits, opens to the planned body, is delegated, or fails exactly when the plan does |
| DiskOpening.OpenExtents | src/vms/stream.rs:784-829 | The extent-building loop yields the planned tiling, the reason for delegation, or the error of the first extent that cannot be opened |
| DiskOpening.OpenDisk | src/vms/stream.rs:772-840 | After the preflight, the reader over a descriptor shows exactly the concatenation of its extents at the declared capacity, or zeros over the size of its own file when it declares none |
| DiskOpening.ShownBytes | src/vms/stream.rs:246-252 | The announced capacity cuts nothing off the tiled extents; without a declared sector it is the descriptor file's size, all zeros |
| VmdkOpening.CheckEmbedded | src/vms/stream.rs:743-761 | The descriptor embedded in a sparse image objects to reading it natively exactly when it has a parent or declares several extents |
| VmdkOpening.OpenMonolithic | src/vms/stream.rs:739-769 | A sparse image opens to the disk its header describes, is delegated, or fails, as its embedded descriptor and header decide |
| VmdkOpening.OpenText | src/vms/stream.rs:772-840 | A text descriptor opens to the disk of the files it names relative to its own path, is delegated, or fails |
| VmdkOpening.OpenContents | src/vms/stream.rs:735-845 | Header signature, then text, then neither: the file opens to the one disk its bytes describe, at the capacity announced for it |
| VmdkOpening.OpenVmdk | src/vms/stream.rs:733-845 | The preflight error comes first, exactly when the parent chain or a component is unsound; what passes opens as its bytes describe |
| VmdkMeaning.NoParentCid | src/vms/vmdk.rs:132-138 | The text ffffffff is the parent CID that stands for no parent |
| VmdkMeaning.ParentDecides | src/vms/vmdk.rs:132-138 | A text, or an embedded descriptor, with a parent CID other than 0xFFFF_FFFF or a hint that is not all white space is delegated as a delta; of any other the extents alone decide |
| VmdkMeaning.PartShown | src/vms/stream.rs:786-823 | A line's extent shows zeros, the named file's bytes from its offset in sectors of 512 on, or the grains of the named sparse file, as its type says |
| VmdkMeaning.SparseFileShows | src/vms/vmdk.rs:275-360 | A file that begins with a header and is laid out by it opens to an image that shows its grains |
| VmdkMeaning.DescriptorShows | src/vms/stream.rs:772-840 | The disk of a descriptor that stands alone is the parts of its extents one after the other |
| VmdkMeaning.LineDecides | src/vms/stream.rs:788-822 | For every line: delegated for its type, for want of a file, or for what the sparse file's header says; failed for a missing file, one cut off or one without signature |
| VmdkMeaning.FirstLineDecides | src/vms/stream.rs:786-829 | The first line that is not opened decides for the whole descriptor |
| VmdkMeaning.TitledExactly | src/vms/vmdk.rs:184-188 | A descriptor is what has its title in the first 64 bytes, perhaps behind white space |
| VmdkMeaning.TextShows | src/vms/stream.rs:772-840 | A titled text that stands alone, with the files it names beside it, opens at its announced size to the parts of its extents one after the other |
| VmdkMeaning.TextDelegated | src/vms/stream.rs:774-784 | A text with a parent or without extents is delegated, with the reason |
| VmdkMeaning.MonolithicShows | src/vms/stream.rs:739-769 | A sparse image without a parent opens at its announced size to its grains one after the other |
| VmdkMeaning.MonolithicDelegated | src/vms/stream.rs:748-761 | A sparse image whose embedded descriptor has a parent or several extents is delegated, with the reason |
| VmdkMeaning.MonolithicByHeader | src/vms/stream.rs:763-769 | Otherwise the header decides: opened, delegated for what it says, or failed |
| VmdkMeaning.TextByFirstLine | src/vms/stream.rs:786-829 | The first line of a text that is not opened decides for it |
| VmdkMeaning.StoreIsBeside | src/vms/vmdk.rs:440-452 | The files an opened descriptor reads are those its names resolve to beside it |
| VmdkMeaning.OthersDecided | src/vms/stream.rs:735-845 | A text that cannot be decoded and a sparse image cut off in its header fail; what is neither is delegated |
| EndToEnd.RunOnReader | src/vms/stream.rs:855-988 | On any backend a run of seeks and reads on a view conforms to the backend's disk, for an NBD session up to the read that fails with its connection, and equals the intended run when nothing disturbs it |
| EndToEnd.RunOnVmdk | src/vms/stream.rs:733-988 | From the files of a VMDK through preflight, opening, parser, extents, reader and cache: every run on a view conforms to the disk they describe, and equals the intended run when no file fails |
| EndToEnd.OpenExport | src/vms/stream.rs:399-417 | Over a well-formed greeting a reader opens that shows the export at the larger of its own and the announced size |
| EndToEnd.RunOnExport | src/vms/nbd.rs:212-465 | From an NBD greeting through handshake, replies, reader and cache, for every schedule of cuts and failures: a run on a view conforms to the export with zeros up to the image size, up to the read that fails with the connection; throughout when it does not break; and equals the intended run when the server reports no error |
| EndToEnd.DiskByte | src/vms/stream.rs:786-829 | A position inside an extent's declared range shows that extent's byte, and the disk is as long as the descriptor declares |
| EndToEnd.IntendedOnText | src/vms/stream.rs:772-988 | What a run over part of a described disk is to answer is decided by the parts its extent lines name: file bytes from the offset on, grains of a sparse file, or zeros |
| EndToEnd.IntendedOnSparse | src/vms/stream.rs:739-988 | What a run over part of a sparse image is to answer is decided by its grains |
| EndToEnd.IntendedOnExport | src/vms/stream.rs:399-417 | What a run over part of an export is to answer is decided by its bytes, with zeros up to the announced size |
| EndToEnd.PrintedPlan | src/vms/stream.rs:772-829 | Any text that says what a descriptor says, however written, opens the same disk |
| Texts.TrimUnwraps | src/vms/vmdk.rs:222 | Trimming takes a pair of quotes off a trimmed value and nothing else |
| Texts.TrimAround | src/vms/vmdk.rs:193 | Trimming takes off whatever may be dropped around a text, and nothing of the text |
| Texts.LinesOfJoin | src/vms/vmdk.rs:192 | Splitting what was joined gives the lines back |
| Texts.SplitAtFirst | src/vms/vmdk.rs:220 | Splitting stops at the first separator only |
| Texts.NumeralRoundTrip | src/vms/vmdk.rs:206-209 | A numeral below the limit parses back to its number in radix 10 or 16 |
| Texts.NumberExactly | src/vms/vmdk.rs:206-225 | A text parses to a number exactly when it writes that number: an optional plus sign, leading zeros and the numeral in any letter case, below the limit |
| Texts.WhitespaceExactly | src/vms/vmdk.rs:132-138 | The code points that count as white space |
| DescriptorParsing.Tokenize | src/vms/vmdk.rs:237-260 | The loop computes the token function whose inverse `DescriptorTexts.RowTokens` states |
| DescriptorTexts.TokensOfQuoted | src/vms/vmdk.rs:243-251 | A quoted name is collected as it stands, whatever spaces and tabs it holds |
| DescriptorTexts.RowTokens | src/vms/vmdk.rs:237-260 | A row of any number of fields, in pieces between quotes or not, with any blanks between them, tokenizes into its fields; a missing last quote makes no difference |
| DescriptorParsing.ParseDescriptor | src/vms/vmdk.rs:190-234 | The loop over the lines computes the fold of the per-line meaning, which the rows of `DescriptorTexts` pin down |
| DescriptorParsing.OnlySignificantLinesCount | src/vms/vmdk.rs:193-231 | Comments, blank lines and lines with unknown keys change nothing, anywhere |
| DescriptorParsing.LineSets | src/vms/vmdk.rs:203-231 | A line sets no field but the one of its kind |
| DescriptorParsing.FoldPart | src/vms/vmdk.rs:192-231 | A part of a fold's result that only some items can change is decided by those items alone |
| DescriptorParsing.ExtentsApart | src/vms/vmdk.rs:190-234 | The extents are decided by the extent lines alone, in their order, whatever stands between them |
| DescriptorParsing.FoldFiltered | src/vms/vmdk.rs:192-196 | Dropping what a fold passes over does not change its result |
| DescriptorTexts.RowMeans | src/vms/vmdk.rs:203-217 | A row with an access word in any letter case and at least three fields declares the extent of its fields: no file, a file at offset zero, or a file and an offset, numbers that are none counting as zero; any other row sets nothing |
| DescriptorTexts.ExtentRoundTrip | src/vms/vmdk.rs:204-217 | A printed extent line, with a zero offset written or left out, declares exactly that extent |
| DescriptorTexts.SettingMeans | src/vms/vmdk.rs:219-231 | A setting sets its key, in any letter case and with any blanks around it, to the value between any number of quotes, and is never taken for an extent; other keys set nothing |
| DescriptorTexts.TextMeans | src/vms/vmdk.rs:190-234 | Every text of rows, settings, comments and blank lines, with carriage returns, zeros and blanks around them, parses to its extents in order and the last value of each key |
| DescriptorTexts.DescriptorRoundTrip | src/vms/vmdk.rs:190-234 | Any text that says what a descriptor says parses to that descriptor |
| DescriptorTexts.PrintSays | src/vms/vmdk.rs:190-234 | The usual text of a well-formed descriptor, each zero offset written or left out, is such a text |
| DescriptorTexts.PrintRoundTrip | src/vms/vmdk.rs:190-234 | Printing a well-formed descriptor in that way and parsing gives it back |
| ParentChain.CheckComponents | src/vms/stream.rs:605-648 | Succeeds exactly when the parent named by a non-blank hint and every extent file except those of ZERO extents exist |
| ParentChain.Validator.CheckFile | src/vms/stream.rs:685-717 | Opens one file: Ok exactly when it opens, parses and has its components, and yields the parent it names |
| ParentChain.Validator.Inner | src/vms/stream.rs:661-731 | From any visited set and depth: Ok exactly when a linked, sound, repetition-free chain ends within the remaining depth; a cycle is reported exactly when the chain comes back to a visited file; too deep exactly when it goes on soundly past the remaining depth; the opened files are bounded |
| ParentChain.ValidateComponents | src/vms/stream.rs:656-659 | The whole check on any parent graph: the same from the start, too deep exactly when 33 sound, distinct files are each the parent of the one before and the last names a parent; at most 33 files are opened, and any other failure is that of the file opened last |
| ParentChain.DistinctIsPairwise | src/vms/stream.rs:674-680 | Never meeting a visited identity is pairwise distinctness of identities |
| ParentChain.LinkedByIndex | src/vms/stream.rs:716-730 | A linked chain is one in which each file names the next and the last names none |
| ParentChain.LinkedOnwardByIndex | src/vms/stream.rs:716-730 | A chain that goes on is one in which each file names the next and the last names a parent too |
| ParentChain.ExceedsStep | src/vms/stream.rs:668-731 | A chain exceeds a depth exactly when its first file is new, sound and names a parent whose chain exceeds one less |
| VmdkMeaning.PreflightDecides | src/vms/stream.rs:605-731 | A file passes exactly when the parent it hints at and the files of all its extents but the ZERO ones exist, and its parent is the one it hints at |
| VmdkMeaning.UnreadableFails | src/vms/stream.rs:683-713 | A file that cannot be opened, a sparse image cut off in its header and a text that cannot be decoded do not pass |
| Calendar.CivilIsDate | src/parsers/windows.rs:1153-1165 | For every day number the result is a valid date |
| Calendar.DayNumberOfCivil | src/parsers/windows.rs:1153-1165 | Counting the days of the result by calendar rules gives the day number back |
| Calendar.CivilOfDayNumber | src/parsers/windows.rs:1153-1165 | For every valid date the algorithm undoes the day count |
| Calendar.CivilSuccessor | src/parsers/windows.rs:1153-1165 | The next day number is the calendar successor |
| Calendar.DayNumberMonotone | src/parsers/windows.rs:1153-1165 | Earlier dates have smaller day numbers |
| Calendar.EpochIsDayZero | src/parsers/windows.rs:1150-1151 | Day zero is 1970-01-01 |
| Calendar.YearStarts | src/parsers/windows.rs:1157-1159 | The year of the era is below 400 and neither subtraction of the day of the year underflows |
| Calendar.NoOverflow | src/parsers/windows.rs:1153-1165 | Exactly which day numbers keep every intermediate within 64 bits |
| Calendar.EpochDate | src/parsers/windows.rs:1144-1148 | A 32-bit time stamp falls within its date, between 1970 and 2106 |
| Progress.PercentBounds | src/models/options.rs:139-145 | Never above 100, and 100 exactly when completed >= total > 0 |
| Progress.PercentMonotone | src/models/options.rs:139-145 | More completed tasks never show a smaller percentage |
| Progress.InspectionProgress.ResetForBatch | src/models/options.rs:233-241 | Clears all metrics, sets the total, and leaves a set cancellation token visible |
| Progress.InspectionProgress.IncrementCompletedTasks | src/models/options.rs:257-269 | Counts one task (wrapping) and stores the percentage of the saturated count |
| Progress.InspectionProgress.TakeSnapshot | src/models/options.rs:278-297 | With a total set, the percentage shown is the whole part of the completed share, at most 100 and 100 exactly when nothing is left, whatever the stored field says |
| Progress.PercentIsFloor | src/models/options.rs:139-145 | The percentage is the whole part of the share, the only number between these bounds |
| Progress.SnapshotsInOrder | src/models/options.rs:278-297 | Of two snapshots with the same total, the one that saw more tasks never shows less |
| WorkerPool.StepConserves | src/engine/mod.rs:367-388 | Each step of a worker keeps every item in exactly one place and popped items a prefix |
| WorkerPool.WorkersAtMost | src/engine/mod.rs:66 | As many workers as asked for, one at least, no more than items and no more than 32 |
| WorkerPool.RunInv | src/engine/mod.rs:342-424 | In every state of every run each index is in exactly one of queue, one worker's hands, outcomes or dropped, and the queue is a suffix |
| WorkerPool.RunGrows | src/engine/mod.rs:379-384 | Outcomes and counters only grow along a run |
| WorkerPool.BoundedShutdown | src/engine/mod.rs:367-378 | Once the cancel flag is set, at most one further outcome per worker is added |
| PoolShutdown.BoundedPulls | src/engine/mod.rs:367-378 | Once the cancel flag is set, at most as many items are taken from the queue as workers were about to take one |
| PoolShutdown.PullsExactly | src/engine/mod.rs:32-34 | Once it is set, some continuation takes an item exactly when a worker is about to and the queue is not empty |
| PoolShutdown.PullsAfterCancel | src/engine/mod.rs:32-34 | With any work at all, a run in which an item is taken after the flag was set |
| PoolShutdown.QueuedNeverStarts | src/engine/mod.rs:367-378 | An item that was in the queue when the flag was set is never started, taken or not |
| WorkerPool.JoinAccounts | src/engine/mod.rs:401-405 | At join the outcomes are the popped prefix minus at most one item per worker, and are all counted |
| WorkerPool.UncancelledBatchIsComplete | src/engine/mod.rs:342-424 | A batch whose flag was never set records every input exactly once |
| WorkerPool.RunsAreBounded | src/engine/mod.rs:90-137 | Every run is finite, with an explicit bound on its steps |
| WorkerPool.NoDeadlock | src/engine/mod.rs:90-137 | Until all workers have stopped some worker can step |
| PoolResults.SortAscends | src/engine/mod.rs:412 | Sorting by index permutes and, items being unique, ascends strictly |
| PoolResults.SplitPartitions | src/engine/mod.rs:414-421 | Reports and errors partition the outcomes by success |
| PoolResults.BatchOutcome | src/engine/mod.rs:401-424 | At join reports plus errors are the outcomes, as many as the tasks counted, each in strictly ascending input order |
| PoolResults.ParallelOutcomes | src/engine/mod.rs:115-123 | In every interleaving the recorded values are the function's values on distinct items in input order |
| PoolResults.NoErrorMeansComplete | src/engine/mod.rs:115-136 | Uncancelled, without an error and without a task returning `Cancelled`, nothing is missing |
| PoolResults.CompleteExactlyWhenAllSucceed | src/engine/mod.rs:139-171 | Uncancelled, the full list is returned exactly when the function succeeds on every item, and then it is the map in input order |
| PoolResults.ErrorExactlyWhenOneFails | src/engine/mod.rs:124-158 | Uncancelled and without `Cancelled` results, an error is returned exactly when some item fails, and it is one the function produced |
| PoolResults.StoredStays | src/engine/mod.rs:127-134 | An error, once stored, is never replaced |
| PoolResults.StoredIsFirst | src/engine/mod.rs:127-134 | In every state of every run the stored error is that of the first task whose failure was put away, and without one none was |
| PoolResults.FirstErrorWins | src/engine/mod.rs:127-158 | The error an uncancelled pool returns is that of the first task that failed; it returns values exactly when none has |
| PoolResults.CancelledKeepsResults | src/engine/mod.rs:144-171 | After cancellation every completed result is returned, in input order, and none else |
| PoolResults.SilentlyShort | src/engine/mod.rs:124-136 | A run whose only task returns `Cancelled` ends in an empty `Ok` although nothing was cancelled |
| PoolOutcomes.RunSettled | src/engine/mod.rs:91-139 | In every state of every run the items taken that do not succeed are as many as the workers that hold one, and every item taken is in reach |
| PoolOutcomes.ReachedExactly | src/engine/mod.rs:91-150 | At an uncancelled join the items taken are exactly those with fewer unsuccessful items before them than there are workers |
| PoolOutcomes.RecordedExactly | src/engine/mod.rs:120-126 | Exactly the items in reach that succeed are recorded, each once |
| PoolOutcomes.ResultIsDetermined | src/engine/mod.rs:152-171 | For every task function and interleaving: an uncancelled pool returns an error exactly when an item in reach fails, and otherwise the values of the items in reach that succeed, in input order |
| PoolOutcomes.SchedulesAgree | src/engine/mod.rs:80-171 | Two interleavings of the same work end in the same values, or both in an error |
| PoolOutcomes.ShortExactly | src/engine/mod.rs:127-136 | An uncancelled `Ok` misses a value exactly when not all items succeed and no item in reach fails |
| PoolProgress.Increment | src/models/options.rs:257-269 | The increment does to the shared counters what a worker's counting and publishing steps do when nothing comes between them |
| PoolProgress.Poll | src/models/options.rs:278-297 | A snapshot of the counters in any state of a run shows its count and the percentage of that count |
| PoolProgress.PollsAreMonotone | src/models/options.rs:278-285 | Successive snapshots during a run never show fewer tasks or a smaller percentage, and 100 exactly at the end |
| PoolProgress.StoredPercentageDropsExactly | src/models/options.rs:257-269 | Some run lowers the stored percentage exactly when the pool has at least two workers |
| PoolProgress.TwoWorkersDrop | src/models/options.rs:257-269 | With two workers and any task that answers, a run in which the last two counts are published in the opposite order |
| PoolProgress.OneWorkerNeverDrops | src/models/options.rs:257-269 | With at most one worker no run lowers it |
| NbdSessions.AfterRanked | src/vms/nbd.rs:53-87 | Acquiring and releasing keep the i-th oldest live permit's limit at i or more |
| NbdSessions.NeverAboveNewestLimit | src/vms/nbd.rs:53-87 | After any events the live sessions do not exceed the newest live holder's limit |
| NbdSessions.GrantedExactly | src/vms/nbd.rs:53-78 | A session is granted exactly when none is live or fewer than the caller's limit are |
| NbdSessions.NeverAboveSharedLimit | src/vms/nbd.rs:53-87 | When no caller's limit exceeds n, and n is at least one, the sessions never exceed n |
| NbdSessions.SessionTable.Acquire | src/vms/nbd.rs:53-78 | Adds one permit below the limit after any interference while waiting, or refuses with everything else unchanged, with the reason of the first cancelled or expired wake-up |
| NbdSessions.SessionTable.Release | src/vms/nbd.rs:81-88 | The counter is the number of live permits, so the saturating decrement never saturates |
| NbdClient.RequestRoundTrip | src/vms/nbd.rs:386-396 | The 28 bytes of a request decode to its command, handle, offset and length |
| NbdClient.ReadOnWire | src/vms/nbd.rs:386-396 | The bytes of a read request, magic number, flags and command written out |
| NbdClient.FarewellOnWire | src/vms/nbd.rs:468-482 | The bytes of a disconnect request |
| NbdClient.ReplyOnWire | src/vms/nbd.rs:410-451 | The bytes of a reply header |
| NbdClient.NegotiationOnWire | src/vms/nbd.rs:212-291 | The bytes of greeting, flags and option |
| NbdClient.GreetingOnWire | src/vms/nbd.rs:212-250 | Which bytes make a greeting that is accepted |
| NbdClient.HeaderAcceptedExactly | src/vms/nbd.rs:410-451 | Data follow exactly sixteen bytes: magic number, no error, and the handle asked for |
| NbdClient.ReadReplyParts | src/vms/nbd.rs:410-451 | The client's header check accepts a compliant reply to its own handle, reports its error code otherwise, and data follow |
| NbdClient.ServeRest | src/vms/nbd.rs:375-465 | What a server leaves unserved is the start of a message, so serving again changes nothing |
| NbdClient.ServeAppend | src/vms/nbd.rs:185-209 | What a server answers does not depend on the pieces in which it is sent something |
| NbdClient.Connection.Read | src/vms/nbd.rs:171-179 | One read takes the next piece of what the server will send, or fails as the connection does |
| NbdClient.ReadExactUntil | src/vms/nbd.rs:162-183 | The loop computes the function whose meaning the next row states |
| NbdClient.ReceiveMeans | src/vms/nbd.rs:162-183 | However the stream is cut, the next bytes are read in order and nothing else changes; a failure has consumed fewer than asked; without failures it succeeds exactly when enough will come |
| NbdClient.WriteAllUntil | src/vms/nbd.rs:185-209 | The loop computes the function whose meaning the next row states |
| NbdClient.SendMeans | src/vms/nbd.rs:185-209 | The server takes up everything in order, or a proper prefix on failure |
| NbdClient.NegotiateMeans | src/vms/nbd.rs:252-291 | Flags and option bring a compliant server to transmission and yield the export's size with nothing left in either direction |
| NbdClient.Handshake | src/vms/nbd.rs:212-292 | The method computes the greeting function whose meaning the next row states |
| NbdClient.GreetingExactly | src/vms/nbd.rs:212-292 | Which greeting is accepted, rejected as no NBD server, or as old-style, and no other error than these and a failure in transit; smooth, it succeeds exactly on a well-formed greeting and leaves an aligned session |
| NbdClient.ExchangeMeans | src/vms/nbd.rs:398-465 | On any connection, in step or not, and unless it breaks: the next sixteen bytes of the stream are read as the header and the bytes after them as the data, whosever they are |
| NbdClient.NbdStream.ReadRange | src/vms/nbd.rs:375-465 | On any connection the method computes the read function whose meaning the next rows state, and counts the request |
| NbdClient.ReadInStep | src/vms/nbd.rs:375-465 | A client in step gets export[offset .. offset + min(len, size - offset)] or the server's error and stays in step, unless the connection breaks; smooth it stays in step in every case and succeeds exactly when there is no error and the length fits 32 bits |
| NbdClient.NeverWrongInStep | src/vms/nbd.rs:375-465 | A client in step is never given other bytes than the export's, whatever fails |
| NbdClient.ReadBehindExactly | src/vms/nbd.rs:398-465 | Behind any stale bytes a smooth read succeeds exactly when those and the reply together start with an error-free header of this handle and enough bytes, and returns those bytes |
| NbdClient.LateReplyIsRefused | src/vms/nbd.rs:446-451 | A whole late reply ahead of the stream is refused, by its handle or with its error |
| NbdClient.StaleBytesAreTaken | src/vms/nbd.rs:375-465 | A session in which a read times out after one byte of data and the next one is given a byte the export does not hold there |
| NbdClient.NbdStream.Disconnect | src/vms/nbd.rs:468-482 | Announces the end once; later calls do nothing |
| NbdClient.DisconnectMeans | src/vms/nbd.rs:468-482 | A compliant server then hangs up without an answer |
| NbdClient.CallInStep | src/vms/nbd.rs:375-465 | One read of a client in step gets the intended reply, data or server error, and leaves the intended errors for the later ones, unless the connection breaks in its middle |
| NbdClient.ReadAll | src/vms/nbd.rs:375-465 | The loop of reads computes the session function, past failures too |
| NbdClient.HandlesAdvance | src/vms/nbd.rs:385-386 | Each request gets the next handle, also after a failure |
| NbdClient.HandlesDiffer | src/vms/nbd.rs:385-386 | No handle comes twice among fewer than 2^64 requests, so that no late reply bears that of a new one |
| NbdClient.SessionUntilBroken | src/vms/nbd.rs:375-465 | Every run gets the intended replies up to the first one that fails in transit |
| NbdClient.SmoothSession | src/vms/nbd.rs:375-465 | On a connection that does not break, with lengths that fit, it gets them all |
| PartitionTables.ReadBlocks | src/vms/detector.rs:18-24 | The requested sectors of the visible disk, zeros past its end |
| PartitionTables.EntryRoundTrip | src/vms/detector.rs:134-137 | A laid-out table entry is read back |
| PartitionTables.Push | src/vms/detector.rs:177-186 | Non-empty entries are appended in bytes with the next index; empty ones leave the list |
| PartitionTables.ReadRecord | src/vms/detector.rs:168-192 | A sector decodes to the record the disk holds there, or to none without the signature |
| PartitionTables.Follow | src/vms/detector.rs:167-192 | One turn of the walk appends the record's partition and moves to the record it links to, or stops where the chain ends |
| PartitionTables.ReadExtendedChain | src/vms/detector.rs:160-194 | On any disk, cyclic chains included, appends the partitions of at most 64 records, links counted from the extended start |
| PartitionTables.ReadMbr | src/vms/detector.rs:131-158 | On any disk the partitions of the four entries in table and chain order, numbered by their index |
| PartitionTables.Chain | src/vms/detector.rs:166-192 | At most as many partitions as records followed |
| PartitionTables.RecordRoundTrip | src/vms/detector.rs:168-192 | A laid-out extended boot record decodes to its own entry and its link |
| PartitionTables.ChainRoundTrip | src/vms/detector.rs:160-194 | A laid-out chain is read back in order, cut off only past the bound |
| PartitionTables.TableRoundTrip | src/vms/detector.rs:131-194 | A table laid out in the four records from byte 446 on, with chains behind entries of type 05, 0F and 85, is read back exactly, in sectors of 512 bytes and up to 64 partitions of each chain |
| PartitionTables.CycleRepeats | src/vms/detector.rs:165-167 | A record linked to itself is listed once per step until the bound ends the walk |
| Gpt.TableCovered | src/vms/detector.rs:257-265 | The sectors read always cover every entry, so the early exit is never taken |
| Gpt.ListEntries | src/vms/detector.rs:261-308 | The loop lists exactly the entries in use, in order, with their byte positions and sizes |
| Gpt.ReadGpt | src/vms/detector.rs:216-310 | On any disk: an error for an unsound header, whatever numbers it holds, otherwise one partition per entry with a type and last >= first, numbered in order |
| Gpt.UsedExactly | src/vms/detector.rs:269-291 | Every entry in use is kept as often as it occurs, and no other |
| Gpt.NameRoundTrip | src/vms/detector.rs:292-298 | A zero-terminated or full-length name is read back unit by unit |
| Gpt.EntryRoundTrip | src/vms/detector.rs:268-298 | An entry laid out by the format decodes to its type, first and last block and name |
| Gpt.TableRoundTrip | src/vms/detector.rs:261-308 | A table laid out on the disk is read back entry by entry |
| Gpt.ListMatches | src/vms/detector.rs:269-306 | The list holds the partition of every entry with a type and last >= first, in table order and numbered from zero, each from the start of its first block to the end of its last |
| Gpt.LaidTableListed | src/vms/detector.rs:261-308 | Reading a disk on which a table is laid out lists the partitions of its entries in that way |
| Gpt.HeaderRoundTrip | src/vms/detector.rs:217-248 | The header fields are read back from their offsets |
| ImageNames.CandidateOf | src/vms/discovery.rs:102-157 | Exactly which names of the form stem.extension are candidates, in any letter case |
| ImageNames.PrimaryExactly | src/vms/discovery.rs:102-157 | The candidates among all names with an extension, written out: which extensions, which endings and numbered pieces are not |
| ImageNames.PieceExactly | src/vms/discovery.rs:124-132 | The numbered-piece test finds exactly the stems in which a digit follows the last separator |
| ImageNames.BareNameIsNone | src/vms/discovery.rs:150-157 | A name without a dot, or with only one in front, is none |
| ImageNames.NumberedExactly | src/vms/discovery.rs:124-132 | A stem with a separator counts as numbered as its tail does when the tail has the separator again, and otherwise exactly when the tail starts with a digit |
| ImageNames.NumberedAcross | src/vms/discovery.rs:124-132 | The same for the other separator: the tail decides if it has it, the base if not |
| ImageNames.PieceIsCandidateExactly | src/vms/discovery.rs:102-132 | For every base, numbered tail and letter case, exactly which `.vmdk` pieces are taken for primary images |
| ImageNames.NumberedPieces | src/vms/discovery.rs:124-132 | A numbered piece is never a candidate, with or without a descriptive suffix, unless the suffix repeats the separator |
| ImageNames.SuffixedPieceSlips | src/vms/discovery.rs:124-132 | A numbered piece with a suffix that repeats the separator is taken for a primary image |
| Discovery.ExclusionIsByName | src/vms/discovery.rs:325-328 | Whether a directory is excluded depends on its final name only |
| Discovery.UnlistedIsExcluded | src/vms/discovery.rs:325-328 | A directory that is not listed and yet excluded |
| Discovery.ExcludesAsListedExactly | src/vms/discovery.rs:325-328 | Just the listed directories are excluded, for every path, exactly when each longer excluded path has its final name excluded alone |
| Discovery.Enqueue | src/vms/discovery.rs:324-332 | A subdirectory is queued exactly when the search may enter it, and nothing to be met is lost |
| Discovery.ScanDirectory | src/vms/discovery.rs:289-346 | Going through a directory moves what its entries yield into the report and the queue |
| Discovery.Search | src/vms/discovery.rs:265-348 | The queue empties on every finite tree; what was met is what the tree yields, in whatever order; only an unreadable root fails |
| Discovery.ListImages | src/vms/discovery.rs:259-352 | Which error for which root; otherwise sorted images and unreadable directories, and a warning for everything skipped |
| Discovery.CountInDir | src/vms/discovery.rs:269-347 | With distinct names every image and unreadable directory is met exactly once, or not at all |
| Discovery.MetImage | src/vms/discovery.rs:324-335 | An image is met exactly when its directory is reached through readable, not excluded directories within the depth |
| Discovery.ReportIsExact | src/vms/discovery.rs:259-352 | The images are exactly the non-empty candidates the options reach, each once and in order; the inaccessible list exactly the visited directories that could not be opened |
| Discovery.WarningsAreExact | src/vms/discovery.rs:271-345 | The warnings are exactly the skipped entries, the unopened directories and as many unreadable entries as each visited directory has |
| Discovery.BadMetExactly | src/vms/discovery.rs:289-303 | Unreadable entries are met exactly in the directories the options reach and that can be opened |
| Paths.SortsPaths | src/vms/discovery.rs:349-350 | Sorting orders paths name by name |
| Paths.StringLeqExactly | src/vms/discovery.rs:349-350 | Names are in the order of their first difference, a name before its extensions |
| Paths.LeqExactly | src/vms/discovery.rs:349-350 | Paths are in the order of their first different names, a directory before what lies in it |
| Sorting.SortSorts | src/vms/discovery.rs:349-350 | Sorting by a total order puts every earlier element at or below every later one |

## Left out

- DiskReaders.ReadNbd: once a session has been out of step nothing is promised of the bytes it returns, not even after it happens to be in step again; what one such read returns is stated for the client (`ReadBehindExactly`).
- PoolProgress.PollsAreMonotone: nobody but the pool's workers touches the shared progress; a concurrent `inspect` on the same engine also counts into it, and `process_in_parallel` does not reset the completed count it finds.
- VmdkOpening.OpenVmdk: paths are resolved, and text decoded, by parameters; the first read of a header is taken to be complete. That an announced capacity cannot be read is not told apart from that the disk cannot be opened.
- Products of header fields that are formed (embedded descriptor, and of an extent read natively its directory, capacity and tables), of descriptor sectors and offsets and of GPT block numbers with 512, the end of a flat extent in its file and the end of a view are required to fit 64 bits; the program does not check them.
- VirtualDisks.VirtualDisk.Seek: an offset is any integer rather than a signed 64-bit one.
- DescriptorTexts.TextMeans: rows with an equals sign that are no extents, settings whose key holds blanks or quotes, and white space other than blanks around keys and values are covered by the definition of the parser only.
- DiskOpening.OpenDisk: paths are names in a store; `VmdkOpening` fills it with the files the names resolve to.
- ParentChain.ValidateComponents: canonical paths and text decoding are parameters; a file that cannot be opened and one that cannot be read are not told apart, and the first read of a header is taken to be complete.
- Time: waiting, deadlines and timeouts are events that may happen at any call.
- Processes: starting, probing and stopping `qemu-nbd`, and the sockets themselves.
- WorkerPool.RunInv: thread panics and failed thread creation are assumed away; atomics are read and written one at a time in program order per worker.
- The task bodies of the pools: a task is a function, or a relation, from items to results.
- Gpt.ReadGpt: the label's lossy UTF-16 decoding and trimming, and the names of partition types; names are lists of UTF-16 units.
- PartitionTables.ReadMbr: the choice between MBR, GPT and no table, and file system signatures.
- Discovery.ListImages: the exclusive operation slot, warning texts, symbolic links and names that are not valid Unicode.
- ImageNames.CandidateOf: names are strings; a name that is not valid Unicode is never a candidate in the program.
- Calendar.EpochDate: formatting the date as text; reading the time stamp out of a PE header.
- The floating-point completion percentage and the stage and byte counters' setters.
- NTFS, ext4 and registry analysis, integrity signatures, the command line and report printing.
