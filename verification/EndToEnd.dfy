/** From the files of an image, or an NBD session, to the bytes a partition's reader sees, through every layer. */
module EndToEnd {
  import opened Bytes
  import opened Files
  import opened SparseExtents
  import opened Texts
  import opened Descriptors
  import opened DescriptorParsing
  import opened DescriptorTexts
  import opened Extents
  import opened DiskReaders
  import opened DiskOpening
  import opened VirtualDisks
  import opened DiskRuns
  import opened NbdClient
  import opened VmdkOpening
  import opened SparseLayout
  import opened VmdkMeaning
  import ParentChain

  /** What a run of seeks and reads over a part of a disk is meant to answer. */
  ghost function Intended(image: DiskImage, virtualSize: nat, base: nat, length: nat, ops: seq<Op>): seq<Reply> {
    Run(ViewOf(Visible(image, virtualSize), base, length), length, 0, ops)
  }

  /** Performs a run on a view of part of a reader's disk. */
  method RunOnReader(reader: DiskReader, base: nat, length: nat, chunkSize: nat, ops: seq<Op>)
    returns (replies: seq<Reply>, ghost sound: nat)
    requires reader.Valid() && chunkSize <= U64_LIMIT / 2 && base + length <= U64_LIMIT
    modifies reader, reader.repr
    ensures reader.Valid()
    ensures var view := ViewOf(Visible(reader.backend.Image(), reader.virtualSize), base, length);
            && sound <= |ops| && ConformsFor(sound, view, length, 0, ops, replies)
            && (!reader.broken ==> Conforms(view, length, 0, ops, replies))
    ensures if old(reader.broken) then sound == 0 else LostAt(sound, replies)
    ensures old(reader.Steady()) ==> reader.Steady()
    ensures old(reader.Undisturbed()) && reader.backend.Image().Serves(2 * Max(chunkSize, 512) - 1) ==>
              replies == Intended(reader.backend.Image(), reader.virtualSize, base, length, ops)
  {
    var disk := new VirtualDisk(reader, base, length, chunkSize);
    replies, sound := PerformAll(disk, ops);
    if !reader.broken {
      ConformsThroughout(disk.View(), length, 0, ops, replies);
    }
  }

  /** The same on a disk in files, which no connection can spoil. */
  method RunOnFiles(reader: DiskReader, base: nat, length: nat, chunkSize: nat, ops: seq<Op>) returns (replies: seq<Reply>)
    requires reader.Valid() && !reader.backend.Nbd? && chunkSize <= U64_LIMIT / 2 && base + length <= U64_LIMIT
    modifies reader, reader.repr
    ensures Conforms(ViewOf(Visible(reader.backend.Image(), reader.virtualSize), base, length), length, 0, ops, replies)
    ensures old(reader.Undisturbed()) && reader.backend.Image().TablesInFile() ==>
              replies == Intended(reader.backend.Image(), reader.virtualSize, base, length, ops)
  {
    ghost var sound;
    replies, sound := RunOnReader(reader, base, length, chunkSize, ops);
  }

  /** Opens a VMDK, and performs a run on a view of part of it. */
  method RunOnVmdk(fs: ParentChain.FileSystem, path: ParentChain.Path, schedules: Schedules, base: nat, length: nat,
                   chunkSize: nat, ops: seq<Op>, cancelIn: Option<nat>)
    returns (r: Result<OpenResult<seq<Reply>>, VmdkError>)
    requires path in fs.readable ==> NumbersFit(fs, path, fs.readable[path], schedules)
    requires ParentChain.AllFit(ParentChain.ViewOf(fs), path, ParentChain.MAX_PARENTS + 1)
    requires chunkSize <= U64_LIMIT / 2 && base + length <= U64_LIMIT
    ensures r.Err? && r.error.Preflight? <==>
              !ParentChain.Passes(ParentChain.ViewOf(fs), path, {}, ParentChain.MAX_PARENTS + 1)
    ensures !(r.Err? && r.error.Preflight?) ==> path in fs.readable
    ensures r.Ok? && r.value.NeedsNbd? ==> VmdkPlan(fs, path, fs.readable[path], schedules) == Ok(NeedsNbd(r.value.reason))
    ensures r.Ok? && r.value.Native? ==>
              var plan, size := VmdkPlan(fs, path, fs.readable[path], schedules), VirtualSize(fs, fs.readable[path]);
              && plan.Ok? && plan.value.Native?
              && Conforms(ViewOf(Visible(plan.value.value, size), base, length), length, 0, ops, r.value.value)
              && (NoFailures(schedules) && cancelIn.None? && plan.value.value.TablesInFile() ==>
                    r.value.value == Intended(plan.value.value, size, base, length, ops))
    ensures NoFailures(schedules) && path in fs.readable ==>
              (r.Err? && r.error.Failed? <==>
                 && ParentChain.Passes(ParentChain.ViewOf(fs), path, {}, ParentChain.MAX_PARENTS + 1)
                 && VmdkPlan(fs, path, fs.readable[path], schedules).Err?)
  {
    var opening := OpenVmdk(fs, path, schedules, cancelIn);
    match opening
    case Err(error) => return Err(error);
    case Ok(NeedsNbd(reason)) => return Ok(NeedsNbd(reason));
    case Ok(Native(reader)) =>
      NotRemote(fs, path, fs.readable[path], schedules, reader.backend.Image());
      var replies := RunOnFiles(reader, base, length, chunkSize, ops);
      return Ok(Native(replies));
  }

  /** What is opened natively is no NBD session. */
  lemma NotRemote(fs: ParentChain.FileSystem, path: ParentChain.Path, contents: seq<Byte>, schedules: Schedules,
                  image: DiskImage)
    requires VmdkPlan(fs, path, contents, schedules) == Ok(Native(image))
    ensures !image.NbdDisk?
  {
  }

  /** Opens a session with an NBD server, and a reader over it, at least as long as the image is announced to be. */
  method OpenExport(conn: Connection, imageSize: nat, cancelIn: Option<nat>) returns (r: Result<DiskReader, NbdError>)
    requires conn.FollowsProtocol() && |conn.exported| < U64_LIMIT
    requires var link := conn.AsLink(); link.server.phase == AwaitFlags && link.part == [] && |link.incoming| == 18
    modifies conn
    ensures r.Ok? ==>
              var reader := r.value;
              && fresh(reader) && fresh(reader.repr - {conn}) && reader.Valid() && !reader.broken
              && reader.backend.Image() == NbdDisk(conn.exported)
              && reader.virtualSize == Max(|conn.exported|, imageSize)
              && (old(Smooth(conn.schedule)) ==> reader.Steady())
              && (old(Smooth(conn.schedule) && NoErrors(conn.AsLink().server.errors)) && cancelIn.None? ==>
                    reader.Undisturbed())
    ensures r.Ok? ==> Greeting(old(conn.AsLink()).incoming)
    ensures old(Smooth(conn.schedule)) ==> (r.Ok? <==> Greeting(old(conn.AsLink()).incoming))
  {
    GreetingExactly(conn.exported, conn.AsLink(), BeBytes(1, 4), OptionRequest());
    var session := Handshake(conn);
    if session.Err? {
      return Err(session.error);
    }
    var stream := session.value;
    var reader := new DiskReader(Nbd(stream), Max(stream.exportSize, imageSize), cancelIn, {stream, conn});
    return Ok(reader);
  }

  /**
   * Opens a session with an NBD server, and performs a run on a view of part of what it exports:
   * the answers are those of the export, with zeros up to the announced size of the image, however
   * the byte stream is cut. Should the connection break, that holds up to the read that fails with
   * it; if it does not break, it holds throughout.
   */
  method RunOnExport(conn: Connection, imageSize: nat, base: nat, length: nat, chunkSize: nat, ops: seq<Op>,
                     cancelIn: Option<nat>)
    returns (r: Result<seq<Reply>, NbdError>, ghost sound: nat)
    requires conn.FollowsProtocol() && |conn.exported| < U64_LIMIT
    requires var link := conn.AsLink(); link.server.phase == AwaitFlags && link.part == [] && |link.incoming| == 18
    requires chunkSize <= U64_LIMIT / 2 && base + length <= U64_LIMIT
    modifies conn
    ensures r.Ok? ==>
              var view := ViewOf(Visible(NbdDisk(conn.exported), Max(|conn.exported|, imageSize)), base, length);
              && sound <= |ops| && ConformsFor(sound, view, length, 0, ops, r.value) && LostAt(sound, r.value)
              && (old(Smooth(conn.schedule)) ==> Conforms(view, length, 0, ops, r.value))
    ensures r.Ok? ==> Greeting(old(conn.AsLink()).incoming)
    ensures old(Smooth(conn.schedule)) ==> (r.Ok? <==> Greeting(old(conn.AsLink()).incoming))
    ensures r.Ok? && old(Smooth(conn.schedule) && NoErrors(conn.AsLink().server.errors)) ==>
              cancelIn.None? && chunkSize <= U32_LIMIT / 2 ==>
                r.value == Intended(NbdDisk(conn.exported), Max(|conn.exported|, imageSize), base, length, ops)
  {
    sound := 0;
    var opening := OpenExport(conn, imageSize, cancelIn);
    if opening.Err? {
      return Err(opening.error), 0;
    }
    var replies;
    replies, sound := RunOnReader(opening.value, base, length, chunkSize, ops);
    return Ok(replies), sound;
  }

  /** A tiling shows at `p` the byte of the extent that covers `p`. */
  lemma TiledByte(images: seq<ExtentImage>, k: nat, start: nat, length: nat, p: nat)
    requires Tiled(images, 0) && k < |images| && images[k].start == start && images[k].length == length
    requires start <= p < start + length
    ensures p < |Concat(images)| && Concat(images)[p] == images[k].body.At(p - start)
  {
    ConcatAt(images, 0, k, p);
  }

  /** Position `p` of the disk lies in the extent whose declared range covers it, and shows that extent's byte. */
  lemma DiskByte(es: seq<ExtentDescriptor>, store: Store, images: seq<ExtentImage>, k: nat, p: nat)
    requires Plan(es, store, |es|) == Ok(Native(images)) && k < |es|
    requires var start := SumSectors(es, k) * SECTOR; start <= p < start + es[k].sectors * SECTOR
    ensures |images| == |es| && |Concat(images)| == SumSectors(es, |es|) * SECTOR
    ensures BodyPlan(es[k], store) == Ok(Native(images[k].body))
    ensures p < |Concat(images)| && Concat(images)[p] == images[k].body.At(p - SumSectors(es, k) * SECTOR)
  {
    PlanTiles(es, store, |es|);
    PlanBodies(es, store, |es|, k);
    TiledByte(images, k, SumSectors(es, k) * SECTOR, es[k].sectors * SECTOR, p);
  }

  /** Any text that says what `d` says, in whatever order and with whatever else, opens the disk of `d`. */
  lemma PrintedPlan(d: Descriptor, text: string, store: Store)
    requires Say(Lines(text), d)
    ensures PlanDescriptor(ParseLines(EMPTY, Lines(text)), store) == PlanDescriptor(d, store)
  {
    DescriptorRoundTrip(d, text);
  }

  /** At most `length` bytes of a disk from `base` on. */
  function Stretch(disk: seq<Byte>, base: nat, length: nat): seq<Byte> {
    if base < |disk| then disk[base..Min(base + length, |disk|)] else []
  }

  lemma ViewIsStretch(disk: seq<Byte>, base: nat, length: nat)
    ensures ViewOf(disk, base, length) == Stretch(disk, base, length)
  {
    if base < |disk| {
      PaddedInside(disk, base, Min(length, |disk| - base));
    }
  }

  /** What a run over part of a VMDK with a text descriptor is to answer: the parts of its extents decide. */
  lemma IntendedOnText(fs: ParentChain.FileSystem, path: ParentChain.Path, contents: seq<Byte>, schedules: Schedules,
                       text: string, d: Descriptor, files: map<string, seq<Byte>>, parts: seq<seq<Byte>>,
                       base: nat, length: nat, ops: seq<Op>)
    requires TextFile(fs, contents, text) && Say(Lines(text), d) && StandsAlone(d)
    requires FilesBeside(fs, path, files) && d.extents != [] && AllShow(d.extents, files, parts) && Joined(parts) != []
    ensures var plan := VmdkPlan(fs, path, contents, schedules);
            && plan.Ok? && plan.value.Native? && plan.value.value.TablesInFile()
            && Intended(plan.value.value, VirtualSize(fs, contents), base, length, ops) ==
               Run(Stretch(Joined(parts), base, length), length, 0, ops)
  {
    var image := TextShows(fs, path, contents, schedules, text, d, files, parts);
    ViewIsStretch(Joined(parts), base, length);
  }

  /** The same over part of a sparse image: its grains decide. */
  lemma IntendedOnSparse(fs: ParentChain.FileSystem, path: ParentChain.Path, contents: seq<Byte>, schedules: Schedules,
                         h: SparseHeader, layout: Layout, d: Option<Descriptor>, base: nat, length: nat, ops: seq<Op>)
    requires SparseFile(contents, h, layout) && DescriptorBehind(fs, contents, h, d)
    requires d.Some? ==> StandsAlone(d.value) && |d.value.extents| <= 1
    ensures h.capacitySectors * 512 <= |Joined(Joined(layout.grains))|
    ensures var plan := VmdkPlan(fs, path, contents, schedules);
            && plan.Ok? && plan.value.Native? && plan.value.value.TablesInFile()
            && Intended(plan.value.value, VirtualSize(fs, contents), base, length, ops) ==
               Run(Stretch(layout.Disk(h), base, length), length, 0, ops)
  {
    var image := MonolithicShows(fs, path, contents, schedules, h, layout, d);
    ViewIsStretch(layout.Disk(h), base, length);
  }

  /** The same over part of what an NBD server exports, with zeros up to the announced size. */
  lemma IntendedOnExport(exported: seq<Byte>, imageSize: nat, base: nat, length: nat, ops: seq<Op>)
    ensures Intended(NbdDisk(exported), Max(|exported|, imageSize), base, length, ops) ==
            Run(Stretch(exported + Zeros(Max(0, imageSize - |exported|)), base, length), length, 0, ops)
  {
    var disk := exported + Zeros(Max(0, imageSize - |exported|));
    assert Visible(NbdDisk(exported), Max(|exported|, imageSize)) == disk;
    ViewIsStretch(disk, base, length);
  }
}
