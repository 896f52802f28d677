/** Opening a VMDK natively: the preflight check, then the sparse image or the declared extents. */
module VmdkOpening {
  import opened Bytes
  import opened Files
  import opened SparseExtents
  import opened Descriptors
  import opened DescriptorParsing
  import opened Extents
  import opened DiskReaders
  import opened DiskOpening
  import opened ParentChain

  datatype VmdkError = Preflight(chain: ChainError) | Failed(io: IoError)

  /** How the operating system will answer when the files are read. */
  type Schedules = map<Path, seq<IoEvent>>

  predicate NoFailures(schedules: Schedules) {
    forall p :: p in schedules ==> Quiet(schedules[p])
  }

  function ScheduleAt(schedules: Schedules, p: Path): seq<IoEvent> {
    if p in schedules then schedules[p] else []
  }

  function Head(contents: seq<Byte>): (header: seq<Byte>)
    ensures |header| <= SECTOR
  {
    contents[..Min(|contents|, SECTOR)]
  }

  // ---------------------------------------------------------------- what opening should yield

  function NamesIn(d: Descriptor): set<string> {
    set i | 0 <= i < |d.extents| && d.extents[i].file.Some? :: d.extents[i].file.value
  }

  /** The files a descriptor at `path` names, found relative to it. */
  function StoreAt(fs: FileSystem, path: Path, d: Descriptor, schedules: Schedules): Store {
    Store(
      map n | n in NamesIn(d) && fs.resolve(path, n) in fs.readable :: fs.readable[fs.resolve(path, n)],
      map n | n in NamesIn(d) && fs.resolve(path, n) in schedules :: schedules[fs.resolve(path, n)])
  }

  /** The descriptor embedded behind a sparse header, if there is one. */
  function Embedded(fs: FileSystem, contents: seq<Byte>, h: SparseHeader): Option<Descriptor> {
    if !h.Describes() then None
    else Some(Parse(fs.lossy(Padded(contents, h.descriptorOffset * SECTOR, h.descriptorSectors * SECTOR))))
  }

  /** Why an embedded descriptor keeps a sparse image from being read natively. */
  function Objection(d: Option<Descriptor>): Option<Reason> {
    if d.None? then None
    else if d.value.HasParent() then Some(DeltaWithParent)
    else if |d.value.extents| > 1 then Some(SeveralDeclaredExtents)
    else None
  }

  function SparseDiskPlan(fs: FileSystem, contents: seq<Byte>, h: SparseHeader): Planned<DiskImage> {
    if Objection(Embedded(fs, contents, h)).Some? then Ok(NeedsNbd(Objection(Embedded(fs, contents, h)).value))
    else
      match HeaderPlan(h, contents)
      case Ok(Native(image)) => Ok(Native(SparseDisk(image)))
      case Ok(NeedsNbd(reason)) => Ok(NeedsNbd(reason))
      case Err(error) => Err(error)
  }

  function TextPlan(d: Descriptor, store: Store): Planned<DiskImage> {
    match PlanDescriptor(d, store)
    case Ok(Native(images)) => Ok(Native(ExtentsDisk(images)))
    case Ok(NeedsNbd(reason)) => Ok(NeedsNbd(reason))
    case Err(error) => Err(error)
  }

  /** The disk the file at `path` describes, or why it is not opened natively. */
  function VmdkPlan(fs: FileSystem, path: Path, contents: seq<Byte>, schedules: Schedules): Planned<DiskImage> {
    if IsSparseHeader(Head(contents)) then
      match ReadSparseHeader(Head(contents))
      case Err(error) => Err(error)
      case Ok(h) => SparseDiskPlan(fs, contents, h)
    else if IsTextDescriptor(fs, Head(contents)) then
      match fs.strict(contents)
      case None => Err(InvalidInput)
      case Some(text) => TextPlan(Parse(text), StoreAt(fs, path, Parse(text), schedules))
    else Ok(NeedsNbd(UnrecognizedHeader))
  }

  /** The capacity that is announced for the file. */
  function VirtualSize(fs: FileSystem, contents: seq<Byte>): nat {
    if IsSparseHeader(Head(contents)) then
      match ReadSparseHeader(Head(contents))
      case Err(_) => 0
      case Ok(h) => h.capacitySectors * SECTOR
    else if IsTextDescriptor(fs, Head(contents)) && fs.strict(contents).Some? then
      DeclaredSize(Parse(fs.strict(contents).value).extents, |contents|)
    else |contents|
  }

  /** The products formed from the numbers in the file stay inside 64 bits. */
  predicate NumbersFit(fs: FileSystem, path: Path, contents: seq<Byte>, schedules: Schedules) {
    if IsSparseHeader(Head(contents)) then
      ReadSparseHeader(Head(contents)).Ok? ==>
        var h := ReadSparseHeader(Head(contents)).value;
        h.ProductsFit() && h.DescriptorFits() && h.capacitySectors * SECTOR < U64_LIMIT
    else
      IsTextDescriptor(fs, Head(contents)) && fs.strict(contents).Some? ==>
        var d := Parse(fs.strict(contents).value);
        StoreAt(fs, path, d, schedules).HeadersFit() && ExtentsFit(d.extents)
  }

  lemma HeadFits(header: seq<Byte>)
    requires ReadSparseHeader(header).Ok?
    ensures ReadSparseHeader(header).value.Fits()
  {
    Widths();
  }

  lemma StoreIsQuiet(fs: FileSystem, path: Path, d: Descriptor, schedules: Schedules)
    requires NoFailures(schedules)
    ensures StoreAt(fs, path, d, schedules).AllQuiet()
  {
  }

  // ---------------------------------------------------------------- opening

  /** Looks at the descriptor embedded in a sparse image. */
  method CheckEmbedded(fs: FileSystem, file: File, h: SparseHeader) returns (r: Result<Option<Reason>, IoError>)
    requires h.DescriptorFits()
    modifies file
    ensures r.Ok? ==> r.value == Objection(Embedded(fs, file.contents, h))
    ensures old(Quiet(file.schedule)) ==> r.Ok? && Quiet(file.schedule)
  {
    if !h.Describes() {
      return Ok(None);
    }
    var text := ReadRaw(file, h.descriptorOffset * SECTOR, h.descriptorSectors * SECTOR);
    if text.Err? {
      return Err(text.error);
    }
    var d := ParseDescriptor(fs.lossy(text.value));
    if d.HasParent() {
      return Ok(Some(DeltaWithParent));
    }
    if |d.extents| > 1 {
      return Ok(Some(SeveralDeclaredExtents));
    }
    return Ok(None);
  }

  /** Opens a monolithic sparse image. */
  method OpenMonolithic(fs: FileSystem, file: File, h: SparseHeader, cancelIn: Option<nat>)
    returns (r: Result<OpenResult<DiskReader>, IoError>)
    requires h.Fits() && h.ProductsFit() && h.DescriptorFits()
    modifies file
    ensures r.Ok? ==>
              match r.value
              case Native(reader) =>
                && fresh(reader) && fresh(reader.repr - {file}) && reader.Valid()
                && SparseDiskPlan(fs, file.contents, h) == Ok(Native(reader.backend.Image()))
                && reader.virtualSize == h.capacitySectors * SECTOR
                && (old(Quiet(file.schedule)) && cancelIn.None? ==> reader.Undisturbed())
              case NeedsNbd(reason) => SparseDiskPlan(fs, file.contents, h) == Ok(NeedsNbd(reason))
    ensures old(Quiet(file.schedule)) ==> (r.Err? <==> SparseDiskPlan(fs, file.contents, h).Err?)
  {
    var objection := CheckEmbedded(fs, file, h);
    if objection.Err? {
      return Err(objection.error);
    }
    if objection.value.Some? {
      return Ok(NeedsNbd(objection.value.value));
    }
    var extent := FromHeader(file, h);
    match extent
    case Err(error) => return Err(error);
    case Ok(NeedsNbd(reason)) => return Ok(NeedsNbd(reason));
    case Ok(Native(sparse)) =>
      var reader := new DiskReader(SingleSparse(sparse), h.capacitySectors * SECTOR, cancelIn, {sparse, file});
      return Ok(Native(reader));
  }

  /** Opens a sparse image from its bytes. */
  method OpenImage(fs: FileSystem, contents: seq<Byte>, h: SparseHeader, schedule: seq<IoEvent>, cancelIn: Option<nat>)
    returns (r: Result<OpenResult<DiskReader>, IoError>)
    requires h.Fits() && h.ProductsFit() && h.DescriptorFits()
    ensures var plan := SparseDiskPlan(fs, contents, h);
            && (r.Ok? ==>
                  match r.value
                  case Native(reader) =>
                    && fresh(reader) && fresh(reader.repr) && reader.Valid()
                    && plan == Ok(Native(reader.backend.Image()))
                    && reader.virtualSize == h.capacitySectors * SECTOR
                    && (Quiet(schedule) && cancelIn.None? ==> reader.Undisturbed())
                  case NeedsNbd(reason) => plan == Ok(NeedsNbd(reason)))
            && (Quiet(schedule) ==> (r.Err? <==> plan.Err?))
  {
    var file := new File(contents, schedule);
    r := OpenMonolithic(fs, file, h, cancelIn);
  }

  lemma SparseDecides(fs: FileSystem, path: Path, contents: seq<Byte>, schedules: Schedules, h: SparseHeader)
    requires IsSparseHeader(Head(contents)) && ReadSparseHeader(Head(contents)) == Ok(h)
    ensures VmdkPlan(fs, path, contents, schedules) == SparseDiskPlan(fs, contents, h)
    ensures VirtualSize(fs, contents) == h.capacitySectors * SECTOR
    ensures NumbersFit(fs, path, contents, schedules) ==> h.ProductsFit() && h.DescriptorFits()
  {
  }

  lemma TextDecides(fs: FileSystem, path: Path, contents: seq<Byte>, schedules: Schedules, d: Descriptor)
    requires !IsSparseHeader(Head(contents)) && IsTextDescriptor(fs, Head(contents))
    requires fs.strict(contents).Some? && d == Parse(fs.strict(contents).value)
    ensures VmdkPlan(fs, path, contents, schedules) == TextPlan(d, StoreAt(fs, path, d, schedules))
    ensures VirtualSize(fs, contents) == DeclaredSize(d.extents, |contents|)
    ensures NumbersFit(fs, path, contents, schedules) ==>
              StoreAt(fs, path, d, schedules).HeadersFit() && ExtentsFit(d.extents)
  {
  }

  /** Opens the disk of a text descriptor. */
  method OpenText(fs: FileSystem, path: Path, d: Descriptor, fileSize: nat, schedules: Schedules, cancelIn: Option<nat>)
    returns (r: Result<OpenResult<DiskReader>, IoError>)
    requires StoreAt(fs, path, d, schedules).HeadersFit() && ExtentsFit(d.extents)
    ensures var plan := TextPlan(d, StoreAt(fs, path, d, schedules));
            && (r.Ok? ==>
                  match r.value
                  case Native(reader) =>
                    && fresh(reader) && fresh(reader.repr) && reader.Valid()
                    && plan == Ok(Native(reader.backend.Image()))
                    && reader.virtualSize == DeclaredSize(d.extents, fileSize)
                    && (NoFailures(schedules) && cancelIn.None? ==> reader.Undisturbed())
                  case NeedsNbd(reason) => plan == Ok(NeedsNbd(reason)))
            && (NoFailures(schedules) ==> (r.Err? <==> plan.Err?))
  {
    if NoFailures(schedules) {
      StoreIsQuiet(fs, path, d, schedules);
    }
    r := OpenDisk(d, fileSize, StoreAt(fs, path, d, schedules), cancelIn);
  }

  /** Opens a file that has passed the preflight check. */
  method OpenContents(fs: FileSystem, path: Path, contents: seq<Byte>, schedules: Schedules, cancelIn: Option<nat>)
    returns (r: Result<OpenResult<DiskReader>, IoError>)
    requires NumbersFit(fs, path, contents, schedules)
    ensures r.Ok? ==>
              match r.value
              case Native(reader) =>
                && fresh(reader) && fresh(reader.repr) && reader.Valid()
                && VmdkPlan(fs, path, contents, schedules) == Ok(Native(reader.backend.Image()))
                && reader.virtualSize == VirtualSize(fs, contents)
                && (NoFailures(schedules) && cancelIn.None? ==> reader.Undisturbed())
              case NeedsNbd(reason) => VmdkPlan(fs, path, contents, schedules) == Ok(NeedsNbd(reason))
    ensures NoFailures(schedules) ==> (r.Err? <==> VmdkPlan(fs, path, contents, schedules).Err?)
  {
    if IsSparseHeader(Head(contents)) {
      var h := ReadSparseHeader(Head(contents));
      if h.Err? {
        return Err(h.error);
      }
      HeadFits(Head(contents));
      SparseDecides(fs, path, contents, schedules, h.value);
      r := OpenImage(fs, contents, h.value, ScheduleAt(schedules, path), cancelIn);
      return;
    }
    if IsTextDescriptor(fs, Head(contents)) {
      var text := fs.strict(contents);
      if text.None? {
        return Err(InvalidInput);
      }
      var d := ParseDescriptor(text.value);
      TextDecides(fs, path, contents, schedules, d);
      r := OpenText(fs, path, d, |contents|, schedules, cancelIn);
      return;
    }
    return Ok(NeedsNbd(UnrecognizedHeader));
  }

  /**
   * Opens a VMDK: a missing component or a bad parent chain is an error even where the disk
   * itself would be left to the external reader.
   */
  method OpenVmdk(fs: FileSystem, path: Path, schedules: Schedules, cancelIn: Option<nat>)
    returns (r: Result<OpenResult<DiskReader>, VmdkError>)
    requires path in fs.readable ==> NumbersFit(fs, path, fs.readable[path], schedules)
    requires AllFit(ViewOf(fs), path, MAX_PARENTS + 1)
    ensures r.Err? && r.error.Preflight? <==> !Passes(ViewOf(fs), path, {}, MAX_PARENTS + 1)
    ensures !(r.Err? && r.error.Preflight?) ==> path in fs.readable
    ensures r.Ok? ==>
              match r.value
              case Native(reader) =>
                && fresh(reader) && fresh(reader.repr) && reader.Valid()
                && VmdkPlan(fs, path, fs.readable[path], schedules) == Ok(Native(reader.backend.Image()))
                && reader.virtualSize == VirtualSize(fs, fs.readable[path])
                && (NoFailures(schedules) && cancelIn.None? ==> reader.Undisturbed())
              case NeedsNbd(reason) => VmdkPlan(fs, path, fs.readable[path], schedules) == Ok(NeedsNbd(reason))
    ensures NoFailures(schedules) && path in fs.readable ==>
              (r.Err? && r.error.Failed? <==>
                 && Passes(ViewOf(fs), path, {}, MAX_PARENTS + 1)
                 && VmdkPlan(fs, path, fs.readable[path], schedules).Err?)
  {
    var valid, files := ValidateComponents(fs, path);
    if valid.Err? {
      return Err(Preflight(valid.error));
    }
    PassingIsReadable(fs, path);
    var opening := OpenContents(fs, path, fs.readable[path], schedules, cancelIn);
    match opening
    case Ok(value) => return Ok(value);
    case Err(error) => return Err(Failed(error));
  }

  lemma PassingIsReadable(fs: FileSystem, path: Path)
    requires Passes(ViewOf(fs), path, {}, MAX_PARENTS + 1)
    ensures path in fs.readable
  {
    PassesOnward(ViewOf(fs), path, {}, MAX_PARENTS + 1);
    ViewDescribes(fs);
    assert Sound(fs, path);
  }
}
