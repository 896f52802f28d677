/** Opening a VMDK text descriptor natively: every extent is opened, or the reason why not is given. */
module DiskOpening {
  import opened Bytes
  import opened Files
  import opened SparseExtents
  import opened Descriptors
  import opened Extents
  import opened DiskReaders

  /** The files a descriptor can name, and how the operating system will answer when they are read. */
  datatype Store = Store(files: map<string, seq<Byte>>, schedules: map<string, seq<IoEvent>>) {
    function ScheduleOf(name: string): seq<IoEvent> {
      if name in schedules then schedules[name] else []
    }

    predicate AllQuiet() {
      forall name :: name in files ==> Quiet(ScheduleOf(name))
    }

    /** The products formed from every sparse header in the store stay inside 64 bits. */
    predicate HeadersFit() {
      forall name :: name in files && HeaderOf(files[name]).Ok? ==> HeaderOf(files[name]).value.ProductsFit()
    }
  }

  /** The sparse header in the first sector of a file. */
  function HeaderOf(contents: seq<Byte>): Result<SparseHeader, IoError> {
    if |contents| < SECTOR then Err(UnexpectedEof) else ReadSparseHeader(contents[..SECTOR])
  }

  lemma HeaderFits(contents: seq<Byte>)
    requires HeaderOf(contents).Ok?
    ensures HeaderOf(contents).value.Fits()
  {
    Widths();
  }

  // ---------------------------------------------------------------- what opening should yield

  function SparsePlan(contents: seq<Byte>): Planned<SparseImage> {
    var header := HeaderOf(contents);
    if header.Err? then Err(header.error) else HeaderPlan(header.value, contents)
  }

  function BodyPlan(e: ExtentDescriptor, store: Store): Planned<ExtentBody> {
    if e.kind == "ZERO" then Ok(Native(ZeroBody))
    else if e.kind !in {"FLAT", "VMFS", "VMFSRAW", "SPARSE", "VMFSSPARSE"} then Ok(NeedsNbd(UnsupportedExtentType))
    else if e.file.None? then Ok(NeedsNbd(ExtentWithoutFile))
    else if e.file.value !in store.files then Err(NotFound)
    else if e.kind in {"FLAT", "VMFS", "VMFSRAW"} then
      Ok(Native(FlatBody(store.files[e.file.value], e.offsetSectors * SECTOR)))
    else
      match SparsePlan(store.files[e.file.value])
      case Ok(Native(image)) => Ok(Native(SparseBody(image)))
      case Ok(NeedsNbd(reason)) => Ok(NeedsNbd(reason))
      case Err(error) => Err(error)
  }

  function SumSectors(es: seq<ExtentDescriptor>, n: nat): nat
    requires n <= |es|
  {
    if n == 0 then 0 else SumSectors(es, n - 1) + es[n - 1].sectors
  }

  /** The first `n` extents, or what stopped the first one that cannot be opened. */
  function Plan(es: seq<ExtentDescriptor>, store: Store, n: nat): Planned<seq<ExtentImage>>
    requires n <= |es|
  {
    if n == 0 then Ok(Native([]))
    else
      match Plan(es, store, n - 1)
      case Ok(Native(images)) =>
        (match BodyPlan(es[n - 1], store)
         case Ok(Native(body)) =>
           Ok(Native(images + [ExtentImage(SumSectors(es, n - 1) * SECTOR, es[n - 1].sectors * SECTOR, body)]))
         case Ok(NeedsNbd(reason)) => Ok(NeedsNbd(reason))
         case Err(error) => Err(error))
      case Ok(NeedsNbd(reason)) => Ok(NeedsNbd(reason))
      case Err(error) => Err(error)
  }

  function PlanDescriptor(d: Descriptor, store: Store): Planned<seq<ExtentImage>> {
    if d.HasParent() then Ok(NeedsNbd(DeltaWithParent))
    else if d.extents == [] then Ok(NeedsNbd(NoExtents))
    else Plan(d.extents, store, |d.extents|)
  }

  /** The opened extents tile the disk, which is exactly as long as the descriptor declares. */
  lemma {:induction false} PlanTiles(es: seq<ExtentDescriptor>, store: Store, n: nat)
    requires n <= |es| && Plan(es, store, n).Ok? && Plan(es, store, n).value.Native?
    ensures var images := Plan(es, store, n).value.value;
            && |images| == n
            && Tiled(images, 0)
            && |Concat(images)| == SumSectors(es, n) * SECTOR
  {
    if n > 0 {
      PlanTiles(es, store, n - 1);
      var images, all := Plan(es, store, n - 1).value.value, Plan(es, store, n).value.value;
      assert all == images + [all[n - 1]];
      TiledSnoc(images, 0, all[n - 1]);
    }
  }

  /** Each opened extent has its declared length and the body its own line asks for. */
  lemma {:induction false} PlanBodies(es: seq<ExtentDescriptor>, store: Store, n: nat, k: nat)
    requires k < n <= |es| && Plan(es, store, n).Ok? && Plan(es, store, n).value.Native?
    ensures var images := Plan(es, store, n).value.value;
            && |images| == n
            && images[k].start == SumSectors(es, k) * SECTOR
            && images[k].length == es[k].sectors * SECTOR
            && BodyPlan(es[k], store) == Ok(Native(images[k].body))
  {
    PlanTiles(es, store, n - 1);
    if k < n - 1 {
      PlanBodies(es, store, n - 1, k);
    }
  }

  /** The first extent that cannot be opened decides the outcome. */
  lemma {:induction false} PlanStops(es: seq<ExtentDescriptor>, store: Store, n: nat, m: nat)
    requires n <= m <= |es|
    requires !(Plan(es, store, n).Ok? && Plan(es, store, n).value.Native?)
    ensures Plan(es, store, m) == Plan(es, store, n)
  {
    if n < m {
      PlanStops(es, store, n, m - 1);
    }
  }

  lemma PlanStopsAt(es: seq<ExtentDescriptor>, store: Store, i: nat, images: seq<ExtentImage>)
    requires i < |es| && Plan(es, store, i) == Ok(Native(images))
    ensures match BodyPlan(es[i], store)
            case Err(error) => Plan(es, store, |es|) == Err(error)
            case Ok(NeedsNbd(reason)) => Plan(es, store, |es|) == Ok(NeedsNbd(reason))
            case Ok(Native(_)) => true
  {
    if BodyPlan(es[i], store).Err? || BodyPlan(es[i], store).value.NeedsNbd? {
      PlanStops(es, store, i + 1, |es|);
    }
  }

  lemma PlanGoesOn(es: seq<ExtentDescriptor>, store: Store, i: nat, images: seq<ExtentImage>, image: ExtentImage)
    requires i < |es| && Plan(es, store, i) == Ok(Native(images))
    requires BodyPlan(es[i], store) == Ok(Native(image.body))
    requires image.start == SumSectors(es, i) * SECTOR && image.length == es[i].sectors * SECTOR
    ensures Plan(es, store, i + 1) == Ok(Native(images + [image]))
  {
  }

  // ---------------------------------------------------------------- opening

  method OpenFile(store: Store, name: string) returns (r: Result<File, IoError>)
    ensures r.Ok? <==> name in store.files
    ensures r.Err? ==> r.error == NotFound
    ensures r.Ok? ==> fresh(r.value) && r.value.pos == 0 && r.value.contents == store.files[name]
    ensures r.Ok? && store.AllQuiet() ==> Quiet(r.value.schedule)
  {
    if name !in store.files {
      return Err(NotFound);
    }
    var file := new File(store.files[name], store.ScheduleOf(name));
    return Ok(file);
  }

  /** Reads the header in the first sector. */
  method ReadHeader(file: File) returns (r: Result<SparseHeader, IoError>)
    requires file.pos == 0
    modifies file
    ensures r.Ok? ==> r == HeaderOf(file.contents) && r.value.Fits()
    ensures old(Quiet(file.schedule)) ==> Quiet(file.schedule) && (r.Err? <==> HeaderOf(file.contents).Err?)
  {
    var buf := new Byte[SECTOR](_ => 0);
    var e := ReadExact(file, buf);
    if e.Err? {
      return Err(e.error);
    }
    PaddedInside(file.contents, 0, SECTOR);
    assert buf[..] == file.contents[..SECTOR];
    r := ReadSparseHeader(buf[..]);
    if r.Ok? {
      HeaderFits(file.contents);
    }
  }

  method OpenSparse(file: File) returns (r: Result<OpenResult<SparseExtent>, IoError>)
    requires file.pos == 0
    requires HeaderOf(file.contents).Ok? ==> HeaderOf(file.contents).value.ProductsFit()
    modifies file
    ensures r.Ok? ==>
              match r.value
              case Native(extent) =>
                && fresh(extent) && extent.Valid() && extent.file == file
                && SparsePlan(file.contents) == Ok(Native(extent.Image()))
              case NeedsNbd(reason) => SparsePlan(file.contents) == Ok(NeedsNbd(reason))
    ensures old(Quiet(file.schedule)) ==> Quiet(file.schedule) && (r.Err? <==> SparsePlan(file.contents).Err?)
  {
    var header := ReadHeader(file);
    if header.Err? {
      return Err(header.error);
    }
    r := FromHeader(file, header.value);
  }

  /** Every byte of a flat extent has an address of 64 bits in its file. */
  predicate OffsetFits(e: ExtentDescriptor) {
    e.kind in {"FLAT", "VMFS", "VMFSRAW"} ==>
      e.offsetSectors * SECTOR < U64_LIMIT && (e.offsetSectors + e.sectors) * SECTOR <= U64_LIMIT
  }

  /** The products formed from a descriptor's numbers stay inside 64 bits. */
  predicate ExtentsFit(es: seq<ExtentDescriptor>) {
    SumSectors(es, |es|) * SECTOR < U64_LIMIT && forall i :: 0 <= i < |es| ==> OffsetFits(es[i])
  }

  /** Opens what one extent line of the descriptor names. */
  method OpenBody(e: ExtentDescriptor, store: Store) returns (r: Result<OpenResult<ExtentData>, IoError>)
    requires store.HeadersFit() && OffsetFits(e)
    ensures r.Ok? ==>
              match r.value
              case Native(data) =>
                && fresh(data.Objects()) && data.Valid()
                && BodyPlan(e, store) == Ok(Native(data.Body()))
                && OpenExtent(0, e.sectors * SECTOR, data).Fits()
                && (store.AllQuiet() ==> data.Undisturbed())
              case NeedsNbd(reason) => BodyPlan(e, store) == Ok(NeedsNbd(reason))
    ensures BodyPlan(e, store).Err? ==> r.Err?
    ensures store.AllQuiet() ==> (r.Err? <==> BodyPlan(e, store).Err?)
  {
    if e.kind == "ZERO" {
      return Ok(Native(Zero));
    }
    if e.kind !in {"FLAT", "VMFS", "VMFSRAW", "SPARSE", "VMFSSPARSE"} {
      return Ok(NeedsNbd(UnsupportedExtentType));
    }
    if e.file.None? {
      return Ok(NeedsNbd(ExtentWithoutFile));
    }
    var file := OpenFile(store, e.file.value);
    if file.Err? {
      return Err(file.error);
    }
    if e.kind in {"FLAT", "VMFS", "VMFSRAW"} {
      return Ok(Native(Flat(file.value, e.offsetSectors * SECTOR)));
    }
    var sparse := OpenSparse(file.value);
    match sparse
    case Err(error) => return Err(error);
    case Ok(NeedsNbd(reason)) => return Ok(NeedsNbd(reason));
    case Ok(Native(extent)) => return Ok(Native(Sparse(extent)));
  }

  /** One more opened extent, with the objects it owns. */
  lemma AppendedValid(extents: seq<OpenExtent>, extent: OpenExtent, repr: set<object>)
    requires Within(extents, repr) && AllValid(extents, repr) && extent.data.Valid() && extent.Fits()
    ensures Images(extents + [extent]) == Images(extents) + [extent.Image()]
    ensures var all, more := repr + extent.data.Objects(), extents + [extent];
            && Within(more, all) && AllValid(more, all)
            && (AllUndisturbed(extents, repr) && extent.data.Undisturbed() ==> AllUndisturbed(more, all))
  {
    var all, more := repr + extent.data.Objects(), extents + [extent];
    assert Images(more) == Images(extents) + [extent.Image()];
    assert forall k :: 0 <= k < |extents| ==> more[k] == extents[k];
  }

  /** Opens every extent of a descriptor, laying each where the one before it ends. */
  method OpenExtents(d: Descriptor, store: Store)
    returns (r: Result<OpenResult<seq<OpenExtent>>, IoError>, ghost repr: set<object>)
    requires store.HeadersFit() && ExtentsFit(d.extents)
    ensures fresh(repr)
    ensures r.Ok? ==>
              match r.value
              case Native(extents) =>
                && Within(extents, repr) && AllValid(extents, repr)
                && PlanDescriptor(d, store) == Ok(Native(Images(extents)))
                && (store.AllQuiet() ==> AllUndisturbed(extents, repr))
              case NeedsNbd(reason) => PlanDescriptor(d, store) == Ok(NeedsNbd(reason))
    ensures store.AllQuiet() ==> (r.Err? <==> PlanDescriptor(d, store).Err?)
  {
    repr := {};
    if d.HasParent() {
      return Ok(NeedsNbd(DeltaWithParent)), repr;
    }
    if d.extents == [] {
      return Ok(NeedsNbd(NoExtents)), repr;
    }
    var es := d.extents;
    var extents: seq<OpenExtent> := [];
    var start := 0;
    for i := 0 to |es|
      invariant fresh(repr) && |extents| == i && start == SumSectors(es, i) * SECTOR
      invariant Within(extents, repr) && AllValid(extents, repr)
      invariant store.AllQuiet() ==> AllUndisturbed(extents, repr)
      invariant Plan(es, store, i) == Ok(Native(Images(extents)))
    {
      var length := es[i].sectors * SECTOR;
      var body := OpenBody(es[i], store);
      if body.Err? || body.value.NeedsNbd? {
        PlanStopsAt(es, store, i, Images(extents));
        return if body.Err? then Err(body.error) else Ok(NeedsNbd(body.value.reason)), repr;
      }
      var extent := OpenExtent(start, length, body.value.value);
      PlanGoesOn(es, store, i, Images(extents), extent.Image());
      AppendedValid(extents, extent, repr);
      extents := extents + [extent];
      repr := repr + extent.data.Objects();
      start := start + length;
    }
    return Ok(Native(extents)), repr;
  }

  /** The capacity a descriptor declares; without one, the size of its own file is taken. */
  function DeclaredSize(es: seq<ExtentDescriptor>, fileSize: nat): nat {
    if SumSectors(es, |es|) > 0 then SumSectors(es, |es|) * SECTOR else fileSize
  }

  /** A reader over opened extents shows their concatenation, or zeros when nothing is declared. */
  lemma ShownBytes(es: seq<ExtentDescriptor>, images: seq<ExtentImage>, fileSize: nat)
    requires |Concat(images)| == SumSectors(es, |es|) * SECTOR
    ensures Visible(ExtentsDisk(images), DeclaredSize(es, fileSize)) ==
            if SumSectors(es, |es|) > 0 then Concat(images) else Zeros(fileSize)
  {
    if SumSectors(es, |es|) > 0 {
      PaddedInside(Concat(images), 0, |Concat(images)|);
    } else {
      assert Concat(images) == [];
      assert Padded([], 0, fileSize) == Zeros(fileSize);
    }
  }

  /** Opens a descriptor's disk at its declared capacity; `fileSize` is the size of the descriptor's own file. */
  method OpenDisk(d: Descriptor, fileSize: nat, store: Store, cancelIn: Option<nat>)
    returns (r: Result<OpenResult<DiskReader>, IoError>)
    requires store.HeadersFit() && ExtentsFit(d.extents)
    ensures r.Ok? && r.value.Native? ==>
              var reader := r.value.value;
              && fresh(reader) && fresh(reader.repr) && reader.Valid()
              && PlanDescriptor(d, store).Ok? && PlanDescriptor(d, store).value.Native?
              && reader.backend.Image() == ExtentsDisk(PlanDescriptor(d, store).value.value)
              && reader.virtualSize == DeclaredSize(d.extents, fileSize)
              && (reader.bytes == if SumSectors(d.extents, |d.extents|) > 0
                                  then Concat(PlanDescriptor(d, store).value.value) else Zeros(fileSize))
              && (store.AllQuiet() && cancelIn.None? ==> reader.Undisturbed())
    ensures r.Ok? && r.value.NeedsNbd? ==> PlanDescriptor(d, store) == Ok(NeedsNbd(r.value.reason))
    ensures store.AllQuiet() ==> (r.Err? <==> PlanDescriptor(d, store).Err?)
  {
    var outcome, repr := OpenExtents(d, store);
    if outcome.Err? {
      return Err(outcome.error);
    }
    if outcome.value.NeedsNbd? {
      return Ok(NeedsNbd(outcome.value.reason));
    }
    PlanTiles(d.extents, store, |d.extents|);
    var extents := outcome.value.value;
    var reader := new DiskReader(ExtentList(extents), DeclaredSize(d.extents, fileSize), cancelIn, repr);
    ShownBytes(d.extents, Images(extents), fileSize);
    return Ok(Native(reader));
  }
}
