/** The read façade over one virtual disk: a raw file, a sparse extent, a list of extents or an NBD session. */
module DiskReaders {
  import opened Bytes
  import opened Files
  import opened SparseExtents
  import opened Extents
  import opened NbdClient

  datatype Backend =
    | Raw(file: File)
    | SingleSparse(extent: SparseExtent)
    | ExtentList(extents: seq<OpenExtent>)
    | Nbd(stream: NbdStream)
  {
    ghost predicate Uses(repr: set<object>) {
      match this
      case Raw(file) => file in repr
      case SingleSparse(extent) => extent in repr && extent.file in repr
      case ExtentList(extents) => Within(extents, repr)
      case Nbd(stream) => stream in repr && stream.conn in repr
    }

    ghost predicate Valid(repr: set<object>)
      requires Uses(repr)
      reads repr
    {
      match this
      case Raw(_) => true
      case SingleSparse(extent) => extent.Valid()
      case ExtentList(extents) => AllValid(extents, repr) && Tiled(Images(extents), 0)
      case Nbd(stream) => stream.exportSize == |stream.conn.exported| && stream.conn.FollowsProtocol()
    }

    /** What the next reply of an NBD session answers is the next request. */
    ghost predicate InStep(repr: set<object>)
      requires Uses(repr)
      reads repr
    {
      Nbd? ==> stream.InStep()
    }

    ghost predicate Undisturbed(repr: set<object>)
      requires Uses(repr)
      reads repr
    {
      match this
      case Raw(file) => Quiet(file.schedule)
      case SingleSparse(extent) => Quiet(extent.file.schedule)
      case ExtentList(extents) => AllUndisturbed(extents, repr)
      case Nbd(stream) => Untroubled(stream.conn.AsLink())
    }

    ghost function Image(): DiskImage {
      match this
      case Raw(file) => RawDisk(file.contents)
      case SingleSparse(extent) => SparseDisk(extent.Image())
      case ExtentList(extents) => ExtentsDisk(Images(extents))
      case Nbd(stream) => NbdDisk(stream.conn.exported)
    }
  }

  /** The server will report no error. */
  predicate NoErrors(errors: seq<nat>) {
    forall i :: 0 <= i < |errors| ==> errors[i] % U32_LIMIT == 0
  }

  /** The client is in step, the connection will not break, and the server will report no error. */
  predicate Untroubled(link: Link) {
    link.Aligned() && Smooth(link.schedule) && NoErrors(link.server.errors)
  }

  /** The disk as its readers see it: cut off, or zero-filled, at the virtual size. */
  ghost function Visible(image: DiskImage, virtualSize: nat): seq<Byte> {
    Padded(image.DiskBytes(), 0, virtualSize)
  }

  /** How many bytes a read gets before the driver wrapper fills up with zeros. */
  function Available(image: DiskImage, virtualSize: nat, offset: nat, len: nat): nat {
    var n := Max(0, Min(len, virtualSize - offset));
    match image
    case SparseDisk(sparse) => Max(0, Min(n, sparse.capacityBytes - offset))
    case NbdDisk(contents) => Max(0, Min(n, |contents| - offset))
    case _ => n
  }

  /** Byte `k` of a read is available exactly when it lies before the end of the disk, of its extent, or of the export. */
  lemma AvailableExactly(image: DiskImage, virtualSize: nat, offset: nat, len: nat, k: nat)
    ensures k < Available(image, virtualSize, offset, len) <==>
              && k < len && offset + k < virtualSize
              && (image.SparseDisk? ==> offset + k < image.image.capacityBytes)
              && (image.NbdDisk? ==> offset + k < |image.contents|)
  {
  }

  method ReadRaw(file: File, offset: nat, len: nat) returns (r: Result<seq<Byte>, IoError>)
    modifies file
    ensures r.Ok? ==> r.value == Padded(file.contents, offset, len)
    ensures old(Quiet(file.schedule)) ==> r.Ok? && Quiet(file.schedule)
  {
    var buf := new Byte[len](_ => 0);
    var s := file.Seek(offset);
    if s.Err? {
      return Err(s.error);
    }
    var e := ReadOrZeros(file, buf, 0, len);
    if e.Err? {
      return Err(e.error);
    }
    assert buf[0..len] == buf[..];
    return Ok(buf[..]);
  }

  method ReadSparse(extent: SparseExtent, offset: nat, len: nat) returns (r: Result<seq<Byte>, IoError>)
    requires extent.Valid()
    modifies extent, extent.file
    ensures extent.Valid()
    ensures r.Ok? ==> r.value == Padded(extent.Image().Contents(), offset, Max(0, Min(len, extent.capacityBytes - offset)))
    ensures old(Quiet(extent.file.schedule)) ==>
              && Quiet(extent.file.schedule)
              && (AllTablesInFile(extent.Image()) ==> r.Ok?)
  {
    var buf := new Byte[len](_ => 0);
    var n := extent.ReadAt(offset, buf, 0, len);
    if n.Err? {
      return Err(n.error);
    }
    SparseSlice(extent.Image(), offset, buf[..n.value]);
    return Ok(buf[..n.value]);
  }

  lemma SparseSlice(image: SparseImage, offset: nat, s: seq<Byte>)
    requires s != [] ==> offset + |s| <= image.capacityBytes
    requires forall i :: 0 <= i < |s| ==> s[i] == image.At(offset + i)
    ensures s == Padded(image.Contents(), offset, |s|)
  {
    forall i | 0 <= i < |s| ensures s[i] == ByteAt(image.Contents(), offset + i) {
      assert image.Contents()[offset + i] == image.At(offset + i);
    }
  }

  /** What a client in step gets from one read, and whether it stays in step. */
  lemma NbdReadMeans(exported: seq<Byte>, link: Link, id: U64, offset: nat, len: nat)
    requires link.Aligned() && |exported| < U64_LIMIT
    ensures var (after, r) := ReadOne(Compliant(exported), |exported|, link, id, offset, len);
            && (r.Ok? ==> r.value == Padded(exported, offset, Clipped(|exported|, offset, len)) && after.Aligned())
            && (!after.Aligned() ==> r.Err? && InTransit(r.error))
            && (Smooth(link.schedule) ==> after.Aligned() && Smooth(after.schedule))
            && (Untroubled(link) ==> Untroubled(after) && (len < U32_LIMIT ==> r.Ok?))
  {
    ReadInStep(exported, link, id, offset, len);
    var n := Clipped(|exported|, offset, len);
    if n > 0 {
      PaddedInside(exported, offset, n);
    }
  }

  /** In step, the export's bytes; out of step, as many bytes as would be expected. */
  method ReadNbd(stream: NbdStream, offset: nat, len: nat) returns (r: Result<seq<Byte>, IoError>)
    requires stream.exportSize == |stream.conn.exported| && stream.conn.FollowsProtocol()
    modifies stream`requestId, stream.conn
    ensures r.Ok? ==> |r.value| == Clipped(stream.exportSize, offset, len)
    ensures old(stream.InStep()) && r.Ok? ==>
              stream.InStep() && r.value == Padded(stream.conn.exported, offset, Clipped(stream.exportSize, offset, len))
    ensures old(stream.InStep()) && !stream.InStep() ==> LostInTransit(r)
    ensures old(stream.InStep() && Smooth(stream.conn.schedule)) ==> stream.InStep() && Smooth(stream.conn.schedule)
    ensures old(Untroubled(stream.conn.AsLink())) ==> Untroubled(stream.conn.AsLink()) && (len < U32_LIMIT ==> r.Ok?)
  {
    ghost var link, id := stream.conn.AsLink(), stream.requestId;
    var data := stream.ReadRange(offset, len);
    if link.Aligned() {
      NbdReadMeans(stream.conn.exported, link, id, offset, len);
    }
    return if data.Ok? then Ok(data.value) else Err(Remote(data.error));
  }

  /** The connection failed during the operation. */
  predicate LostInTransit<T>(r: Result<T, IoError>) {
    r.Err? && r.error.Remote? && InTransit(r.error.cause)
  }

  /** Nothing but a failure in transit throws a session out of step, and it does not come back. */
  predicate Kept<T>(before: bool, after: bool, r: Result<T, IoError>) {
    (before ==> after) && (after && !before ==> LostInTransit(r))
  }

  class DiskReader {
    const backend: Backend
    const virtualSize: nat
    ghost const repr: set<object>
    /** Every byte of the virtual disk. */
    ghost const bytes: seq<Byte>
    /** An NBD session has been out of step: what it returns need not be what was asked for. */
    ghost var broken: bool
    var readOperations: nat
    var bytesRead: nat
    var cacheHits: nat
    var nbdRequests: nat
    /** How many more times the cancel token reads as unset; None when it is never set. */
    var cancelIn: Option<nat>

    constructor (backend: Backend, virtualSize: nat, cancelIn: Option<nat>, ghost repr: set<object>)
      requires backend.Uses(repr) && backend.Valid(repr)
      ensures Valid() && this.backend == backend && this.virtualSize == virtualSize
      ensures this.cancelIn == cancelIn && this.repr == repr
      ensures broken <==> !backend.InStep(repr)
      ensures readOperations == bytesRead == cacheHits == nbdRequests == 0
    {
      this.backend := backend;
      this.virtualSize := virtualSize;
      this.cancelIn := cancelIn;
      this.repr := repr;
      this.bytes := Visible(backend.Image(), virtualSize);
      broken := !backend.InStep(repr);
      readOperations, bytesRead, cacheHits, nbdRequests := 0, 0, 0, 0;
    }

    ghost predicate Valid()
      reads this, repr
    {
      && this !in repr && backend.Uses(repr) && backend.Valid(repr)
      && bytes == Visible(backend.Image(), virtualSize)
      && (broken ==> backend.Nbd?) && (!broken ==> backend.InStep(repr))
    }

    /** No cancellation and no failing file operation lies ahead. */
    ghost predicate Undisturbed()
      requires Valid()
      reads this, repr
    {
      cancelIn == None && !broken && backend.Undisturbed(repr)
    }

    /** The session cannot be thrown out of step: it is no NBD session, or its connection does not break. */
    ghost predicate Steady()
      requires Valid()
      reads this, repr
    {
      !broken && (backend.Nbd? ==> Smooth(backend.stream.conn.schedule))
    }

    method PollCancel() returns (cancelled: bool)
      modifies this`cancelIn
      ensures cancelled <==> old(cancelIn) == Some(0)
      ensures cancelIn == if old(cancelIn).Some? && old(cancelIn).value > 0 then Some(old(cancelIn).value - 1) else old(cancelIn)
    {
      if cancelIn.Some? {
        if cancelIn.value == 0 {
          return true;
        }
        cancelIn := Some(cancelIn.value - 1);
      }
      return false;
    }

    /** Reads `[offset, offset + len)`, possibly fewer bytes when the disk or its extent ends first. */
    method ReadRange(offset: nat, len: nat) returns (r: Result<seq<Byte>, IoError>)
      requires Valid()
      modifies this, repr
      ensures Valid() && Kept(old(broken), broken, r)
      ensures r.Ok? ==> |r.value| == Available(backend.Image(), virtualSize, offset, len)
      ensures r.Ok? && !broken ==> r.value + Zeros(len - |r.value|) == Padded(bytes, offset, len)
      ensures old(cancelIn) == Some(0) ==> r == Err(Cancelled)
      ensures bytesRead == old(bytesRead) + if r.Ok? then |r.value| else 0
      ensures readOperations == old(readOperations) +
                if old(cancelIn) != Some(0) && len > 0 && offset < virtualSize then 1 else 0
      ensures nbdRequests == old(nbdRequests) +
                if old(cancelIn) != Some(0) && len > 0 && offset < virtualSize && backend.Nbd? then 1 else 0
      ensures cacheHits == old(cacheHits)
      ensures old(Undisturbed()) ==> Undisturbed() && (backend.Image().Serves(len) ==> r.Ok?)
      ensures old(Steady()) ==> Steady()
    {
      var cancelled := PollCancel();
      if cancelled {
        return Err(Cancelled);
      }
      if offset >= virtualSize || len == 0 {
        NothingVisible(backend.Image(), virtualSize, offset, len);
        return Ok([]);
      }
      r := ReadCounted(offset, len);
    }

    /** Reads what lies inside the virtual size, and counts it. */
    method ReadCounted(offset: nat, len: nat) returns (r: Result<seq<Byte>, IoError>)
      requires Valid() && offset < virtualSize
      modifies this`readOperations, this`nbdRequests, this`bytesRead, this`broken, repr
      ensures Valid() && Kept(old(broken), broken, r)
      ensures r.Ok? ==> |r.value| == Available(backend.Image(), virtualSize, offset, len)
      ensures r.Ok? && !broken ==> r.value + Zeros(len - |r.value|) == Padded(bytes, offset, len)
      ensures bytesRead == old(bytesRead) + if r.Ok? then |r.value| else 0
      ensures readOperations == old(readOperations) + 1
      ensures nbdRequests == old(nbdRequests) + if backend.Nbd? then 1 else 0
      ensures old(Undisturbed()) ==> Undisturbed() && (backend.Image().Serves(len) ==> r.Ok?)
      ensures old(Steady()) ==> Steady()
    {
      CountOperation();
      r := ReadClipped(offset, len);
      if r.Ok? {
        bytesRead := bytesRead + |r.value|;
      }
    }

    method CountOperation()
      requires Valid()
      modifies this`readOperations, this`nbdRequests
      ensures Valid() && readOperations == old(readOperations) + 1
      ensures nbdRequests == old(nbdRequests) + if backend.Nbd? then 1 else 0
      ensures old(Undisturbed()) ==> Undisturbed()
      ensures old(Steady()) ==> Steady()
    {
      readOperations := readOperations + 1;
      if backend.Nbd? {
        nbdRequests := nbdRequests + 1;
      }
    }

    /** Reads what lies inside the virtual size. */
    method ReadClipped(offset: nat, len: nat) returns (r: Result<seq<Byte>, IoError>)
      requires Valid() && offset < virtualSize
      modifies this`broken, repr
      ensures Valid() && Kept(old(broken), broken, r)
      ensures r.Ok? ==> |r.value| == Available(backend.Image(), virtualSize, offset, len)
      ensures r.Ok? && !broken ==> r.value + Zeros(len - |r.value|) == Padded(bytes, offset, len)
      ensures old(!broken && backend.Undisturbed(repr)) ==>
                !broken && backend.Undisturbed(repr) && (backend.Image().Serves(len) ==> r.Ok?)
      ensures old(Steady()) ==> Steady()
    {
      r := ReadBackend(offset, Min(len, virtualSize - offset));
      if r.Ok? && !broken {
        ClipAndPad(backend.Image(), virtualSize, offset, len, r.value);
      }
    }

    method ReadBackend(offset: nat, len: nat) returns (r: Result<seq<Byte>, IoError>)
      requires Valid() && offset + len <= virtualSize
      modifies this`broken, repr
      ensures Valid() && Kept(old(broken), broken, r)
      ensures r.Ok? ==> |r.value| == Available(backend.Image(), virtualSize, offset, len)
      ensures r.Ok? && !broken ==>
                r.value == Padded(backend.Image().DiskBytes(), offset, Available(backend.Image(), virtualSize, offset, len))
      ensures old(!broken && backend.Undisturbed(repr)) ==>
                !broken && backend.Undisturbed(repr) && (backend.Image().Serves(len) ==> r.Ok?)
      ensures old(Steady()) ==> Steady()
    {
      match backend
      case Raw(file) =>
        r := ReadRaw(file, offset, len);
      case SingleSparse(extent) =>
        r := ReadSparse(extent, offset, len);
      case ExtentList(extents) =>
        TilingShows(Images(extents));
        r := ReadFromExtents(extents, repr, Concat(Images(extents)), offset, len);
      case Nbd(stream) =>
        r := ReadNbd(stream, offset, len);
        broken := broken || !stream.InStep();
    }

    /** The driver's `read_range`: fills all of `buf`, with zeros where the disk has ended. */
    method FillRange(offset: nat, buf: array<Byte>) returns (r: Result<(), IoError>)
      requires Valid() && buf !in repr
      modifies this, repr, buf
      ensures Valid() && Kept(old(broken), broken, r)
      ensures r.Ok? && !broken ==> buf[..] == Padded(bytes, offset, buf.Length)
      ensures cacheHits == old(cacheHits)
      ensures old(Undisturbed()) ==> Undisturbed() && (backend.Image().Serves(buf.Length) ==> r.Ok?)
      ensures old(Steady()) ==> Steady()
    {
      var data := ReadRange(offset, buf.Length);
      if data.Err? {
        return Err(data.error);
      }
      var all := data.value;
      forall i | 0 <= i < buf.Length {
        buf[i] := if i < |all| then all[i] else 0;
      }
      assert buf[..] == all + Zeros(buf.Length - |all|);
      return Ok(());
    }

    method RecordCacheHit()
      requires Valid()
      modifies this`cacheHits
      ensures Valid() && cacheHits == old(cacheHits) + 1
    {
      cacheHits := cacheHits + 1;
    }
  }

  lemma NothingVisible(image: DiskImage, virtualSize: nat, offset: nat, len: nat)
    requires offset >= virtualSize || len == 0
    ensures Available(image, virtualSize, offset, len) == 0
    ensures [] + Zeros(len) == Padded(Visible(image, virtualSize), offset, len)
  {
  }

  /** What a backend returns, filled up with zeros, is the requested stretch of the visible disk. */
  lemma ClipAndPad(image: DiskImage, virtualSize: nat, offset: nat, len: nat, data: seq<Byte>)
    requires offset < virtualSize
    requires var n := Min(len, virtualSize - offset);
             data == Padded(image.DiskBytes(), offset, Available(image, virtualSize, offset, n))
    ensures |data| == Available(image, virtualSize, offset, len)
    ensures data + Zeros(len - |data|) == Padded(Visible(image, virtualSize), offset, len)
  {
    var disk := image.DiskBytes();
    assert |disk| == |image.DiskBytes()|;
    forall i | 0 <= i < len
      ensures (data + Zeros(len - |data|))[i] == Padded(Visible(image, virtualSize), offset, len)[i]
    {
    }
  }
}
