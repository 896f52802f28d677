/**
 * The extents of a descriptor-based VMDK. However they are spread over files, what they
 * show is one byte string: the contents of the extents one after the other.
 */
module Extents {
  import opened Bytes
  import opened Files
  import opened SparseExtents

  // ---------------------------------------------------------------- meaning

  datatype ExtentBody =
    | FlatBody(contents: seq<Byte>, offset: nat)
    | SparseBody(image: SparseImage)
    | ZeroBody
  {
    /** Byte `within` of the extent; a short sparse extent continues with zeros. */
    function At(within: nat): Byte {
      match this
      case FlatBody(contents, offset) => ByteAt(contents, offset + within)
      case SparseBody(image) => if within < image.capacityBytes then image.At(within) else 0
      case ZeroBody => 0
    }

    function Slice(within: nat, n: nat): (s: seq<Byte>)
      ensures |s| == n
      ensures forall i :: 0 <= i < n ==> s[i] == At(within + i)
    {
      seq<Byte>(n, (i: int) requires 0 <= i < n => At(within + i))
    }
  }

  datatype ExtentImage = ExtentImage(start: nat, length: nat, body: ExtentBody) {
    predicate Covers(pos: nat) {
      start <= pos < start + length
    }

    function Content(): (s: seq<Byte>)
      ensures |s| == length
      ensures forall i :: 0 <= i < length ==> s[i] == body.At(i)
    {
      seq<Byte>(length, (i: int) requires 0 <= i < length => body.At(i))
    }
  }

  /** The disk a list of extents makes up: their contents one after the other. */
  function Concat(extents: seq<ExtentImage>): seq<Byte> {
    if extents == [] then [] else extents[0].Content() + Concat(extents[1..])
  }

  /** Each extent starts where the one before it ends, the first at `from`. */
  predicate Tiled(extents: seq<ExtentImage>, from: nat) {
    extents == [] || (extents[0].start == from && Tiled(extents[1..], from + extents[0].length))
  }

  /** In a tiling, byte `pos` of the disk is the byte of whichever extent covers it. */
  lemma {:induction false} ConcatAt(extents: seq<ExtentImage>, from: nat, k: nat, pos: nat)
    requires Tiled(extents, from)
    requires k < |extents| && extents[k].Covers(pos)
    ensures from <= pos < from + |Concat(extents)|
    ensures Concat(extents)[pos - from] == extents[k].body.At(pos - extents[k].start)
    ensures extents[k].start + extents[k].length <= from + |Concat(extents)|
  {
    var head, rest := extents[0], extents[1..];
    assert extents == [head] + rest;
    ConcatCons(head, rest, from);
    if k > 0 {
      ConcatAt(rest, from + head.length, k - 1, pos);
      InSecond(head.Content(), Concat(rest), pos - from);
    } else {
      InFirst(head.Content(), Concat(rest), pos - from);
    }
  }

  lemma InFirst(a: seq<Byte>, b: seq<Byte>, i: nat)
    requires i < |a|
    ensures (a + b)[i] == a[i]
  {
  }

  lemma InSecond(a: seq<Byte>, b: seq<Byte>, i: nat)
    requires |a| <= i < |a| + |b|
    ensures (a + b)[i] == b[i - |a|]
  {
  }

  predicate CoveredBy(extents: seq<ExtentImage>, k: nat, pos: nat) {
    k < |extents| && extents[k].Covers(pos)
  }

  ghost predicate Covered(extents: seq<ExtentImage>, pos: nat) {
    exists k: nat :: CoveredBy(extents, k, pos)
  }

  /** `disk` is what a list of extents shows: each byte of each extent, and nothing else. */
  ghost predicate Shows(extents: seq<ExtentImage>, disk: seq<Byte>) {
    && (forall k: nat, p: nat :: CoveredBy(extents, k, p) ==>
          p < |disk| && disk[p] == extents[k].body.At(p - extents[k].start))
    && (forall p: nat :: p < |disk| ==> Covered(extents, p))
  }

  lemma TilingShows(extents: seq<ExtentImage>)
    requires Tiled(extents, 0)
    ensures Shows(extents, Concat(extents))
  {
    var disk := Concat(extents);
    forall k: nat, p: nat | CoveredBy(extents, k, p)
      ensures p < |disk| && disk[p] == extents[k].body.At(p - extents[k].start)
    {
      ConcatAt(extents, 0, k, p);
    }
    forall p: nat | p < |disk| ensures Covered(extents, p) {
      var k := CoveredOnce(extents, 0, p);
      assert CoveredBy(extents, k, p);
    }
  }

  /** A tiling leaves no gap and no overlap: exactly one extent covers each position. */
  lemma {:induction false} CoveredOnce(extents: seq<ExtentImage>, from: nat, pos: nat) returns (k: nat)
    requires Tiled(extents, from)
    requires from <= pos < from + |Concat(extents)|
    ensures k < |extents| && extents[k].Covers(pos)
    ensures forall j :: 0 <= j < |extents| && extents[j].Covers(pos) ==> j == k
  {
    if pos < from + extents[0].length {
      k := 0;
      forall j | 0 < j < |extents| ensures !extents[j].Covers(pos) {
        StartsAfter(extents[1..], from + extents[0].length, j - 1);
      }
    } else {
      var k' := CoveredOnce(extents[1..], from + extents[0].length, pos);
      k := k' + 1;
      forall j | 0 <= j < |extents| && extents[j].Covers(pos) ensures j == k {
        assert j > 0 && extents[1..][j - 1].Covers(pos);
      }
    }
  }

  lemma {:induction false} StartsAfter(extents: seq<ExtentImage>, from: nat, j: nat)
    requires Tiled(extents, from) && j < |extents|
    ensures extents[j].start >= from
  {
    if j > 0 {
      StartsAfter(extents[1..], from + extents[0].length, j - 1);
    }
  }

  lemma ConcatCons(e: ExtentImage, rest: seq<ExtentImage>, from: nat)
    ensures Concat([e] + rest) == e.Content() + Concat(rest)
    ensures Tiled([e] + rest, from) <==> e.start == from && Tiled(rest, from + e.length)
  {
    assert ([e] + rest)[1..] == rest;
  }

  lemma Associates(a: seq<Byte>, b: seq<Byte>, c: seq<Byte>)
    ensures a + (b + c) == (a + b) + c
  {
  }

  lemma {:induction false} TiledSnoc(extents: seq<ExtentImage>, from: nat, e: ExtentImage)
    requires Tiled(extents, from) && e.start == from + |Concat(extents)|
    ensures Tiled(extents + [e], from)
    ensures Concat(extents + [e]) == Concat(extents) + e.Content()
  {
    if extents == [] {
      ConcatCons(e, [], from);
      assert extents + [e] == [e] + [] && e.Content() + [] == [] + e.Content();
    } else {
      var head, rest := extents[0], extents[1..];
      assert extents == [head] + rest && extents + [e] == [head] + (rest + [e]);
      ConcatCons(head, rest, from);
      TiledSnoc(rest, from + head.length, e);
      ConcatCons(head, rest + [e], from);
      Associates(head.Content(), Concat(rest), e.Content());
    }
  }

  datatype DiskImage =
    | RawDisk(contents: seq<Byte>)
    | SparseDisk(image: SparseImage)
    | ExtentsDisk(extents: seq<ExtentImage>)
    | NbdDisk(contents: seq<Byte>)
  {
    predicate WellFormed() {
      ExtentsDisk? ==> Tiled(extents, 0)
    }

    function DiskBytes(): seq<Byte> {
      match this
      case RawDisk(contents) => contents
      case SparseDisk(image) => image.Contents()
      case ExtentsDisk(extents) => Concat(extents)
      case NbdDisk(contents) => contents
    }

    /** No grain table of the disk runs past the end of its file. */
    ghost predicate TablesInFile() {
      match this
      case RawDisk(_) => true
      case SparseDisk(image) => AllTablesInFile(image)
      case ExtentsDisk(extents) =>
        forall k :: 0 <= k < |extents| && extents[k].body.SparseBody? ==> AllTablesInFile(extents[k].body.image)
      case NbdDisk(_) => true
    }

    /** Reads of up to `n` bytes cannot fail for what the disk is: over NBD a length has 32 bits. */
    ghost predicate Serves(n: nat) {
      TablesInFile() && (NbdDisk? ==> n < U32_LIMIT)
    }
  }

  ghost predicate AllTablesInFile(image: SparseImage) {
    forall gd :: 0 <= gd < |image.directory| ==> image.TableInFile(gd)
  }

  // ---------------------------------------------------------------- open extents

  datatype ExtentData =
    | Flat(file: File, offset: nat)
    | Sparse(extent: SparseExtent)
    | Zero
  {
    ghost function Objects(): set<object> {
      match this
      case Flat(file, _) => {file}
      case Sparse(extent) => {extent, extent.file}
      case Zero => {}
    }

    ghost predicate Valid()
      reads Objects()
    {
      Sparse? ==> extent.Valid()
    }

    ghost predicate Undisturbed()
      reads Objects()
    {
      match this
      case Flat(file, _) => Quiet(file.schedule)
      case Sparse(extent) => Quiet(extent.file.schedule)
      case Zero => true
    }

    ghost function Body(): ExtentBody {
      match this
      case Flat(file, offset) => FlatBody(file.contents, offset)
      case Sparse(extent) => SparseBody(extent.Image())
      case Zero => ZeroBody
    }
  }

  datatype OpenExtent = OpenExtent(start: nat, length: nat, data: ExtentData) {
    /** Every byte of a flat extent has an address of 64 bits in its file. */
    predicate Fits() {
      data.Flat? ==> data.offset + length <= U64_LIMIT
    }

    ghost function Image(): ExtentImage {
      ExtentImage(start, length, data.Body())
    }
  }

  ghost function Images(extents: seq<OpenExtent>): (images: seq<ExtentImage>)
    ensures |images| == |extents|
    ensures forall k :: 0 <= k < |extents| ==> images[k] == extents[k].Image()
  {
    seq(|extents|, k requires 0 <= k < |extents| => extents[k].Image())
  }

  /** `repr` holds every object the extents read through. */
  ghost predicate Within(extents: seq<OpenExtent>, repr: set<object>) {
    forall k :: 0 <= k < |extents| ==> extents[k].data.Objects() <= repr
  }

  ghost predicate AllValid(extents: seq<OpenExtent>, repr: set<object>)
    requires Within(extents, repr)
    reads repr
  {
    forall k :: 0 <= k < |extents| ==> extents[k].data.Valid() && extents[k].Fits()
  }

  ghost predicate AllUndisturbed(extents: seq<OpenExtent>, repr: set<object>)
    requires Within(extents, repr)
    reads repr
  {
    forall k :: 0 <= k < |extents| ==> extents[k].data.Undisturbed()
  }

  /** The first extent that covers `pos`, if any. */
  method Find(extents: seq<OpenExtent>, pos: nat) returns (k: Option<nat>)
    ensures k.Some? ==> CoveredBy(Images(extents), k.value, pos)
    ensures k.None? ==> forall j: nat :: !CoveredBy(Images(extents), j, pos)
  {
    for i := 0 to |extents|
      invariant forall j: nat :: j < i ==> !CoveredBy(Images(extents), j, pos)
    {
      if pos >= extents[i].start && pos < extents[i].start + extents[i].length {
        return Some(i);
      }
    }
    return None;
  }

  /** Fills `buf[lo..lo + n]` from one extent. */
  method ReadFromExtent(data: ExtentData, within: nat, buf: array<Byte>, lo: nat, n: nat)
    returns (r: Result<(), IoError>)
    requires lo + n <= buf.Length && data.Valid()
    requires data.Flat? ==> data.offset + within + n <= U64_LIMIT
    requires buf !in data.Objects()
    modifies data.Objects(), buf
    ensures data.Valid()
    ensures r.Ok? ==> buf[lo..lo + n] == data.Body().Slice(within, n)
    ensures forall i :: 0 <= i < buf.Length && !(lo <= i < lo + n) ==> buf[i] == old(buf[i])
    ensures old(data.Undisturbed()) ==> data.Undisturbed()
    ensures old(data.Undisturbed()) && (data.Sparse? ==> AllTablesInFile(data.extent.Image())) ==> r.Ok?
  {
    match data
    case Flat(file, base) =>
      var s := file.Seek(base + within);
      if s.Err? {
        return Err(s.error);
      }
      r := ReadOrZeros(file, buf, lo, lo + n);
    case Sparse(extent) =>
      var read := extent.ReadAt(within, buf, lo, lo + n);
      if read.Err? {
        return Err(read.error);
      }
      forall i | lo + read.value <= i < lo + n {
        buf[i] := 0;
      }
      return Ok(());
    case Zero =>
      forall i | lo <= i < lo + n {
        buf[i] := 0;
      }
      return Ok(());
  }

  /** Reads from the `k`-th extent; no other extent is disturbed, even one that shares its file. */
  method ReadFromNth(extents: seq<OpenExtent>, ghost repr: set<object>, k: nat, within: nat, buf: array<Byte>, lo: nat, n: nat)
    returns (r: Result<(), IoError>)
    requires lo + n <= buf.Length && Within(extents, repr) && AllValid(extents, repr) && k < |extents|
    requires within + n <= extents[k].length && buf !in repr
    modifies repr, buf
    ensures AllValid(extents, repr)
    ensures r.Ok? ==> buf[lo..lo + n] == extents[k].data.Body().Slice(within, n)
    ensures forall i :: 0 <= i < buf.Length && !(lo <= i < lo + n) ==> buf[i] == old(buf[i])
    ensures old(AllUndisturbed(extents, repr)) ==> AllUndisturbed(extents, repr)
    ensures old(AllUndisturbed(extents, repr)) && ExtentsDisk(Images(extents)).TablesInFile() ==> r.Ok?
  {
    var data := extents[k].data;
    assert data.Valid() && data.Objects() <= repr;
    assert ExtentsDisk(Images(extents)).TablesInFile() && data.Sparse? ==> AllTablesInFile(data.extent.Image()) by {
      assert Images(extents)[k].body == data.Body();
    }
    label before:
    r := ReadFromExtent(data, within, buf, lo, n);
    forall j | 0 <= j < |extents| ensures extents[j].data.Valid() && extents[j].Fits() {
      assert old@before(extents[j].data.Valid() && extents[j].Fits());
    }
    if old(AllUndisturbed(extents, repr)) {
      forall j | 0 <= j < |extents| ensures extents[j].data.Undisturbed() {
        assert old@before(extents[j].data.Undisturbed());
      }
    }
  }

  /**
   * One step of `ReadFromExtents`: fills part of `buf[lo..]` from the extent that covers `pos`.
   * Zero bytes means that no extent does, and then the disk ends at or before `pos`.
   */
  method ReadRun(extents: seq<OpenExtent>, ghost repr: set<object>, ghost disk: seq<Byte>, pos: nat, buf: array<Byte>, lo: nat)
    returns (r: Result<nat, IoError>)
    requires Within(extents, repr) && AllValid(extents, repr) && Shows(Images(extents), disk)
    requires lo < buf.Length && buf !in repr
    modifies repr, buf
    ensures AllValid(extents, repr)
    ensures r.Ok? ==> r.value <= buf.Length - lo
    ensures r.Ok? && r.value == 0 ==> pos >= |disk|
    ensures r.Ok? ==> forall i :: lo <= i < lo + r.value ==> buf[i] == ByteAt(disk, pos + (i - lo))
    ensures r.Ok? ==> forall i :: 0 <= i < buf.Length && !(lo <= i < lo + r.value) ==> buf[i] == old(buf[i])
    ensures old(AllUndisturbed(extents, repr)) ==> AllUndisturbed(extents, repr)
    ensures old(AllUndisturbed(extents, repr)) && ExtentsDisk(Images(extents)).TablesInFile() ==> r.Ok?
  {
    var found := Find(extents, pos);
    if found.None? {
      PastTheEnd(Images(extents), disk, pos);
      return Ok(0);
    }
    var ext := extents[found.value];
    var n := Min(ext.length - (pos - ext.start), buf.Length - lo);
    var e := ReadFromNth(extents, repr, found.value, pos - ext.start, buf, lo, n);
    if e.Err? {
      return Err(e.error);
    }
    RunInExtent(Images(extents), disk, found.value, pos, n, buf[..], lo);
    return Ok(n);
  }

  /** Reads `[offset, offset + len)` of the disk that a list of extents shows. */
  method ReadFromExtents(extents: seq<OpenExtent>, ghost repr: set<object>, ghost disk: seq<Byte>, offset: nat, len: nat)
    returns (r: Result<seq<Byte>, IoError>)
    requires Within(extents, repr) && AllValid(extents, repr) && Shows(Images(extents), disk)
    modifies repr
    ensures AllValid(extents, repr)
    ensures r.Ok? ==> r.value == Padded(disk, offset, len)
    ensures old(AllUndisturbed(extents, repr)) ==> AllUndisturbed(extents, repr)
    ensures old(AllUndisturbed(extents, repr)) && ExtentsDisk(Images(extents)).TablesInFile() ==> r.Ok?
  {
    var buf := new Byte[len](_ => 0);
    var done := 0;
    while done < len
      invariant 0 <= done <= len && AllValid(extents, repr)
      invariant forall i :: 0 <= i < done ==> buf[i] == ByteAt(disk, offset + i)
      invariant forall i :: done <= i < len ==> buf[i] == 0
      invariant old(AllUndisturbed(extents, repr)) ==> AllUndisturbed(extents, repr)
    {
      var n := ReadRun(extents, repr, disk, offset + done, buf, done);
      if n.Err? {
        return Err(n.error);
      }
      if n.value == 0 {
        // A position no extent covers: zeros from here on.
        break;
      }
      done := done + n.value;
    }
    return Ok(buf[..]);
  }

  lemma PastTheEnd(images: seq<ExtentImage>, disk: seq<Byte>, pos: nat)
    requires Shows(images, disk)
    requires forall j: nat :: !CoveredBy(images, j, pos)
    ensures pos >= |disk|
  {
    assert !Covered(images, pos);
  }

  /** A run inside one extent is that run of the disk. */
  lemma RunInExtent(images: seq<ExtentImage>, disk: seq<Byte>, k: nat, pos: nat, n: nat, buf: seq<Byte>, lo: nat)
    requires Shows(images, disk) && k < |images|
    requires images[k].start <= pos && pos + n <= images[k].start + images[k].length
    requires lo + n <= |buf| && buf[lo..lo + n] == images[k].body.Slice(pos - images[k].start, n)
    ensures forall i :: lo <= i < lo + n ==> buf[i] == ByteAt(disk, pos + (i - lo))
  {
    forall i | lo <= i < lo + n ensures buf[i] == ByteAt(disk, pos + (i - lo)) {
      assert CoveredBy(images, k, pos + (i - lo));
      assert buf[i] == buf[lo..lo + n][i - lo];
    }
  }
}
