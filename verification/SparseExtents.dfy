/**
 * Sparse VMDK extents: a grain directory points to grain tables, a grain table points to
 * grains, and a table is loaded the first time a read needs it.
 */
module SparseExtents {
  import opened Bytes
  import opened Files

  /** The outcome of opening something natively. */
  datatype OpenResult<+T> = Native(value: T) | NeedsNbd(reason: Reason)

  datatype Reason =
    | CompressedGrains
    | NoGrainDirectory
    | UnsupportedGrainSize
    | InconsistentHeader
    | DisproportionateDirectory
    | DeltaWithParent
    | NoExtents
    | ExtentWithoutFile
    | UnsupportedExtentType
    | SeveralDeclaredExtents
    | UnrecognizedHeader

  // ---------------------------------------------------------------- header

  const MAGIC: seq<Byte> := [0x4B, 0x44, 0x4D, 0x56] // "KDMV"
  const FLAG_COMPRESSED_BIT := 16
  const FLAG_MARKERS_BIT := 17
  const MAX_TABLES := 0x10_0000

  datatype SparseHeader = SparseHeader(
    version: nat,
    flags: nat,
    capacitySectors: nat,
    grainSectors: nat,
    descriptorOffset: nat,
    descriptorSectors: nat,
    gtesPerGt: nat,
    rgdOffset: nat,
    gdOffset: nat,
    compression: nat)
  {
    /** Every field fits the width it has in the file. */
    predicate Fits() {
      && version < U32_LIMIT && flags < U32_LIMIT && gtesPerGt < U32_LIMIT
      && capacitySectors < U64_LIMIT && grainSectors < U64_LIMIT
      && descriptorOffset < U64_LIMIT && descriptorSectors < U64_LIMIT
      && rgdOffset < U64_LIMIT && gdOffset < U64_LIMIT
      && compression < 0x1_0000
    }

    /** The products formed while opening an extent that can be read natively stay inside 64 bits. */
    predicate ProductsFit() {
      UnsupportedReason() == None ==>
        && gtesPerGt * (grainSectors * SECTOR) < U64_LIMIT
        && capacitySectors * SECTOR < U64_LIMIT
        && DirectorySector() * SECTOR < U64_LIMIT
    }

    /** The header says where an embedded descriptor lies. */
    predicate Describes() {
      descriptorOffset != 0 && descriptorSectors != 0
    }

    /** The products formed to find the embedded descriptor stay inside 64 bits. */
    predicate DescriptorFits() {
      Describes() ==> descriptorOffset * SECTOR < U64_LIMIT && descriptorSectors * SECTOR < U64_LIMIT
    }

    /** Why this extent cannot be read natively, if there is a reason. */
    function UnsupportedReason(): Option<Reason> {
      if compression != 0 || Bit(flags, FLAG_COMPRESSED_BIT) || Bit(flags, FLAG_MARKERS_BIT) then
        Some(CompressedGrains)
      else if gdOffset == U64_LIMIT - 1 || gdOffset == 0 then
        Some(NoGrainDirectory)
      else if grainSectors == 0 || !IsPowerOfTwo(grainSectors) then
        Some(UnsupportedGrainSize)
      else if gtesPerGt == 0 || capacitySectors == 0 then
        Some(InconsistentHeader)
      else
        None
    }

    /** Sector of the grain directory: the redundant one when it is marked as in use. */
    function DirectorySector(): nat {
      if Bit(flags, 1) && rgdOffset != 0 && rgdOffset != U64_LIMIT - 1 then rgdOffset else gdOffset
    }

    function TableCount(): nat
      requires UnsupportedReason() == None
    {
      MultipleAtLeast(gtesPerGt, grainSectors * SECTOR);
      DivCeil(capacitySectors * SECTOR, gtesPerGt * (grainSectors * SECTOR))
    }

    /** The address map a supported header describes over the bytes of its file. */
    function ImageOf(contents: seq<Byte>): SparseImage
      requires UnsupportedReason() == None
    {
      SparseImage(contents, grainSectors * SECTOR, gtesPerGt, capacitySectors * SECTOR,
                  U32sAt(contents, DirectorySector() * SECTOR, TableCount()))
    }
  }

  function Pow2(n: nat): (p: nat)
    ensures p > 0
  {
    if n == 0 then 1 else 2 * Pow2(n - 1)
  }

  predicate Bit(v: nat, n: nat) {
    v / Pow2(n) % 2 == 1
  }

  predicate IsPowerOfTwo(n: nat) {
    n == 1 || (n > 1 && n % 2 == 0 && IsPowerOfTwo(n / 2))
  }

  lemma {:induction false} Pow2IsPowerOfTwo(k: nat)
    ensures IsPowerOfTwo(Pow2(k))
  {
    if k > 0 {
      Pow2IsPowerOfTwo(k - 1);
    }
  }

  lemma {:induction false} Exponent(n: nat) returns (k: nat)
    requires IsPowerOfTwo(n)
    ensures n == Pow2(k)
  {
    if n == 1 {
      return 0;
    }
    k := Exponent(n / 2);
    k := k + 1;
  }

  /** The halving test accepts exactly the powers of two. */
  lemma IsPowerOfTwoCorrect(n: nat)
    ensures IsPowerOfTwo(n) <==> exists k: nat :: n == Pow2(k)
  {
    if IsPowerOfTwo(n) {
      var k := Exponent(n);
    } else {
      forall k: nat ensures n != Pow2(k) {
        Pow2IsPowerOfTwo(k);
      }
    }
  }

  function Quotient(a: nat, b: nat): (q: nat)
    requires b > 0
  {
    a / b
  }

  function Remainder(a: nat, b: nat): (r: nat)
    requires b > 0
    ensures r < b
  {
    a % b
  }

  function U16At(s: seq<Byte>, p: nat): nat {
    LeValue(Padded(s, p, 2))
  }

  function U32At(s: seq<Byte>, p: nat): nat {
    LeValue(Padded(s, p, 4))
  }

  function U64At(s: seq<Byte>, p: nat): nat {
    LeValue(Padded(s, p, 8))
  }

  function U32sAt(s: seq<Byte>, p: nat, n: nat): (v: seq<nat>)
    ensures |v| == n
    ensures forall i :: 0 <= i < n ==> v[i] == U32At(s, p + 4 * i)
  {
    seq<nat>(n, (i: int) requires 0 <= i < n => U32At(s, p + 4 * i))
  }

  /** Decodes the header of a sparse extent from the first bytes of its file. */
  function ReadSparseHeader(buf: seq<Byte>): Result<SparseHeader, IoError> {
    if |buf| < 80 || buf[..4] != MAGIC then
      Err(InvalidInput)
    else
      Ok(SparseHeader(U32At(buf, 4), U32At(buf, 8), U64At(buf, 12), U64At(buf, 20), U64At(buf, 28),
                      U64At(buf, 36), U32At(buf, 44), U64At(buf, 48), U64At(buf, 56), U16At(buf, 77)))
  }

  /** The layout of the hosted sparse extent header; `gap` stands for the fields nobody reads. */
  function EncodeHeader(h: SparseHeader, gap: seq<Byte>): seq<Byte> {
    HeaderStart(h) + HeaderMiddle(h) + HeaderEnd(h, gap)
  }

  function HeaderStart(h: SparseHeader): (s: seq<Byte>)
    ensures |s| == 28
  {
    MAGIC + LeBytes(h.version, 4) + LeBytes(h.flags, 4) + LeBytes(h.capacitySectors, 8) + LeBytes(h.grainSectors, 8)
  }

  function HeaderMiddle(h: SparseHeader): (s: seq<Byte>)
    ensures |s| == 20
  {
    LeBytes(h.descriptorOffset, 8) + LeBytes(h.descriptorSectors, 8) + LeBytes(h.gtesPerGt, 4)
  }

  function HeaderEnd(h: SparseHeader, gap: seq<Byte>): (s: seq<Byte>)
    ensures |s| == 18 + |gap|
  {
    LeBytes(h.rgdOffset, 8) + LeBytes(h.gdOffset, 8) + gap + LeBytes(h.compression, 2)
  }

  /** A field laid down after `before` is read back from there. */
  lemma FieldAt(s: seq<Byte>, before: seq<Byte>, v: nat, n: nat, after: seq<Byte>)
    requires v < Pow256(n)
    requires s == before + LeBytes(v, n) + after
    ensures LeValue(Padded(s, |before|, n)) == v
  {
    PaddedInside(s, |before|, n);
    assert s[|before|..|before| + n] == LeBytes(v, n);
    LeRoundTrip(v, n);
  }

  /** Reading at a position inside `part` does not see what surrounds it. */
  lemma WithinPart(before: seq<Byte>, part: seq<Byte>, after: seq<Byte>, p: nat, n: nat)
    requires p + n <= |part|
    ensures Padded(before + part + after, |before| + p, n) == Padded(part, p, n)
  {
  }

  lemma StartFields(h: SparseHeader)
    requires h.Fits()
    ensures var s := HeaderStart(h);
            && s[..4] == MAGIC && U32At(s, 4) == h.version && U32At(s, 8) == h.flags
            && U64At(s, 12) == h.capacitySectors && U64At(s, 20) == h.grainSectors
  {
    Widths();
    var s := HeaderStart(h);
    var a, b, c, d := LeBytes(h.version, 4), LeBytes(h.flags, 4), LeBytes(h.capacitySectors, 8), LeBytes(h.grainSectors, 8);
    assert s == MAGIC + a + (b + c + d);
    FieldAt(s, MAGIC, h.version, 4, b + c + d);
    assert s == (MAGIC + a) + b + (c + d);
    FieldAt(s, MAGIC + a, h.flags, 4, c + d);
    FieldAt(s, MAGIC + a + b, h.capacitySectors, 8, d);
    assert s == (MAGIC + a + b + c) + d + [];
    FieldAt(s, MAGIC + a + b + c, h.grainSectors, 8, []);
  }

  lemma MiddleFields(h: SparseHeader)
    requires h.Fits()
    ensures var s := HeaderMiddle(h);
            && U64At(s, 0) == h.descriptorOffset && U64At(s, 8) == h.descriptorSectors && U32At(s, 16) == h.gtesPerGt
  {
    Widths();
    var s := HeaderMiddle(h);
    var a, b, c := LeBytes(h.descriptorOffset, 8), LeBytes(h.descriptorSectors, 8), LeBytes(h.gtesPerGt, 4);
    assert s == [] + a + (b + c);
    FieldAt(s, [], h.descriptorOffset, 8, b + c);
    FieldAt(s, a, h.descriptorSectors, 8, c);
    assert s == (a + b) + c + [];
    FieldAt(s, a + b, h.gtesPerGt, 4, []);
  }

  lemma EndFields(h: SparseHeader, gap: seq<Byte>)
    requires h.Fits() && |gap| == 13
    ensures var s := HeaderEnd(h, gap);
            U64At(s, 0) == h.rgdOffset && U64At(s, 8) == h.gdOffset && U16At(s, 29) == h.compression
  {
    Widths();
    var s := HeaderEnd(h, gap);
    var a, b, c := LeBytes(h.rgdOffset, 8), LeBytes(h.gdOffset, 8), LeBytes(h.compression, 2);
    assert s == [] + a + (b + gap + c);
    FieldAt(s, [], h.rgdOffset, 8, b + gap + c);
    assert s == a + b + (gap + c);
    FieldAt(s, a, h.gdOffset, 8, gap + c);
    assert s == (a + b + gap) + c + [];
    FieldAt(s, a + b + gap, h.compression, 2, []);
  }

  /** Reading the header of a well-formed extent gives back the fields that were written. */
  lemma HeaderRoundTrip(h: SparseHeader, gap: seq<Byte>, rest: seq<Byte>)
    requires h.Fits() && |gap| == 13 && |rest| >= 1
    ensures ReadSparseHeader(EncodeHeader(h, gap) + rest) == Ok(h)
  {
    var x, y, z := HeaderStart(h), HeaderMiddle(h), HeaderEnd(h, gap);
    var s := EncodeHeader(h, gap) + rest;
    assert s == [] + x + (y + z + rest) == x + y + (z + rest) == (x + y) + z + rest;
    StartFields(h);
    MiddleFields(h);
    EndFields(h, gap);
    assert s[..4] == x[..4];
    WithinPart([], x, y + z + rest, 4, 4);
    WithinPart([], x, y + z + rest, 8, 4);
    WithinPart([], x, y + z + rest, 12, 8);
    WithinPart([], x, y + z + rest, 20, 8);
    WithinPart(x, y, z + rest, 0, 8);
    WithinPart(x, y, z + rest, 8, 8);
    WithinPart(x, y, z + rest, 16, 4);
    WithinPart(x + y, z, rest, 0, 8);
    WithinPart(x + y, z, rest, 8, 8);
    WithinPart(x + y, z, rest, 29, 2);
  }

  // ---------------------------------------------------------------- address map

  /** What a sparse extent means: its file, its geometry and its grain directory. */
  datatype SparseImage = SparseImage(
    contents: seq<Byte>,
    grainBytes: nat,
    gtesPerGt: nat,
    capacityBytes: nat,
    directory: seq<nat>)
  {
    predicate Positive() {
      0 < grainBytes && 0 < gtesPerGt
    }

    /** The directory has a slot for every position inside the capacity. */
    ghost predicate Sized() {
      && Positive()
      && gtesPerGt < U32_LIMIT
      && |directory| <= MAX_TABLES
      && forall pos: nat :: pos < capacityBytes ==> TableOf(pos) < |directory|
    }

    /** Position of byte `within` of the grain in slot `gte` of table `gd`. */
    function Compose(gd: nat, gte: nat, within: nat): nat {
      (gd * gtesPerGt + gte) * grainBytes + within
    }

    predicate InGrid(gd: nat, gte: nat, within: nat) {
      gd < |directory| && gte < gtesPerGt && within < grainBytes
    }

    /** A used table lies wholly inside the file. */
    predicate TableInFile(gd: nat) {
      gd < |directory| && directory[gd] > 1 ==>
        directory[gd] * SECTOR + 4 * gtesPerGt <= |contents|
    }

    function Table(gd: nat): seq<nat>
      requires gd < |directory|
    {
      U32sAt(contents, directory[gd] * SECTOR, gtesPerGt)
    }

    /** Sector of a grain; 0 or 1 when the table or the grain is unallocated. */
    function GrainSector(gd: nat, gte: nat): nat
      requires gd < |directory| && gte < gtesPerGt
    {
      if directory[gd] > 1 then Table(gd)[gte] else 0
    }

    function GrainByte(gd: nat, gte: nat, within: nat): Byte
      requires InGrid(gd, gte, within)
    {
      var sector := GrainSector(gd, gte);
      if sector > 1 then ByteAt(contents, sector * SECTOR + within) else 0
    }

    function TableOf(pos: nat): nat {
      if Positive() then Quotient(Quotient(pos, grainBytes), gtesPerGt) else 0
    }

    /** Byte `pos` of the extent. */
    function At(pos: nat): Byte {
      if Positive() && TableOf(pos) < |directory| then
        GrainByte(TableOf(pos), Remainder(Quotient(pos, grainBytes), gtesPerGt), Remainder(pos, grainBytes))
      else
        0
    }

    /** Every table that a read of `[from, to)` consults lies inside the file. */
    ghost predicate ReadableRange(from: nat, to: int) {
      forall pos :: from <= pos < to ==> TableInFile(TableOf(pos))
    }

    function Contents(): (s: seq<Byte>)
      ensures |s| == capacityBytes
      ensures forall pos :: 0 <= pos < capacityBytes ==> s[pos] == At(pos)
    {
      seq<Byte>(capacityBytes, (pos: int) requires 0 <= pos < capacityBytes => At(pos))
    }
  }

  /** Division finds grid coordinates for every position inside the capacity. */
  lemma Translate(si: SparseImage, pos: nat)
    requires si.Sized() && pos < si.capacityBytes
    ensures var gd, gte, within :=
              si.TableOf(pos), Remainder(Quotient(pos, si.grainBytes), si.gtesPerGt), Remainder(pos, si.grainBytes);
            si.InGrid(gd, gte, within) && pos == si.Compose(gd, gte, within)
  {
  }

  /** No position has two sets of grid coordinates. */
  lemma GridUnique(si: SparseImage, gd: nat, gte: nat, within: nat, gd': nat, gte': nat, within': nat)
    requires si.InGrid(gd, gte, within) && si.InGrid(gd', gte', within')
    requires si.Compose(gd, gte, within) == si.Compose(gd', gte', within')
    ensures gd == gd' && gte == gte' && within == within'
  {
    SplitUnique(gd * si.gtesPerGt + gte, within, gd' * si.gtesPerGt + gte', within', si.grainBytes);
    SplitUnique(gd, gte, gd', gte', si.gtesPerGt);
  }

  /** The extent holds, at the position of each grid cell, the byte of that cell's grain. */
  lemma GridByte(si: SparseImage, gd: nat, gte: nat, within: nat)
    requires si.Sized() && si.InGrid(gd, gte, within)
    requires si.Compose(gd, gte, within) < si.capacityBytes
    ensures si.At(si.Compose(gd, gte, within)) == si.GrainByte(gd, gte, within)
    ensures si.TableOf(si.Compose(gd, gte, within)) == gd
  {
    var pos := si.Compose(gd, gte, within);
    Translate(si, pos);
    GridUnique(si, gd, gte, within,
               si.TableOf(pos), Remainder(Quotient(pos, si.grainBytes), si.gtesPerGt), Remainder(pos, si.grainBytes));
  }

  // ---------------------------------------------------------------- reader

  class SparseExtent {
    const file: File
    const grainBytes: nat
    const gtesPerGt: nat
    const capacityBytes: nat
    const directory: seq<nat>
    var tables: map<nat, seq<nat>>

    constructor (file: File, grainBytes: nat, gtesPerGt: nat, capacityBytes: nat, directory: seq<nat>)
      requires SparseImage(file.contents, grainBytes, gtesPerGt, capacityBytes, directory).Sized()
      ensures Valid() && this.file == file
      ensures Image() == SparseImage(file.contents, grainBytes, gtesPerGt, capacityBytes, directory)
    {
      this.file := file;
      this.grainBytes := grainBytes;
      this.gtesPerGt := gtesPerGt;
      this.capacityBytes := capacityBytes;
      this.directory := directory;
      tables := map[];
    }

    ghost function Image(): SparseImage {
      SparseImage(file.contents, grainBytes, gtesPerGt, capacityBytes, directory)
    }

    /** Every loaded table mirrors the file. */
    ghost predicate Valid()
      reads this
    {
      && Image().Sized()
      && forall gd :: gd in tables ==>
           && gd < |directory|
           && directory[gd] > 1
           && Image().TableInFile(gd)
           && tables[gd] == Image().Table(gd)
    }

    /** The grain table of a directory slot, loaded on first use; None when it is unallocated. */
    method Table(gd: nat) returns (r: Result<Option<seq<nat>>, IoError>)
      requires Valid() && gd < |directory|
      modifies this, file
      ensures Valid()
      ensures r.Ok? ==> r.value == if directory[gd] > 1 then Some(Image().Table(gd)) else None
      ensures r.Ok? ==> Image().TableInFile(gd)
      ensures old(Quiet(file.schedule)) ==> Quiet(file.schedule) && (r.Ok? <==> Image().TableInFile(gd))
    {
      if directory[gd] <= 1 {
        return Ok(None);
      }
      if gd !in tables {
        var raw := new Byte[gtesPerGt * 4](_ => 0);
        var s := file.Seek(directory[gd] * SECTOR);
        if s.Err? {
          return Err(s.error);
        }
        var e := ReadExact(file, raw);
        if e.Err? {
          return Err(e.error);
        }
        U32sOfRaw(file.contents, directory[gd] * SECTOR, gtesPerGt, raw[..]);
        tables := tables[gd := U32s(raw[..])];
      }
      return Ok(Some(tables[gd]));
    }

    /** Fills `buf[lo..lo + n]` from a run of bytes that stays inside one grain. */
    method ReadWithinGrain(pos: nat, buf: array<Byte>, lo: nat, n: nat) returns (r: Result<(), IoError>)
      requires Valid() && lo + n <= buf.Length && n > 0
      requires pos < capacityBytes && Remainder(pos, grainBytes) + n <= grainBytes
      modifies this, file, buf
      ensures Valid()
      ensures r.Ok? ==> forall i :: lo <= i < lo + n ==> buf[i] == Image().At(pos + (i - lo))
      ensures forall i :: 0 <= i < buf.Length && !(lo <= i < lo + n) ==> buf[i] == old(buf[i])
      ensures forall p :: pos <= p < pos + n ==> Image().TableOf(p) == Image().TableOf(pos)
      ensures r.Ok? ==> Image().TableInFile(Image().TableOf(pos))
      ensures old(Quiet(file.schedule)) ==>
                Quiet(file.schedule) && (r.Ok? <==> Image().TableInFile(Image().TableOf(pos)))
    {
      ghost var si := Image();
      Translate(si, pos);
      SameGrain(si, pos, n);
      var grain := Quotient(pos, grainBytes);
      var within := Remainder(pos, grainBytes);
      // The casts to u32 and usize lose nothing: the directory has at most 2^20 slots.
      var gdIndex := Quotient(grain, gtesPerGt) % U32_LIMIT;
      var gteIndex := Remainder(grain, gtesPerGt);
      var t := Table(gdIndex);
      if t.Err? {
        return Err(t.error);
      }
      var sector := match t.value
        case Some(table) => table[gteIndex]
        case None => 0;
      assert sector == si.GrainSector(gdIndex, gteIndex);
      if sector > 1 {
        var s := file.Seek(sector * SECTOR + within);
        if s.Err? {
          return Err(s.error);
        }
        var e := ReadOrZeros(file, buf, lo, lo + n);
        if e.Err? {
          return Err(e.error);
        }
        assert forall i :: lo <= i < lo + n ==> buf[i] == buf[lo..lo + n][i - lo];
      } else {
        forall i | lo <= i < lo + n {
          buf[i] := 0;
        }
      }
      return Ok(());
    }

    /**
     * Fills `buf[lo..hi]` with the bytes of the extent from `offset` on and returns how many
     * of them lie inside its capacity.
     */
    method ReadAt(offset: nat, buf: array<Byte>, lo: nat, hi: nat) returns (r: Result<nat, IoError>)
      requires Valid() && lo <= hi <= buf.Length
      modifies this, file, buf
      ensures Valid()
      ensures r.Ok? ==> r.value == Min(hi - lo, Max(0, capacityBytes - offset))
      ensures r.Ok? ==> forall i :: lo <= i < lo + r.value ==> buf[i] == Image().At(offset + (i - lo))
      ensures forall i :: 0 <= i < buf.Length && !(lo <= i < lo + Min(hi - lo, Max(0, capacityBytes - offset))) ==> buf[i] == old(buf[i])
      ensures old(Quiet(file.schedule)) ==>
                && Quiet(file.schedule)
                && (r.Ok? <==> Image().ReadableRange(offset, Min(offset + hi - lo, capacityBytes)))
    {
      if offset >= capacityBytes {
        return Ok(0);
      }
      var total := Min(hi - lo, capacityBytes - offset);
      var done := 0;
      ghost var si := Image();
      while done < total
        invariant Valid() && 0 <= done <= total
        invariant forall i :: lo <= i < lo + done ==> buf[i] == si.At(offset + (i - lo))
        invariant forall i :: 0 <= i < buf.Length && !(lo <= i < lo + total) ==> buf[i] == old(buf[i])
        invariant old(Quiet(file.schedule)) ==> Quiet(file.schedule)
        invariant si.ReadableRange(offset, offset + done)
      {
        var pos := offset + done;
        var n := Min(grainBytes - Remainder(pos, grainBytes), total - done);
        var e := ReadWithinGrain(pos, buf, lo + done, n);
        if e.Err? {
          return Err(e.error);
        }
        done := done + n;
      }
      return Ok(total);
    }
  }

  /** A run of bytes inside one grain shares that grain's directory and table slots. */
  lemma SameGrain(si: SparseImage, pos: nat, n: nat)
    requires si.Sized() && pos < si.capacityBytes && Remainder(pos, si.grainBytes) + n <= si.grainBytes
    ensures forall p :: pos <= p < pos + n ==>
              && Quotient(p, si.grainBytes) == Quotient(pos, si.grainBytes)
              && Remainder(p, si.grainBytes) == Remainder(pos, si.grainBytes) + (p - pos)
  {
    forall p | pos <= p < pos + n
      ensures Quotient(p, si.grainBytes) == Quotient(pos, si.grainBytes)
      ensures Remainder(p, si.grainBytes) == Remainder(pos, si.grainBytes) + (p - pos)
    {
      SameBlock(pos, p - pos, si.grainBytes);
    }
  }

  function U32s(raw: seq<Byte>): (v: seq<nat>)
    ensures |v| == |raw| / 4
  {
    seq<nat>(|raw| / 4, (i: int) requires 0 <= i < |raw| / 4 => LeValue(raw[4 * i..4 * i + 4]))
  }

  lemma U32sOfRaw(contents: seq<Byte>, p: nat, n: nat, raw: seq<Byte>)
    requires raw == Padded(contents, p, 4 * n)
    ensures U32s(raw) == U32sAt(contents, p, n)
  {
    forall i | 0 <= i < n ensures U32s(raw)[i] == U32At(contents, p + 4 * i) {
      assert raw[4 * i..4 * i + 4] == Padded(contents, p + 4 * i, 4);
    }
  }

  /** Reads `count` directory entries from `sector` on. */
  method LoadDirectory(file: File, sector: nat, count: nat) returns (r: Result<seq<nat>, IoError>)
    modifies file
    ensures r.Ok? ==> r.value == U32sAt(file.contents, sector * SECTOR, count)
    ensures r.Ok? ==> count == 0 || sector * SECTOR + 4 * count <= |file.contents|
    ensures old(Quiet(file.schedule)) ==>
              && Quiet(file.schedule)
              && (r.Ok? <==> count == 0 || sector * SECTOR + 4 * count <= |file.contents|)
  {
    var raw := new Byte[count * 4](_ => 0);
    var s := file.Seek(sector * SECTOR);
    if s.Err? {
      return Err(s.error);
    }
    var e := ReadExact(file, raw);
    if e.Err? {
      return Err(e.error);
    }
    U32sOfRaw(file.contents, sector * SECTOR, count, raw[..]);
    return Ok(U32s(raw[..]));
  }

  /** `TableCount` slots are enough for the capacity. */
  lemma DirectoryCovers(capacity: nat, grainBytes: nat, gtesPerGt: nat, pos: nat)
    requires grainBytes > 0 && gtesPerGt > 0 && gtesPerGt * grainBytes > 0 && pos < capacity
    ensures Quotient(Quotient(pos, grainBytes), gtesPerGt) < DivCeil(capacity, gtesPerGt * grainBytes)
  {
    var grain := Quotient(pos, grainBytes);
    var t := Quotient(grain, gtesPerGt);
    QuotientFloor(pos, grainBytes);
    QuotientFloor(grain, gtesPerGt);
    MulMonotone(t * gtesPerGt, grain, grainBytes);
    MulAssociative(t, gtesPerGt, grainBytes);
    var b := gtesPerGt * grainBytes;
    DivCeilCovers(capacity, b);
    if t >= DivCeil(capacity, b) {
      MulMonotone(DivCeil(capacity, b), t, b);
    }
  }

  lemma QuotientFloor(a: nat, b: nat)
    requires b > 0
    ensures Quotient(a, b) * b <= a
  {
  }

  lemma MulAssociative(a: nat, b: nat, c: nat)
    ensures a * b * c == a * (b * c)
  {
  }

  /** A supported header with a bounded directory describes a well-formed extent. */
  lemma ImageSized(header: SparseHeader, contents: seq<Byte>)
    requires header.Fits() && header.UnsupportedReason().None? && header.TableCount() <= MAX_TABLES
    ensures header.ImageOf(contents).Sized()
    ensures header.TableCount() > 0
  {
    var si := header.ImageOf(contents);
    forall pos: nat | pos < si.capacityBytes ensures si.TableOf(pos) < |si.directory| {
      DirectoryCovers(si.capacityBytes, si.grainBytes, si.gtesPerGt, pos);
    }
    assert si.TableOf(0) < |si.directory|;
  }

  type Planned<T> = Result<OpenResult<T>, IoError>

  /** What opening an extent with this header must come to when no file operation fails. */
  function HeaderPlan(header: SparseHeader, contents: seq<Byte>): Planned<SparseImage> {
    if header.UnsupportedReason().Some? then Ok(NeedsNbd(header.UnsupportedReason().value))
    else if header.TableCount() > MAX_TABLES then Ok(NeedsNbd(DisproportionateDirectory))
    else if header.DirectorySector() * SECTOR + 4 * header.TableCount() > |contents| then Err(UnexpectedEof)
    else Ok(Native(header.ImageOf(contents)))
  }

  /** Opens a sparse extent whose header has been read. */
  method FromHeader(file: File, header: SparseHeader) returns (r: Result<OpenResult<SparseExtent>, IoError>)
    requires header.Fits() && header.ProductsFit()
    modifies file
    ensures r.Ok? ==>
              match r.value
              case Native(extent) =>
                && fresh(extent) && extent.Valid() && extent.file == file
                && HeaderPlan(header, file.contents) == Ok(Native(extent.Image()))
              case NeedsNbd(reason) => HeaderPlan(header, file.contents) == Ok(NeedsNbd(reason))
    ensures HeaderPlan(header, file.contents).Err? ==> r.Err?
    ensures old(Quiet(file.schedule)) ==>
              Quiet(file.schedule) && (r.Err? <==> HeaderPlan(header, file.contents).Err?)
  {
    var reason := header.UnsupportedReason();
    if reason.Some? {
      return Ok(NeedsNbd(reason.value));
    }
    var numGts := header.TableCount();
    if numGts > MAX_TABLES {
      return Ok(NeedsNbd(DisproportionateDirectory));
    }
    ImageSized(header, file.contents);
    var d := LoadDirectory(file, header.DirectorySector(), numGts);
    if d.Err? {
      return Err(d.error);
    }
    var extent := new SparseExtent(file, header.grainSectors * SECTOR, header.gtesPerGt,
                                   header.capacitySectors * SECTOR, d.value);
    return Ok(Native(extent));
  }
}
