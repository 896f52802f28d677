/**
 * Where the format of a sparse VMDK extent puts things, in byte positions of the file, and that the
 * address map of an extent shows the grains laid out there one after the other.
 */
module SparseLayout {
  import opened Bytes
  import opened Files
  import opened SparseExtents

  /** These bytes lie in the file from byte `p` on. */
  predicate Holds(contents: seq<Byte>, p: nat, part: seq<Byte>) {
    p + |part| <= |contents| && contents[p..p + |part|] == part
  }

  /** These are the bytes of the file from byte `p` on, with zeros past its end. */
  predicate ShowsFrom(contents: seq<Byte>, p: nat, part: seq<Byte>) {
    forall i :: 0 <= i < |part| ==> part[i] == if p + i < |contents| then contents[p + i] else 0
  }

  predicate AllZero(part: seq<Byte>) {
    forall i :: 0 <= i < |part| ==> part[i] == 0
  }

  /** Pieces one after the other. */
  function Joined<T>(pieces: seq<seq<T>>): seq<T> {
    if pieces == [] then [] else pieces[0] + Joined(pieces[1..])
  }

  /**
   * The entries of the directory, the entries of the grain table behind each, and the grain behind each
   * of those, in the order in which they lie on the virtual disk.
   */
  datatype Layout = Layout(directory: seq<nat>, tables: seq<seq<nat>>, grains: seq<seq<seq<Byte>>>) {
    predicate Shaped(gtesPerGt: nat, grainBytes: nat) {
      && |tables| == |grains| == |directory|
      && (forall g :: 0 <= g < |directory| ==> |tables[g]| == |grains[g]| == gtesPerGt)
      && (forall g, t :: 0 <= g < |directory| && 0 <= t < gtesPerGt ==> |grains[g][t]| == grainBytes)
    }

    /** Behind each entry of the directory lies its part. */
    predicate PartsLaid(contents: seq<Byte>)
      requires |tables| == |grains| == |directory|
      requires forall g :: 0 <= g < |directory| ==> |tables[g]| == |grains[g]|
    {
      forall g :: 0 <= g < |directory| ==> PartLaid(contents, directory[g], tables[g], grains[g])
    }

    /** What the virtual disk shows. */
    function Disk(h: SparseHeader): seq<Byte>
      requires h.capacitySectors * 512 <= |Joined(Joined(grains))|
    {
      Joined(Joined(grains))[..h.capacitySectors * 512]
    }
  }

  /** It takes this many directory entries to cover the capacity, and no fewer. */
  predicate Counts(h: SparseHeader, n: nat) {
    var span := h.gtesPerGt * h.grainSectors;
    h.capacitySectors <= n * span && (n > 0 ==> (n - 1) * span < h.capacitySectors)
  }

  /** The redundant directory is in use when bit 1 is set and its offset is neither zero nor all ones. */
  predicate Redundant(h: SparseHeader) {
    h.flags / 2 % 2 == 1 && h.rgdOffset != 0 && h.rgdOffset != 0xFFFF_FFFF_FFFF_FFFF
  }

  /** Entry `g` of the directory, four bytes each from the directory's first sector on. */
  predicate DirectoryLaid(h: SparseHeader, contents: seq<Byte>, directory: seq<nat>) {
    forall g :: 0 <= g < |directory| ==>
      && directory[g] < 0x1_0000_0000
      && Holds(contents, (if Redundant(h) then h.rgdOffset else h.gdOffset) * 512 + 4 * g, LeBytes(directory[g], 4))
  }

  /** Entry `t` of a grain table, four bytes each from the sector that the directory gives. */
  predicate TableLaid(contents: seq<Byte>, sector: nat, table: seq<nat>) {
    forall t :: 0 <= t < |table| ==>
      table[t] < 0x1_0000_0000 && Holds(contents, sector * 512 + 4 * t, LeBytes(table[t], 4))
  }

  /** A grain lies at the sector that its table gives; sectors 0 and 1 stand for zeros. */
  predicate GrainLaid(contents: seq<Byte>, sector: nat, grain: seq<Byte>) {
    if sector > 1 then ShowsFrom(contents, sector * 512, grain) else AllZero(grain)
  }

  /** Everything behind one entry of the directory; entries 0 and 1 stand for zeros. */
  predicate PartLaid(contents: seq<Byte>, sector: nat, table: seq<nat>, grains: seq<seq<Byte>>)
    requires |table| == |grains|
  {
    if sector > 1 then
      && TableLaid(contents, sector, table)
      && forall t :: 0 <= t < |table| ==> GrainLaid(contents, table[t], grains[t])
    else
      forall t :: 0 <= t < |grains| ==> AllZero(grains[t])
  }

  /** The file of an extent with this header is laid out like this. */
  predicate LaidOut(h: SparseHeader, contents: seq<Byte>, layout: Layout) {
    && layout.Shaped(h.gtesPerGt, h.grainSectors * 512) && Counts(h, |layout.directory|)
    && DirectoryLaid(h, contents, layout.directory) && layout.PartsLaid(contents)
  }

  // ---------------------------------------------------------------- pieces of equal length

  predicate AllLong<T>(pieces: seq<seq<T>>, n: nat) {
    forall i :: 0 <= i < |pieces| ==> |pieces[i]| == n
  }

  lemma {:induction false} JoinedLength<T>(pieces: seq<seq<T>>, n: nat)
    requires AllLong(pieces, n)
    ensures |Joined(pieces)| == |pieces| * n
  {
    if pieces != [] {
      JoinedLength(pieces[1..], n);
      OneMore(|pieces| - 1, n);
    }
  }

  lemma OneMore(k: nat, n: nat)
    ensures (k + 1) * n == n + k * n
  {
  }

  lemma {:induction false} JoinedAt<T>(pieces: seq<seq<T>>, n: nat, k: nat, i: nat)
    requires AllLong(pieces, n) && k < |pieces| && i < n
    ensures k * n + i < |Joined(pieces)| && Joined(pieces)[k * n + i] == pieces[k][i]
  {
    JoinedLength(pieces[1..], n);
    if k > 0 {
      OneMore(k - 1, n);
      JoinedAt(pieces[1..], n, k - 1, i);
    }
  }

  lemma {:induction false} JoinedLong<T>(parts: seq<seq<seq<T>>>, n: nat)
    requires forall g :: 0 <= g < |parts| ==> AllLong(parts[g], n)
    ensures AllLong(Joined(parts), n)
  {
    if parts != [] {
      JoinedLong(parts[1..], n);
    }
  }

  // ---------------------------------------------------------------- the address map shows the layout

  lemma Number32(contents: seq<Byte>, p: nat, v: nat)
    requires v < 0x1_0000_0000 && Holds(contents, p, LeBytes(v, 4))
    ensures U32At(contents, p) == v
  {
    Widths();
    PaddedInside(contents, p, 4);
    LeRoundTrip(v, 4);
  }

  /** What flag bits there are, in numbers. */
  lemma BitValues(flags: nat)
    ensures Bit(flags, 1) <==> flags / 2 % 2 == 1
    ensures Bit(flags, 16) <==> flags / 0x1_0000 % 2 == 1
    ensures Bit(flags, 17) <==> flags / 0x2_0000 % 2 == 1
  {
    assert Pow2(1) == 2 * Pow2(0);
    assert Pow2(4) == 8 * Pow2(1);
    assert Pow2(8) == 16 * Pow2(4);
    assert Pow2(12) == 16 * Pow2(8);
    assert Pow2(16) == 16 * Pow2(12);
    assert Pow2(17) == 2 * Pow2(16);
  }

  lemma DirectorySectorIs(h: SparseHeader)
    ensures h.DirectorySector() == if Redundant(h) then h.rgdOffset else h.gdOffset
  {
    BitValues(h.flags);
  }

  lemma MulInto(k: nat, a: nat, b: nat)
    ensures k * (a * (b * 512)) == (k * (a * b)) * 512
  {
  }

  /** A directory that covers the capacity has as many entries as the program reads. */
  lemma CountCovers(h: SparseHeader, n: nat)
    requires h.UnsupportedReason() == None && Counts(h, n)
    ensures h.TableCount() == n > 0
  {
    var span := h.gtesPerGt * h.grainSectors;
    var all, each := h.capacitySectors * 512, h.gtesPerGt * (h.grainSectors * 512);
    MultipleAtLeast(h.gtesPerGt, h.grainSectors * 512);
    DivCeilCovers(all, each);
    MulInto(n, h.gtesPerGt, h.grainSectors);
    assert n > 0;
    MulInto(n - 1, h.gtesPerGt, h.grainSectors);
    var q := DivCeil(all, each);
    if q < n {
      MulMonotone(q, n - 1, each);
    }
  }

  lemma DirectoryIs(h: SparseHeader, contents: seq<Byte>, layout: Layout)
    requires h.UnsupportedReason() == None && Counts(h, |layout.directory|) && DirectoryLaid(h, contents, layout.directory)
    ensures h.ImageOf(contents).directory == layout.directory
  {
    CountCovers(h, |layout.directory|);
    DirectorySectorIs(h);
    var start := h.DirectorySector() * 512;
    forall g | 0 <= g < |layout.directory| ensures U32At(contents, start + 4 * g) == layout.directory[g] {
      Number32(contents, start + 4 * g, layout.directory[g]);
    }
  }

  /** A cell of the grid holds the byte of the grain laid out for it. */
  lemma CellShows(si: SparseImage, g: nat, t: nat, w: nat, table: seq<nat>, grains: seq<seq<Byte>>)
    requires si.InGrid(g, t, w) && |table| == |grains| == si.gtesPerGt && |grains[t]| == si.grainBytes
    requires PartLaid(si.contents, si.directory[g], table, grains)
    ensures si.GrainByte(g, t, w) == grains[t][w]
  {
    if si.directory[g] > 1 {
      Number32(si.contents, si.directory[g] * 512 + 4 * t, table[t]);
      assert si.Table(g)[t] == table[t];
      assert GrainLaid(si.contents, table[t], grains[t]);
    } else {
      assert AllZero(grains[t]);
    }
  }

  lemma PositionInLayout(layout: Layout, gtesPerGt: nat, grainBytes: nat, g: nat, t: nat, w: nat)
    requires layout.Shaped(gtesPerGt, grainBytes) && g < |layout.directory| && t < gtesPerGt && w < grainBytes
    ensures var p := (g * gtesPerGt + t) * grainBytes + w;
            p < |Joined(Joined(layout.grains))| && Joined(Joined(layout.grains))[p] == layout.grains[g][t][w]
  {
    JoinedLong(layout.grains, grainBytes);
    JoinedAt(layout.grains, gtesPerGt, g, t);
    JoinedAt(Joined(layout.grains), grainBytes, g * gtesPerGt + t, w);
  }

  lemma LayoutLength(h: SparseHeader, layout: Layout)
    requires layout.Shaped(h.gtesPerGt, h.grainSectors * 512) && Counts(h, |layout.directory|)
    ensures h.capacitySectors * 512 <= |Joined(Joined(layout.grains))|
  {
    JoinedLong(layout.grains, h.grainSectors * 512);
    JoinedLength(layout.grains, h.gtesPerGt);
    JoinedLength(Joined(layout.grains), h.grainSectors * 512);
    SwapMul(|layout.directory|, h.gtesPerGt, h.grainSectors);
  }

  lemma SwapMul(n: nat, a: nat, b: nat)
    ensures (n * a) * (b * 512) == (n * (a * b)) * 512
  {
  }

  /** What an extent shows is its grains, one after the other, wherever in the file they lie. */
  lemma ImageShowsLayout(h: SparseHeader, contents: seq<Byte>, layout: Layout)
    requires h.Fits() && h.UnsupportedReason() == None && LaidOut(h, contents, layout)
    requires |layout.directory| <= 0x10_0000
    ensures h.capacitySectors * 512 <= |Joined(Joined(layout.grains))|
    ensures h.ImageOf(contents).Contents() == layout.Disk(h)
  {
    LayoutLength(h, layout);
    CountCovers(h, |layout.directory|);
    DirectoryIs(h, contents, layout);
    ImageSized(h, contents);
    var si := h.ImageOf(contents);
    forall p: nat | p < si.capacityBytes ensures si.At(p) == layout.Disk(h)[p] {
      var g, t, w := FindCell(si, p);
      CellLaid(si, layout, g, t, w, p);
    }
  }

  /** The cell of the grid that a position lies in. */
  lemma FindCell(si: SparseImage, p: nat) returns (g: nat, t: nat, w: nat)
    requires si.Sized() && p < si.capacityBytes
    ensures si.InGrid(g, t, w) && p == (g * si.gtesPerGt + t) * si.grainBytes + w
    ensures si.At(p) == si.GrainByte(g, t, w)
  {
    Translate(si, p);
    g, t, w := si.TableOf(p), Remainder(Quotient(p, si.grainBytes), si.gtesPerGt), Remainder(p, si.grainBytes);
    GridByte(si, g, t, w);
  }

  lemma CellLaid(si: SparseImage, layout: Layout, g: nat, t: nat, w: nat, p: nat)
    requires layout.Shaped(si.gtesPerGt, si.grainBytes) && si.directory == layout.directory && layout.PartsLaid(si.contents)
    requires si.InGrid(g, t, w) && p == (g * si.gtesPerGt + t) * si.grainBytes + w
    ensures p < |Joined(Joined(layout.grains))| && si.GrainByte(g, t, w) == Joined(Joined(layout.grains))[p]
  {
    CellShows(si, g, t, w, layout.tables[g], layout.grains[g]);
    PositionInLayout(layout, si.gtesPerGt, si.grainBytes, g, t, w);
  }

  /** Every table that is laid out lies inside the file. */
  lemma TablesLaid(h: SparseHeader, contents: seq<Byte>, layout: Layout, g: nat)
    requires h.UnsupportedReason() == None && LaidOut(h, contents, layout)
    ensures h.ImageOf(contents).TableInFile(g)
  {
    DirectoryIs(h, contents, layout);
    if g < |layout.directory| && layout.directory[g] > 1 {
      var table := layout.tables[g];
      assert PartLaid(contents, layout.directory[g], table, layout.grains[g]);
      assert Holds(contents, layout.directory[g] * 512 + 4 * (|table| - 1), LeBytes(table[|table| - 1], 4));
    }
  }

  // ---------------------------------------------------------------- every extent has a layout

  lemma {:induction false} ValueEncoded(s: seq<Byte>)
    ensures LeBytes(LeValue(s), |s|) == s
  {
    if s != [] {
      var rest := LeValue(s[1..]);
      ValueEncoded(s[1..]);
      DivModUnique(rest, s[0], 256);
      assert LeValue(s) == rest * 256 + s[0];
      assert LeBytes(LeValue(s), |s|) == [s[0]] + LeBytes(rest, |s| - 1);
    }
  }

  lemma Number32Laid(contents: seq<Byte>, p: nat)
    requires p + 4 <= |contents|
    ensures U32At(contents, p) < 0x1_0000_0000 && Holds(contents, p, LeBytes(U32At(contents, p), 4))
  {
    Widths();
    PaddedInside(contents, p, 4);
    ValueEncoded(contents[p..p + 4]);
  }

  function GrainAt(si: SparseImage, g: nat, t: nat): (grain: seq<Byte>)
    requires g < |si.directory| && t < si.gtesPerGt
    ensures |grain| == si.grainBytes
  {
    seq(si.grainBytes, (w: int) requires 0 <= w < si.grainBytes => si.GrainByte(g, t, w))
  }

  function GrainsAt(si: SparseImage, g: nat): (grains: seq<seq<Byte>>)
    requires g < |si.directory|
    ensures |grains| == si.gtesPerGt && forall t :: 0 <= t < si.gtesPerGt ==> grains[t] == GrainAt(si, g, t)
  {
    seq(si.gtesPerGt, (t: int) requires 0 <= t < si.gtesPerGt => GrainAt(si, g, t))
  }

  /** The layout an image is read as. */
  function LayoutOf(si: SparseImage): Layout {
    Layout(si.directory,
           seq(|si.directory|, (g: int) requires 0 <= g < |si.directory| => si.Table(g)),
           seq(|si.directory|, (g: int) requires 0 <= g < |si.directory| => GrainsAt(si, g)))
  }

  lemma TableRead(si: SparseImage, g: nat)
    requires g < |si.directory| && si.directory[g] > 1 && si.TableInFile(g)
    ensures TableLaid(si.contents, si.directory[g], si.Table(g))
  {
    forall t | 0 <= t < si.gtesPerGt
      ensures si.Table(g)[t] < 0x1_0000_0000
      ensures Holds(si.contents, si.directory[g] * 512 + 4 * t, LeBytes(si.Table(g)[t], 4))
    {
      Number32Laid(si.contents, si.directory[g] * 512 + 4 * t);
    }
  }

  lemma PartRead(si: SparseImage, g: nat)
    requires g < |si.directory| && si.TableInFile(g)
    ensures PartLaid(si.contents, si.directory[g], si.Table(g), GrainsAt(si, g))
  {
    if si.directory[g] > 1 {
      TableRead(si, g);
    }
  }

  /** As many entries as the program reads cover the capacity, and no fewer do. */
  lemma CountIsLeast(h: SparseHeader)
    requires h.UnsupportedReason() == None
    ensures Counts(h, h.TableCount())
  {
    MultipleAtLeast(h.gtesPerGt, h.grainSectors * 512);
    DivCeilCovers(h.capacitySectors * 512, h.gtesPerGt * (h.grainSectors * 512));
    MulInto(h.TableCount(), h.gtesPerGt, h.grainSectors);
    if h.TableCount() > 0 {
      MulInto(h.TableCount() - 1, h.gtesPerGt, h.grainSectors);
    }
  }

  lemma DirectoryRead(h: SparseHeader, contents: seq<Byte>)
    requires h.UnsupportedReason() == None && h.DirectorySector() * 512 + 4 * h.TableCount() <= |contents|
    ensures DirectoryLaid(h, contents, h.ImageOf(contents).directory)
  {
    DirectorySectorIs(h);
    forall g | 0 <= g < h.TableCount()
      ensures U32At(contents, h.DirectorySector() * 512 + 4 * g) < 0x1_0000_0000
      ensures Holds(contents, h.DirectorySector() * 512 + 4 * g, LeBytes(U32At(contents, h.DirectorySector() * 512 + 4 * g), 4))
    {
      Number32Laid(contents, h.DirectorySector() * 512 + 4 * g);
    }
  }

  /** Every file whose directory and tables lie inside it is laid out in some way, and shows that. */
  lemma EveryImageIsLaidOut(h: SparseHeader, contents: seq<Byte>)
    requires h.UnsupportedReason() == None && h.DirectorySector() * 512 + 4 * h.TableCount() <= |contents|
    requires forall g :: 0 <= g < h.TableCount() ==> h.ImageOf(contents).TableInFile(g)
    ensures LaidOut(h, contents, LayoutOf(h.ImageOf(contents)))
  {
    var si := h.ImageOf(contents);
    CountIsLeast(h);
    DirectoryRead(h, contents);
    forall g | 0 <= g < |si.directory|
      ensures PartLaid(contents, si.directory[g], LayoutOf(si).tables[g], LayoutOf(si).grains[g])
    {
      PartRead(si, g);
    }
  }

  // ---------------------------------------------------------------- which extents are opened

  predicate Compressed(h: SparseHeader) {
    h.compression != 0 || h.flags / 0x1_0000 % 2 == 1 || h.flags / 0x2_0000 % 2 == 1
  }

  predicate WithoutDirectory(h: SparseHeader) {
    h.gdOffset == 0 || h.gdOffset == 0xFFFF_FFFF_FFFF_FFFF
  }

  ghost predicate GrainSizeFits(h: SparseHeader) {
    exists k: nat :: h.grainSectors == Pow2(k)
  }

  /** The directory would have more than a million or so entries. */
  predicate TooLarge(h: SparseHeader) {
    h.capacitySectors > 0x10_0000 * (h.gtesPerGt * h.grainSectors)
  }

  /** The file does not end before the directory does. */
  ghost predicate DirectoryInFile(h: SparseHeader, contents: seq<Byte>) {
    exists n: nat :: Counts(h, n) && (if Redundant(h) then h.rgdOffset else h.gdOffset) * 512 + 4 * n <= |contents|
  }

  lemma GrainSizeFitsExactly(h: SparseHeader)
    ensures GrainSizeFits(h) <==> h.grainSectors != 0 && IsPowerOfTwo(h.grainSectors)
  {
    IsPowerOfTwoCorrect(h.grainSectors);
    if GrainSizeFits(h) {
      var k: nat :| h.grainSectors == Pow2(k);
      Pow2IsPowerOfTwo(k);
    }
  }

  lemma CompressedExactly(h: SparseHeader)
    ensures Compressed(h) <==>
              h.compression != 0 || Bit(h.flags, FLAG_COMPRESSED_BIT) || Bit(h.flags, FLAG_MARKERS_BIT)
  {
    BitValues(h.flags);
    assert Bit(h.flags, FLAG_COMPRESSED_BIT) == Bit(h.flags, 16);
    assert Bit(h.flags, FLAG_MARKERS_BIT) == Bit(h.flags, 17);
  }

  lemma ReasonIs(h: SparseHeader)
    ensures h.UnsupportedReason() ==
            if Compressed(h) then Some(CompressedGrains)
            else if WithoutDirectory(h) then Some(NoGrainDirectory)
            else if !GrainSizeFits(h) then Some(UnsupportedGrainSize)
            else if h.gtesPerGt == 0 || h.capacitySectors == 0 then Some(InconsistentHeader)
            else None
  {
    CompressedExactly(h);
    GrainSizeFitsExactly(h);
  }

  lemma TooLargeExactly(h: SparseHeader)
    requires h.UnsupportedReason() == None
    ensures h.TableCount() > MAX_TABLES <==> TooLarge(h)
  {
    MultipleAtLeast(h.gtesPerGt, h.grainSectors * 512);
    var span := h.gtesPerGt * h.grainSectors;
    CountIsLeast(h);
    if h.TableCount() > 0x10_0000 {
      MulMonotone(0x10_0000, h.TableCount() - 1, span);
    } else {
      MulMonotone(h.TableCount(), 0x10_0000, span);
    }
  }

  /** For every header and file: whether the extent is opened, left to the external reader and why, or fails. */
  lemma HeaderDecides(h: SparseHeader, contents: seq<Byte>)
    ensures match HeaderPlan(h, contents)
            case Ok(NeedsNbd(reason)) =>
              if Compressed(h) then reason == CompressedGrains
              else if WithoutDirectory(h) then reason == NoGrainDirectory
              else if !GrainSizeFits(h) then reason == UnsupportedGrainSize
              else if h.gtesPerGt == 0 || h.capacitySectors == 0 then reason == InconsistentHeader
              else TooLarge(h) && reason == DisproportionateDirectory
            case Ok(Native(image)) => Opens(h) && DirectoryInFile(h, contents) && image == h.ImageOf(contents)
            case Err(error) => Opens(h) && !DirectoryInFile(h, contents) && error == UnexpectedEof
  {
    ReasonIs(h);
    if h.UnsupportedReason() == None {
      TooLargeExactly(h);
      DirectorySectorIs(h);
      CountIsLeast(h);
      if DirectoryInFile(h, contents) {
        var n: nat :| Counts(h, n) && (if Redundant(h) then h.rgdOffset else h.gdOffset) * 512 + 4 * n <= |contents|;
        CountCovers(h, n);
      }
    }
  }

  /** Nothing in the header keeps the extent from being opened. */
  ghost predicate Opens(h: SparseHeader)
    ensures Opens(h) ==> h.UnsupportedReason() == None
  {
    ReasonIs(h);
    && !Compressed(h) && !WithoutDirectory(h) && GrainSizeFits(h)
    && h.gtesPerGt > 0 && h.capacitySectors > 0 && !TooLarge(h)
  }
}
