/**
 * What the files of a VMDK mean, told from what is written in them: which disks stand alone, what each
 * extent of a descriptor shows, and what the whole shows or why it is not opened.
 */
module VmdkMeaning {
  import opened Bytes
  import opened Files
  import opened SparseExtents
  import opened SparseLayout
  import opened Texts
  import opened Descriptors
  import opened DescriptorParsing
  import opened DescriptorTexts
  import opened Extents
  import opened DiskReaders
  import opened DiskOpening
  import opened VmdkOpening
  import ParentChain

  // ---------------------------------------------------------------- parents

  /** There is a hint at a parent, and something visible in it. */
  predicate Hinted(d: Descriptor) {
    d.parentFileNameHint.Some? && exists i :: 0 <= i < |d.parentFileNameHint.value| && !IsWhitespace(d.parentFileNameHint.value[i])
  }

  /** No parent CID but the one that stands for none, and no hint at a parent but white space. */
  predicate StandsAlone(d: Descriptor) {
    (d.parentCid == None || d.parentCid == Some(0xFFFF_FFFF)) && !Hinted(d)
  }

  lemma StandsAloneExactly(d: Descriptor)
    ensures StandsAlone(d) <==> !d.HasParent()
  {
  }

  lemma AnotherF(s: string, k: nat, v: nat)
    requires k < |s| && s[k] == 'f' && DigitsValue(s[..k], 16) == Some(v)
    ensures DigitsValue(s[..k + 1], 16) == Some(v * 16 + 15)
  {
    assert s[..k + 1][..k] == s[..k];
  }

  /** The CID that stands for no parent, as it is written. */
  lemma NoParentCid(s: string)
    requires |s| == 8 && forall i :: 0 <= i < 8 ==> s[i] == 'f'
    ensures ParseNumber(s, 16, 0x1_0000_0000) == Some(0xFFFF_FFFF)
  {
    AnotherF(s, 0, 0);
    AnotherF(s, 1, 0xF);
    AnotherF(s, 2, 0xFF);
    AnotherF(s, 3, 0xFFF);
    AnotherF(s, 4, 0xFFFF);
    AnotherF(s, 5, 0xF_FFFF);
    AnotherF(s, 6, 0xFF_FFFF);
    AnotherF(s, 7, 0xFFF_FFFF);
    assert s[..8] == s;
  }

  /**
   * A text whose descriptor has a parent CID other than ffffffff, or a hint at a parent that is not blank,
   * is left to the external reader; of any other the extents alone decide. So it is with a descriptor
   * embedded in a sparse image, which may declare one extent at most.
   */
  lemma ParentDecides(d: Descriptor, text: string, store: Store)
    requires Say(Lines(text), d)
    ensures PlanDescriptor(ParentChain.Parse(text), store) ==
            if !StandsAlone(d) then Ok(NeedsNbd(DeltaWithParent))
            else if d.extents == [] then Ok(NeedsNbd(NoExtents))
            else Plan(d.extents, store, |d.extents|)
    ensures Objection(Some(ParentChain.Parse(text))) ==
            if !StandsAlone(d) then Some(DeltaWithParent)
            else if |d.extents| > 1 then Some(SeveralDeclaredExtents)
            else None
  {
    DescriptorRoundTrip(d, text);
    StandsAloneExactly(d);
  }

  // ---------------------------------------------------------------- what an extent shows

  /** A file that begins with this header, and is laid out like this. */
  ghost predicate SparseFile(contents: seq<Byte>, h: SparseHeader, layout: Layout) {
    h.Fits() && BeginsWith(contents, h) && Opens(h) && LaidOut(h, contents, layout)
  }

  ghost predicate BeginsWith(contents: seq<Byte>, h: SparseHeader) {
    exists gap: seq<Byte>, rest: seq<Byte> :: |gap| == 13 && |rest| >= 1 && contents == EncodeHeader(h, gap) + rest
  }

  /** The first bytes of `disk`, and zeros behind its end. */
  predicate Extended(disk: seq<Byte>, part: seq<Byte>) {
    ShowsFrom(disk, 0, part)
  }

  /** What the line of an extent says the disk shows there. */
  ghost predicate Shows(e: ExtentDescriptor, files: map<string, seq<Byte>>, part: seq<Byte>) {
    && |part| == e.sectors * 512
    && if e.kind == "ZERO" then AllZero(part)
       else
         && e.file.Some? && e.file.value in files
         && var contents := files[e.file.value];
            || (e.kind in {"FLAT", "VMFS", "VMFSRAW"} && ShowsFrom(contents, e.offsetSectors * 512, part))
            || (e.kind in {"SPARSE", "VMFSSPARSE"} && SparsePart(contents, part))
  }

  ghost predicate SparsePart(contents: seq<Byte>, part: seq<Byte>) {
    exists h, layout ::
      && SparseFile(contents, h, layout) && h.capacitySectors * 512 <= |Joined(Joined(layout.grains))|
      && Extended(layout.Disk(h), part)
  }

  lemma LaidOutCount(h: SparseHeader, contents: seq<Byte>, layout: Layout)
    requires h.Fits() && Opens(h) && LaidOut(h, contents, layout)
    ensures 0 < |layout.directory| <= 0x10_0000 && DirectoryInFile(h, contents) && |contents| > 512
  {
    var n, start := |layout.directory|, (if Redundant(h) then h.rgdOffset else h.gdOffset) * 512;
    CountCovers(h, n);
    TooLargeExactly(h);
    assert Holds(contents, start + 4 * (n - 1), LeBytes(layout.directory[n - 1], 4));
    assert start + 4 * n <= |contents|;
  }

  /** Reading a sparse file gives the image whose contents are its grains. */
  lemma SparseFileShows(contents: seq<Byte>, h: SparseHeader, layout: Layout)
    requires SparseFile(contents, h, layout)
    ensures |contents| > 512 && ReadSparseHeader(contents[..512]) == Ok(h)
    ensures HeaderPlan(h, contents) == Ok(Native(h.ImageOf(contents)))
    ensures h.capacitySectors * 512 <= |Joined(Joined(layout.grains))|
    ensures h.ImageOf(contents).Contents() == layout.Disk(h) && AllTablesInFile(h.ImageOf(contents))
  {
    LaidOutCount(h, contents, layout);
    HeaderDecides(h, contents);
    ImageShowsLayout(h, contents, layout);
    forall g | 0 <= g < |h.ImageOf(contents).directory| ensures h.ImageOf(contents).TableInFile(g) {
      TablesLaid(h, contents, layout, g);
    }
    HeaderIsRead(contents, h);
  }

  /** Opening what a line names gives a body that shows what the line says. */
  lemma PartShown(e: ExtentDescriptor, store: Store, part: seq<Byte>, start: nat) returns (body: ExtentBody)
    requires Shows(e, store.files, part)
    ensures BodyPlan(e, store) == Ok(Native(body)) && ExtentImage(start, e.sectors * 512, body).Content() == part
    ensures body.SparseBody? ==> AllTablesInFile(body.image)
  {
    if e.kind == "ZERO" {
      body := ZeroBody;
    } else {
      var contents := store.files[e.file.value];
      KindsDiffer(e.kind);
      if e.kind in {"SPARSE", "VMFSSPARSE"} {
        var image := SparsePartShown(contents, part);
        body := SparseBody(image);
      } else {
        body := FlatBody(contents, e.offsetSectors * 512);
        FlatShown(contents, e.offsetSectors * 512, part, start);
      }
    }
  }

  lemma KindsDiffer(kind: string)
    ensures kind in {"SPARSE", "VMFSSPARSE"} ==> kind !in {"FLAT", "VMFS", "VMFSRAW"} && kind != "ZERO"
    ensures kind in {"FLAT", "VMFS", "VMFSRAW"} ==> kind != "ZERO"
  {
  }

  lemma FlatShown(contents: seq<Byte>, offset: nat, part: seq<Byte>, start: nat)
    requires ShowsFrom(contents, offset, part)
    ensures ExtentImage(start, |part|, FlatBody(contents, offset)).Content() == part
  {
  }

  lemma SparseShown(image: SparseImage, disk: seq<Byte>, part: seq<Byte>, start: nat)
    requires image.Contents() == disk && Extended(disk, part)
    ensures ExtentImage(start, |part|, SparseBody(image)).Content() == part
  {
    forall i | 0 <= i < |part| ensures SparseBody(image).At(i) == part[i] {
      if i < image.capacityBytes {
        assert image.Contents()[i] == image.At(i);
      }
    }
  }

  /** A sparse file behind an extent: its grains, and zeros where the extent is longer. */
  lemma SparsePartShown(contents: seq<Byte>, part: seq<Byte>) returns (image: SparseImage)
    requires SparsePart(contents, part)
    ensures SparsePlan(contents) == Ok(Native(image)) && AllTablesInFile(image)
    ensures forall start: nat :: ExtentImage(start, |part|, SparseBody(image)).Content() == part
  {
    var h, layout :| SparseFile(contents, h, layout) && h.capacitySectors * 512 <= |Joined(Joined(layout.grains))|
                     && Extended(layout.Disk(h), part);
    SparseFileShows(contents, h, layout);
    image := h.ImageOf(contents);
    forall start: nat ensures ExtentImage(start, |part|, SparseBody(image)).Content() == part {
      SparseShown(image, layout.Disk(h), part, start);
    }
  }

  // ---------------------------------------------------------------- what a descriptor's disk shows

  /** Each extent shows its part. */
  ghost predicate AllShow(es: seq<ExtentDescriptor>, files: map<string, seq<Byte>>, parts: seq<seq<Byte>>) {
    |parts| == |es| && forall i :: 0 <= i < |es| ==> Shows(es[i], files, parts[i])
  }

  lemma {:induction false} JoinedSnoc<T>(pieces: seq<seq<T>>, last: seq<T>)
    ensures Joined(pieces + [last]) == Joined(pieces) + last
  {
    if pieces == [] {
      assert pieces + [last] == [last] && [last][1..] == [];
      assert Joined([last]) == last + Joined<T>([]);
    } else {
      assert (pieces + [last])[1..] == pieces[1..] + [last];
      JoinedSnoc(pieces[1..], last);
      assert pieces[0] + (Joined(pieces[1..]) + last) == (pieces[0] + Joined(pieces[1..])) + last;
    }
  }

  /** One more extent behind those before it. */
  lemma OneMoreShown(es: seq<ExtentDescriptor>, store: Store, n: nat, front: seq<ExtentImage>, body: ExtentBody,
                     shown: seq<Byte>, part: seq<Byte>)
    requires n < |es| && Plan(es, store, n) == Ok(Native(front)) && Concat(front) == shown
    requires BodyPlan(es[n], store) == Ok(Native(body))
    requires ExtentImage(SumSectors(es, n) * 512, es[n].sectors * 512, body).Content() == part
    ensures var images := front + [ExtentImage(SumSectors(es, n) * 512, es[n].sectors * 512, body)];
            Plan(es, store, n + 1) == Ok(Native(images)) && Concat(images) == shown + part
  {
    var image := ExtentImage(SumSectors(es, n) * 512, es[n].sectors * 512, body);
    PlanTiles(es, store, n);
    PlanGoesOn(es, store, n, front, image);
    TiledSnoc(front, 0, image);
  }

  lemma {:induction false} PartsShown(es: seq<ExtentDescriptor>, store: Store, parts: seq<seq<Byte>>, n: nat)
    returns (images: seq<ExtentImage>)
    requires AllShow(es, store.files, parts) && n <= |es|
    ensures Plan(es, store, n) == Ok(Native(images)) && Concat(images) == Joined(parts[..n])
    ensures ExtentsDisk(images).TablesInFile()
  {
    if n == 0 {
      images := [];
    } else {
      var front := PartsShown(es, store, parts, n - 1);
      var body := PartShown(es[n - 1], store, parts[n - 1], SumSectors(es, n - 1) * 512);
      OneMoreShown(es, store, n - 1, front, body, Joined(parts[..n - 1]), parts[n - 1]);
      JoinedSnoc(parts[..n - 1], parts[n - 1]);
      assert parts[..n - 1] + [parts[n - 1]] == parts[..n];
      images := front + [ExtentImage(SumSectors(es, n - 1) * 512, es[n - 1].sectors * 512, body)];
    }
  }

  /** The disk of a descriptor that stands alone is the parts of its extents, one after the other. */
  lemma DescriptorShows(d: Descriptor, text: string, store: Store, parts: seq<seq<Byte>>, fileSize: nat)
    returns (images: seq<ExtentImage>)
    requires Say(Lines(text), d) && StandsAlone(d) && d.extents != [] && AllShow(d.extents, store.files, parts)
    ensures PlanDescriptor(ParentChain.Parse(text), store) == Ok(Native(images))
    ensures Visible(ExtentsDisk(images), DeclaredSize(d.extents, fileSize)) ==
            if Joined(parts) == [] then Zeros(fileSize) else Joined(parts)
    ensures ExtentsDisk(images).TablesInFile()
  {
    ParentDecides(d, text, store);
    images := PartsShown(d.extents, store, parts, |d.extents|);
    assert parts[..|d.extents|] == parts;
    PlanTiles(d.extents, store, |d.extents|);
    ShownBytes(d.extents, images, fileSize);
  }

  // ---------------------------------------------------------------- what keeps an extent from being opened

  /** For every line and store: whether its extent is opened, left to the external reader and why, or fails. */
  lemma LineDecides(e: ExtentDescriptor, store: Store)
    ensures match BodyPlan(e, store)
            case Ok(NeedsNbd(reason)) =>
              if e.kind !in {"ZERO", "FLAT", "VMFS", "VMFSRAW", "SPARSE", "VMFSSPARSE"} then reason == UnsupportedExtentType
              else if e.file.None? then e.kind != "ZERO" && reason == ExtentWithoutFile
              else
                && e.kind in {"SPARSE", "VMFSSPARSE"} && e.file.value in store.files
                && HeaderOf(store.files[e.file.value]).Ok?
                && HeaderPlan(HeaderOf(store.files[e.file.value]).value, store.files[e.file.value]) == Ok(NeedsNbd(reason))
            case Err(error) =>
              && e.kind in {"FLAT", "VMFS", "VMFSRAW", "SPARSE", "VMFSSPARSE"} && e.file.Some?
              && if e.file.value !in store.files then error == NotFound
                 else
                   && e.kind in {"SPARSE", "VMFSSPARSE"}
                   && var contents := store.files[e.file.value];
                      if |contents| < 512 then error == UnexpectedEof
                      else if contents[..4] != [0x4B, 0x44, 0x4D, 0x56] then error == InvalidInput
                      else HeaderOf(contents).Ok? && HeaderPlan(HeaderOf(contents).value, contents) == Err(error)
            case Ok(Native(_)) => true
  {
  }

  /** The first line that is not opened decides for the whole descriptor. */
  lemma FirstLineDecides(es: seq<ExtentDescriptor>, store: Store, k: nat)
    requires k < |es| && !(BodyPlan(es[k], store).Ok? && BodyPlan(es[k], store).value.Native?)
    requires forall i :: 0 <= i < k ==> BodyPlan(es[i], store).Ok? && BodyPlan(es[i], store).value.Native?
    ensures match BodyPlan(es[k], store)
            case Err(error) => Plan(es, store, |es|) == Err(error)
            case Ok(NeedsNbd(reason)) => Plan(es, store, |es|) == Ok(NeedsNbd(reason))
            case Ok(Native(_)) => true
  {
    OpenedSoFar(es, store, k);
    PlanStopsAt(es, store, k, Plan(es, store, k).value.value);
  }

  lemma {:induction false} OpenedSoFar(es: seq<ExtentDescriptor>, store: Store, n: nat)
    requires n <= |es|
    requires forall i :: 0 <= i < n ==> BodyPlan(es[i], store).Ok? && BodyPlan(es[i], store).value.Native?
    ensures Plan(es, store, n).Ok? && Plan(es, store, n).value.Native?
  {
    if n > 0 {
      OpenedSoFar(es, store, n - 1);
    }
  }

  // ---------------------------------------------------------------- what the files show

  /** The first 64 bytes are the title of a descriptor, perhaps behind white space. */
  ghost predicate Titled(fs: ParentChain.FileSystem, contents: seq<Byte>) {
    exists lead: string, more: string ::
      && (forall i :: 0 <= i < |lead| ==> IsWhitespace(lead[i]))
      && fs.lossy(contents[..Min(|contents|, 64)]) == lead + ("# Disk DescriptorFile" + more)
  }

  lemma {:induction false} StartTrimmed(s: string) returns (lead: string)
    ensures s == lead + TrimStart(IsWhitespace, s) && forall i :: 0 <= i < |lead| ==> IsWhitespace(lead[i])
  {
    if s != [] && IsWhitespace(s[0]) {
      lead := StartTrimmed(s[1..]);
      lead := [s[0]] + lead;
    } else {
      lead := [];
    }
  }

  lemma TitledExactly(fs: ParentChain.FileSystem, contents: seq<Byte>)
    ensures ParentChain.IsTextDescriptor(fs, Head(contents)) <==> Titled(fs, contents)
  {
    assert Head(contents)[..Min(|Head(contents)|, 64)] == contents[..Min(|contents|, 64)];
    var s := fs.lossy(contents[..Min(|contents|, 64)]);
    var title := "# Disk DescriptorFile";
    if ParentChain.IsTextDescriptor(fs, Head(contents)) {
      var lead := StartTrimmed(s);
      var rest := TrimStart(IsWhitespace, s);
      assert rest == title + rest[|title|..];
    }
    if Titled(fs, contents) {
      var lead: string, more: string :| (forall i :: 0 <= i < |lead| ==> IsWhitespace(lead[i])) && s == lead + (title + more);
      TrimStartDrops(IsWhitespace, lead, title + more);
    }
  }

  /** A file that is no sparse image but a text with this title. */
  ghost predicate TextFile(fs: ParentChain.FileSystem, contents: seq<Byte>, text: string) {
    && !(|contents| >= 4 && contents[..4] == [0x4B, 0x44, 0x4D, 0x56])
    && Titled(fs, contents) && fs.strict(contents) == Some(text)
  }

  lemma SignatureSeen(contents: seq<Byte>)
    ensures ParentChain.IsSparseHeader(Head(contents)) <==> |contents| >= 4 && contents[..4] == [0x4B, 0x44, 0x4D, 0x56]
  {
    if |contents| >= 4 {
      assert Head(contents)[..4] == contents[..4];
    }
  }

  /** These are files that a descriptor at `path` finds under these names. */
  predicate FilesBeside(fs: ParentChain.FileSystem, path: ParentChain.Path, files: map<string, seq<Byte>>) {
    forall name :: name in files ==>
      fs.resolve(path, name) in fs.readable && fs.readable[fs.resolve(path, name)] == files[name]
  }

  /**
   * A text descriptor that stands alone and whose extents all show something is opened, and at the
   * announced size the disk is their parts, one after the other.
   */
  lemma TextShows(fs: ParentChain.FileSystem, path: ParentChain.Path, contents: seq<Byte>, schedules: Schedules,
                  text: string, d: Descriptor, files: map<string, seq<Byte>>, parts: seq<seq<Byte>>)
    returns (image: DiskImage)
    requires TextFile(fs, contents, text) && Say(Lines(text), d) && StandsAlone(d)
    requires FilesBeside(fs, path, files) && d.extents != [] && AllShow(d.extents, files, parts)
    ensures VmdkPlan(fs, path, contents, schedules) == Ok(Native(image))
    ensures Visible(image, VirtualSize(fs, contents)) == if Joined(parts) == [] then Zeros(|contents|) else Joined(parts)
    ensures image.ExtentsDisk? && image.TablesInFile()
  {
    SignatureSeen(contents);
    TitledExactly(fs, contents);
    DescriptorRoundTrip(d, text);
    TextDecides(fs, path, contents, schedules, d);
    forall i | 0 <= i < |d.extents|
      ensures Shows(d.extents[i], StoreAt(fs, path, d, schedules).files, parts[i])
    {
      assert Shows(d.extents[i], files, parts[i]);
      if d.extents[i].kind != "ZERO" {
        assert d.extents[i].file.value in NamesIn(d);
      }
    }
    var images := DescriptorShows(d, text, StoreAt(fs, path, d, schedules), parts, |contents|);
    image := ExtentsDisk(images);
  }

  /** A text with a parent, or without an extent, is left to the external reader. */
  lemma TextDelegated(fs: ParentChain.FileSystem, path: ParentChain.Path, contents: seq<Byte>, schedules: Schedules,
                      text: string, d: Descriptor)
    requires TextFile(fs, contents, text) && Say(Lines(text), d)
    requires !StandsAlone(d) || d.extents == []
    ensures VmdkPlan(fs, path, contents, schedules) ==
            Ok(NeedsNbd(if StandsAlone(d) then NoExtents else DeltaWithParent))
  {
    SignatureSeen(contents);
    TitledExactly(fs, contents);
    DescriptorRoundTrip(d, text);
    TextDecides(fs, path, contents, schedules, d);
    ParentDecides(d, text, StoreAt(fs, path, d, schedules));
  }

  /** The header says where a descriptor lies in the file, and there it is; or it says that there is none. */
  ghost predicate DescriptorBehind(fs: ParentChain.FileSystem, contents: seq<Byte>, h: SparseHeader, d: Option<Descriptor>) {
    if h.descriptorOffset == 0 || h.descriptorSectors == 0 then d == None
    else
      && d.Some?
      && exists bytes: seq<Byte> ::
           && |bytes| == h.descriptorSectors * 512 && ShowsFrom(contents, h.descriptorOffset * 512, bytes)
           && Say(Lines(fs.lossy(bytes)), d.value)
  }

  lemma EmbeddedIs(fs: ParentChain.FileSystem, contents: seq<Byte>, h: SparseHeader, d: Option<Descriptor>)
    requires DescriptorBehind(fs, contents, h, d)
    ensures Embedded(fs, contents, h) == d
  {
    if d.Some? {
      var bytes: seq<Byte> :|
        && |bytes| == h.descriptorSectors * 512 && ShowsFrom(contents, h.descriptorOffset * 512, bytes)
        && Say(Lines(fs.lossy(bytes)), d.value);
      assert bytes == Padded(contents, h.descriptorOffset * 512, h.descriptorSectors * 512);
      DescriptorRoundTrip(d.value, fs.lossy(bytes));
    }
  }

  /** A sparse image with a parent, or with several extents, is left to the external reader. */
  lemma MonolithicDelegated(fs: ParentChain.FileSystem, path: ParentChain.Path, contents: seq<Byte>,
                            schedules: Schedules, h: SparseHeader, d: Descriptor)
    requires h.Fits() && BeginsWith(contents, h) && |contents| >= 512 && DescriptorBehind(fs, contents, h, Some(d))
    requires !StandsAlone(d) || |d.extents| > 1
    ensures VmdkPlan(fs, path, contents, schedules) ==
            Ok(NeedsNbd(if StandsAlone(d) then SeveralDeclaredExtents else DeltaWithParent))
  {
    HeaderIsRead(contents, h);
    EmbeddedIs(fs, contents, h, Some(d));
    SignatureSeen(contents);
    SparseDecides(fs, path, contents, schedules, h);
    StandsAloneExactly(d);
  }

  lemma HeaderIsRead(contents: seq<Byte>, h: SparseHeader)
    requires h.Fits() && BeginsWith(contents, h) && |contents| >= 512
    ensures ReadSparseHeader(contents[..512]) == Ok(h) && Head(contents) == contents[..512]
  {
    var gap: seq<Byte>, rest: seq<Byte> :| |gap| == 13 && |rest| >= 1 && contents == EncodeHeader(h, gap) + rest;
    var front := EncodeHeader(h, gap);
    assert contents[..512] == front + rest[..512 - |front|];
    HeaderRoundTrip(h, gap, rest[..512 - |front|]);
  }

  /** Otherwise the header decides: opened, delegated for what it says, or failed. */
  lemma MonolithicByHeader(fs: ParentChain.FileSystem, path: ParentChain.Path, contents: seq<Byte>,
                           schedules: Schedules, h: SparseHeader, d: Option<Descriptor>)
    requires h.Fits() && BeginsWith(contents, h) && |contents| >= 512 && DescriptorBehind(fs, contents, h, d)
    requires d.Some? ==> StandsAlone(d.value) && |d.value.extents| <= 1
    ensures match HeaderPlan(h, contents)
            case Ok(Native(image)) => VmdkPlan(fs, path, contents, schedules) == Ok(Native(SparseDisk(image)))
            case Ok(NeedsNbd(reason)) => VmdkPlan(fs, path, contents, schedules) == Ok(NeedsNbd(reason))
            case Err(error) => VmdkPlan(fs, path, contents, schedules) == Err(error)
    ensures VirtualSize(fs, contents) == h.capacitySectors * 512
  {
    HeaderIsRead(contents, h);
    EmbeddedIs(fs, contents, h, d);
    SignatureSeen(contents);
    SparseDecides(fs, path, contents, schedules, h);
    if d.Some? {
      StandsAloneExactly(d.value);
    }
  }

  /** A sparse image without a parent is opened, and at the announced size the disk is its grains. */
  lemma MonolithicShows(fs: ParentChain.FileSystem, path: ParentChain.Path, contents: seq<Byte>, schedules: Schedules,
                        h: SparseHeader, layout: Layout, d: Option<Descriptor>) returns (image: DiskImage)
    requires SparseFile(contents, h, layout) && DescriptorBehind(fs, contents, h, d)
    requires d.Some? ==> StandsAlone(d.value) && |d.value.extents| <= 1
    ensures VmdkPlan(fs, path, contents, schedules) == Ok(Native(image))
    ensures h.capacitySectors * 512 <= |Joined(Joined(layout.grains))|
    ensures Visible(image, VirtualSize(fs, contents)) == layout.Disk(h)
    ensures image.SparseDisk? && image.TablesInFile()
  {
    SparseFileShows(contents, h, layout);
    MonolithicByHeader(fs, path, contents, schedules, h, d);
    image := SparseDisk(h.ImageOf(contents));
    ShownWhole(layout.Disk(h));
  }

  lemma ShownWhole(disk: seq<Byte>)
    ensures Padded(disk, 0, |disk|) == disk
  {
    PaddedInside(disk, 0, |disk|);
  }

  /** The first line of a text that is not opened decides for it. */
  lemma TextByFirstLine(fs: ParentChain.FileSystem, path: ParentChain.Path, contents: seq<Byte>, schedules: Schedules,
                        text: string, d: Descriptor, k: nat)
    requires TextFile(fs, contents, text) && Say(Lines(text), d) && StandsAlone(d) && k < |d.extents|
    requires var store := StoreAt(fs, path, d, schedules);
             && !(BodyPlan(d.extents[k], store).Ok? && BodyPlan(d.extents[k], store).value.Native?)
             && forall i :: 0 <= i < k ==>
                  BodyPlan(d.extents[i], store).Ok? && BodyPlan(d.extents[i], store).value.Native?
    ensures match BodyPlan(d.extents[k], StoreAt(fs, path, d, schedules))
            case Err(error) => VmdkPlan(fs, path, contents, schedules) == Err(error)
            case Ok(NeedsNbd(reason)) => VmdkPlan(fs, path, contents, schedules) == Ok(NeedsNbd(reason))
            case Ok(Native(_)) => true
  {
    SignatureSeen(contents);
    TitledExactly(fs, contents);
    DescriptorRoundTrip(d, text);
    TextDecides(fs, path, contents, schedules, d);
    ParentDecides(d, text, StoreAt(fs, path, d, schedules));
    FirstLineDecides(d.extents, StoreAt(fs, path, d, schedules), k);
  }

  /** The files an opened descriptor reads are those it finds beside it. */
  lemma StoreIsBeside(fs: ParentChain.FileSystem, path: ParentChain.Path, d: Descriptor, schedules: Schedules, i: nat)
    requires i < |d.extents| && d.extents[i].file.Some?
    ensures var store, file := StoreAt(fs, path, d, schedules), fs.resolve(path, d.extents[i].file.value);
            && (d.extents[i].file.value in store.files <==> file in fs.readable)
            && (file in fs.readable ==> store.files[d.extents[i].file.value] == fs.readable[file])
  {
    assert d.extents[i].file.value in NamesIn(d);
  }

  /** A text that cannot be decoded and a sparse image cut off in its header fail; what is neither is delegated. */
  lemma OthersDecided(fs: ParentChain.FileSystem, path: ParentChain.Path, contents: seq<Byte>, schedules: Schedules)
    ensures 4 <= |contents| < 80 && contents[..4] == [0x4B, 0x44, 0x4D, 0x56] ==>
              VmdkPlan(fs, path, contents, schedules) == Err(InvalidInput)
    ensures !(|contents| >= 4 && contents[..4] == [0x4B, 0x44, 0x4D, 0x56]) && Titled(fs, contents) && fs.strict(contents) == None ==>
              VmdkPlan(fs, path, contents, schedules) == Err(InvalidInput)
    ensures CarriesNothing(fs, contents) ==>
              && VmdkPlan(fs, path, contents, schedules) == Ok(NeedsNbd(UnrecognizedHeader))
              && VirtualSize(fs, contents) == |contents|
  {
    SignatureSeen(contents);
    TitledExactly(fs, contents);
  }

  // ---------------------------------------------------------------- what the preflight asks of a file

  /** The file is a sparse image with this descriptor embedded, or none. */
  ghost predicate SparseCarries(fs: ParentChain.FileSystem, contents: seq<Byte>, d: Option<Descriptor>) {
    exists h: SparseHeader ::
      h.Fits() && BeginsWith(contents, h) && |contents| >= 512 && DescriptorBehind(fs, contents, h, d)
  }

  ghost predicate TextCarries(fs: ParentChain.FileSystem, contents: seq<Byte>, d: Descriptor) {
    exists text :: TextFile(fs, contents, text) && Say(Lines(text), d)
  }

  /** The file is neither a sparse image nor a descriptor. */
  ghost predicate CarriesNothing(fs: ParentChain.FileSystem, contents: seq<Byte>) {
    !Titled(fs, contents) && !(|contents| >= 4 && contents[..4] == [0x4B, 0x44, 0x4D, 0x56])
  }

  /** The descriptor a file carries: a sparse image the embedded one, a text itself, any other none. */
  ghost predicate Carries(fs: ParentChain.FileSystem, contents: seq<Byte>, d: Option<Descriptor>) {
    || SparseCarries(fs, contents, d)
    || (d.Some? && TextCarries(fs, contents, d.value))
    || (d.None? && CarriesNothing(fs, contents))
  }

  lemma SparseCarried(fs: ParentChain.FileSystem, contents: seq<Byte>, d: Option<Descriptor>)
    requires SparseCarries(fs, contents, d)
    ensures ParentChain.DescriptorIn(fs, contents) == Ok(d)
  {
    var h: SparseHeader :|
      h.Fits() && BeginsWith(contents, h) && |contents| >= 512 && DescriptorBehind(fs, contents, h, d);
    HeaderIsRead(contents, h);
    EmbeddedIs(fs, contents, h, d);
    SignatureSeen(contents);
  }

  lemma TextCarried(fs: ParentChain.FileSystem, contents: seq<Byte>, d: Descriptor)
    requires TextCarries(fs, contents, d)
    ensures ParentChain.DescriptorIn(fs, contents) == Ok(Some(d))
  {
    var text :| TextFile(fs, contents, text) && Say(Lines(text), d);
    DescriptorRoundTrip(d, text);
    SignatureSeen(contents);
    TitledExactly(fs, contents);
    assert Head(contents) == contents[..Min(|contents|, SECTOR)];
  }

  lemma NothingCarried(fs: ParentChain.FileSystem, contents: seq<Byte>)
    requires CarriesNothing(fs, contents)
    ensures ParentChain.DescriptorIn(fs, contents) == Ok(None)
  {
    SignatureSeen(contents);
    TitledExactly(fs, contents);
    assert Head(contents) == contents[..Min(|contents|, SECTOR)];
  }

  lemma CarriedIs(fs: ParentChain.FileSystem, contents: seq<Byte>, d: Option<Descriptor>)
    requires Carries(fs, contents, d)
    ensures ParentChain.DescriptorIn(fs, contents) == Ok(d)
  {
    if SparseCarries(fs, contents, d) {
      SparseCarried(fs, contents, d);
    } else if d.Some? {
      TextCarried(fs, contents, d.value);
    } else {
      NothingCarried(fs, contents);
    }
  }

  /** The file this extent names exists, if it is to hold any of the disk. */
  predicate ExtentFound(fs: ParentChain.FileSystem, path: ParentChain.Path, e: ExtentDescriptor) {
    e.kind == "ZERO" || e.file.None? || fs.resolve(path, e.file.value) in fs.present
  }

  lemma ComponentsDecide(fs: ParentChain.FileSystem, path: ParentChain.Path, d: Descriptor)
    ensures ParentChain.ParentName(d) == if Hinted(d) then d.parentFileNameHint else None
    ensures ParentChain.ComponentsPresent(fs, path, d) <==>
              && (Hinted(d) ==> fs.resolve(path, d.parentFileNameHint.value) in fs.present)
              && forall i :: 0 <= i < |d.extents| ==> ExtentFound(fs, path, d.extents[i])
  {
    assert forall e :: ParentChain.ExtentPresent(fs, path, e) == ExtentFound(fs, path, e);
  }

  /**
   * A file passes exactly when the parent it hints at and the file of every extent but the ZERO ones exist, and the
   * walk goes on to the parent it hints at.
   */
  lemma PreflightDecides(fs: ParentChain.FileSystem, path: ParentChain.Path, d: Option<Descriptor>)
    requires path in fs.readable && Carries(fs, fs.readable[path], d)
    ensures ParentChain.Sound(fs, path) <==>
              d.Some? ==>
                && (Hinted(d.value) ==> fs.resolve(path, d.value.parentFileNameHint.value) in fs.present)
                && forall i :: 0 <= i < |d.value.extents| ==> ExtentFound(fs, path, d.value.extents[i])
    ensures ParentChain.Parent(fs, path) ==
            if d.Some? && Hinted(d.value) then Some(fs.resolve(path, d.value.parentFileNameHint.value)) else None
  {
    CarriedIs(fs, fs.readable[path], d);
    assert ParentChain.DescriptorOf(fs, path) == Ok(d);
    if d.Some? {
      ComponentsDecide(fs, path, d.value);
    }
  }

  /** A file that cannot be opened, a sparse image cut off in its header, or a text that is none does not pass. */
  lemma UnreadableFails(fs: ParentChain.FileSystem, path: ParentChain.Path)
    requires path in fs.readable ==>
               var contents := fs.readable[path];
               if |contents| >= 4 && contents[..4] == [0x4B, 0x44, 0x4D, 0x56] then |contents| < 80
               else Titled(fs, contents) && fs.strict(contents) == None
    ensures !ParentChain.Sound(fs, path) && ParentChain.Parent(fs, path) == None
  {
    if path in fs.readable {
      var contents := fs.readable[path];
      SignatureSeen(contents);
      TitledExactly(fs, contents);
      assert Head(contents) == contents[..Min(|contents|, SECTOR)];
    }
  }
}
