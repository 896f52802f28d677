/** MBR partition tables and the chains of extended boot records behind their extended entries. */
module PartitionTables {
  import opened Bytes
  import opened Files
  import opened DiskReaders

  const MAX_LINKS := 64
  const TABLE := 446

  /** One 16-byte table record; what it says about heads and cylinders is not used. */
  datatype Entry = Entry(kind: Byte, first: nat, sectors: nat) {
    predicate Empty() {
      kind == 0 || sectors == 0
    }

    predicate Extended() {
      kind == 0x05 || kind == 0x0F || kind == 0x85
    }

    predicate Fits() {
      first < U32_LIMIT && sectors < U32_LIMIT
    }
  }

  /** An extended boot record: its own partition, and the link to the next record counted from the
      start of the extended partition. */
  datatype Record = Record(own: Entry, next: Option<nat>)

  /** The boot record found in each sector, if any. */
  type Records = nat -> Option<Record>

  /** A partition in bytes. */
  datatype Region = Region(start: nat, size: nat, kind: Byte)

  datatype Partition = Partition(index: nat, region: Region)

  // ---------------------------------------------------------------- what the bytes of a disk say

  /** Sector `lba` of a disk whose bytes read zero past the end. */
  function Sector(disk: seq<Byte>, lba: nat): (s: seq<Byte>)
    ensures |s| == SECTOR
  {
    Padded(disk, lba * SECTOR, SECTOR)
  }

  function EntryAt(sector: seq<Byte>, at: nat): (e: Entry)
    requires at + 16 <= |sector|
    ensures e.Fits()
  {
    Entry(sector[at + 4], Le32(sector, at + 8), Le32(sector, at + 12))
  }

  predicate Signed(sector: seq<Byte>)
    requires |sector| == SECTOR
  {
    sector[510] == 0x55 && sector[511] == 0xAA
  }

  function Decode(sector: seq<Byte>): Option<Record>
    requires |sector| == SECTOR
  {
    if !Signed(sector) then None
    else
      var next := EntryAt(sector, TABLE + 16);
      Some(Record(EntryAt(sector, TABLE), if next.kind == 0 || next.first == 0 then None else Some(next.first)))
  }

  function RecordAt(disk: seq<Byte>, lba: nat): Option<Record> {
    Decode(Sector(disk, lba))
  }

  function RecordsOf(disk: seq<Byte>): Records {
    (lba: nat) => RecordAt(disk, lba)
  }

  lemma RecordsAt(disk: seq<Byte>)
    ensures forall lba: nat {:trigger RecordAt(disk, lba)} :: RecordsOf(disk)(lba) == RecordAt(disk, lba)
  {
  }

  function RegionOf(e: Entry, base: nat): seq<Region> {
    if e.Empty() then [] else [Region((base + e.first) * SECTOR, e.sectors * SECTOR, e.kind)]
  }

  /** The logical partitions from the record at `lba` on, following at most `links` records. */
  function Chain(records: Records, base: nat, lba: nat, links: nat): (r: seq<Region>)
    ensures |r| <= links
    decreases links, base
  {
    if links == 0 then []
    else
      match records(lba)
      case None => []
      case Some(record) =>
        RegionOf(record.own, lba)
        + if record.next == None then [] else Chain(records, base, base + record.next.value, links - 1)
  }

  /** The partitions behind one entry of the main table. */
  function Behind(records: Records, e: Entry): (r: seq<Region>)
    ensures |r| <= MAX_LINKS
  {
    if e.Empty() then []
    else if e.Extended() then Chain(records, e.first, e.first, MAX_LINKS)
    else RegionOf(e, 0)
  }

  /** The four entries of the main table. */
  function Entries(mbr: seq<Byte>): (r: seq<Entry>)
    requires |mbr| == SECTOR
    ensures |r| == 4
    ensures forall i :: 0 <= i < 4 ==> r[i] == EntryAt(mbr, TABLE + i * 16)
  {
    seq(4, i requires 0 <= i < 4 => EntryAt(mbr, TABLE + i * 16))
  }

  /** The partitions behind the entries of the main table, in table order. */
  function Table(records: Records, entries: seq<Entry>): (r: seq<Region>)
    ensures |r| <= |entries| * MAX_LINKS
  {
    if entries == [] then []
    else
      var last := |entries| - 1;
      Table(records, entries[..last]) + Behind(records, entries[last])
  }

  function Numbered(regions: seq<Region>): (r: seq<Partition>)
    ensures |r| == |regions|
    ensures forall i :: 0 <= i < |r| ==> r[i] == Partition(i, regions[i])
  {
    seq(|regions|, i requires 0 <= i < |regions| => Partition(i, regions[i]))
  }

  // ---------------------------------------------------------------- the readers

  method ReadBlocks(driver: DiskReader, index: nat, count: nat) returns (r: Result<seq<Byte>, IoError>)
    requires driver.Valid()
    modifies driver, driver.repr
    ensures driver.Valid() && Kept(old(driver.broken), driver.broken, r)
    ensures r.Ok? ==> |r.value| == count * SECTOR
    ensures r.Ok? && !driver.broken ==> r.value == Padded(driver.bytes, index * SECTOR, count * SECTOR)
    ensures old(driver.Undisturbed()) ==>
              driver.Undisturbed() && (driver.backend.Image().Serves(count * SECTOR) ==> r.Ok?)
  {
    var buf := new Byte[count * SECTOR](_ => 0);
    var filled := driver.FillRange(index * SECTOR, buf);
    if filled.Err? {
      return Err(filled.error);
    }
    return Ok(buf[..]);
  }

  /** Appends a table entry to the list unless it is empty. */
  method Push(output: seq<Partition>, e: Entry, base: nat, ghost regions: seq<Region>)
    returns (extended: seq<Partition>)
    requires output == Numbered(regions)
    ensures extended == Numbered(regions + RegionOf(e, base))
  {
    if e.kind != 0 && e.sectors != 0 {
      extended := output + [Partition(|output|, Region((base + e.first) * SECTOR, e.sectors * SECTOR, e.kind))];
    } else {
      extended := output;
      assert regions + [] == regions;
    }
  }

  /** What the driver reads from the disk is what `records` says. */
  ghost predicate Describes(records: Records, disk: seq<Byte>) {
    forall lba: nat {:trigger RecordAt(disk, lba)} :: records(lba) == RecordAt(disk, lba)
  }

  method ReadRecord(driver: DiskReader, lba: nat, ghost records: Records) returns (r: Result<Option<Record>, IoError>)
    requires driver.Valid() && Describes(records, driver.bytes)
    modifies driver, driver.repr
    ensures driver.Valid() && Kept(old(driver.broken), driver.broken, r)
    ensures r.Ok? && !driver.broken ==> r.value == records(lba)
    ensures old(driver.Undisturbed()) ==>
              driver.Undisturbed() && (driver.backend.Image().TablesInFile() ==> r.Ok?)
  {
    var read := ReadBlocks(driver, lba, 1);
    if read.Err? {
      return Err(read.error);
    }
    assert !driver.broken ==> read.value == Sector(driver.bytes, lba);
    assert records(lba) == RecordAt(driver.bytes, lba);
    return Ok(Decode(read.value));
  }

  /** What a walk has found so far, and what is still ahead of it. */
  ghost predicate Walks(all: seq<Region>, records: Records, base: nat, lba: nat, links: nat, found: seq<Region>) {
    all == found + Chain(records, base, lba, links)
  }

  lemma WalkEnds(all: seq<Region>, records: Records, base: nat, lba: nat, links: nat, found: seq<Region>)
    requires links > 0 && records(lba) == None && Walks(all, records, base, lba, links, found)
    ensures found == all
  {
    ChainEnds(records, base, lba, links);
    Regroup(found, [], []);
  }

  lemma WalkLast(all: seq<Region>, records: Records, base: nat, lba: nat, links: nat, found: seq<Region>, record: Record)
    requires links > 0 && records(lba) == Some(record) && record.next == None
    requires Walks(all, records, base, lba, links, found)
    ensures found + RegionOf(record.own, lba) == all
  {
    ChainLast(records, base, lba, links, record);
  }

  lemma WalkGoesOn(all: seq<Region>, records: Records, base: nat, lba: nat, links: nat, found: seq<Region>, record: Record)
    requires links > 0 && records(lba) == Some(record) && record.next.Some?
    requires Walks(all, records, base, lba, links, found)
    ensures Walks(all, records, base, base + record.next.value, links - 1, found + RegionOf(record.own, lba))
  {
    ChainGoesOn(records, base, lba, links, record);
    Regroup(found, RegionOf(record.own, lba), Chain(records, base, base + record.next.value, links - 1));
  }

  /** What one record of a chain adds to the list, and the record it links to; `trusted` if it is the disk's. */
  method Advance(read: Option<Record>, base: nat, lba: nat, output: seq<Partition>, ghost trusted: bool, ghost links: nat,
                 ghost found: seq<Region>, ghost all: seq<Region>, ghost records: Records)
    returns (list: seq<Partition>, next: Option<nat>, ghost more: seq<Region>)
    requires output == Numbered(found) && links > 0
    requires trusted ==> read == records(lba) && Walks(all, records, base, lba, links, found)
    ensures list == Numbered(more)
    ensures trusted ==>
              match next
              case None => more == all
              case Some(following) => Walks(all, records, base, following, links - 1, more)
  {
    if read == None {
      if trusted {
        WalkEnds(all, records, base, lba, links, found);
      }
      return output, None, found;
    }
    var record := read.value;
    list := Push(output, record.own, lba, found);
    more := found + RegionOf(record.own, lba);
    if record.next == None {
      if trusted {
        WalkLast(all, records, base, lba, links, found, record);
      }
      return list, None, more;
    }
    if trusted {
      WalkGoesOn(all, records, base, lba, links, found, record);
    }
    return list, Some(base + record.next.value), more;
  }

  /** One turn of the walk along a chain. */
  method Follow(driver: DiskReader, base: nat, lba: nat, output: seq<Partition>, ghost links: nat,
                ghost found: seq<Region>, ghost all: seq<Region>, ghost records: Records)
    returns (r: Result<(seq<Partition>, Option<nat>), IoError>, ghost more: seq<Region>)
    requires driver.Valid() && Describes(records, driver.bytes) && output == Numbered(found)
    requires links > 0 && (!driver.broken ==> Walks(all, records, base, lba, links, found))
    modifies driver, driver.repr
    ensures driver.Valid() && Kept(old(driver.broken), driver.broken, r)
    ensures r.Ok? ==> r.value.0 == Numbered(more)
    ensures r.Ok? && !driver.broken ==>
              match r.value.1
              case None => more == all
              case Some(next) => Walks(all, records, base, next, links - 1, more)
    ensures old(driver.Undisturbed()) ==>
              driver.Undisturbed() && (driver.backend.Image().TablesInFile() ==> r.Ok?)
  {
    var read := ReadRecord(driver, lba, records);
    if read.Err? {
      return Err(read.error), found;
    }
    var list, next;
    list, next, more := Advance(read.value, base, lba, output, !driver.broken, links, found, all, records);
    return Ok((list, next)), more;
  }

  /** Follows a chain of boot records; the bound guards against cycles. */
  method ReadExtendedChain(driver: DiskReader, base: nat, output: seq<Partition>, ghost regions: seq<Region>,
                           ghost records: Records)
    returns (r: Result<seq<Partition>, IoError>, ghost found: seq<Region>)
    requires driver.Valid() && Describes(records, driver.bytes) && output == Numbered(regions)
    modifies driver, driver.repr
    ensures driver.Valid() && Kept(old(driver.broken), driver.broken, r)
    ensures r.Ok? ==> r.value == Numbered(found)
    ensures r.Ok? && !driver.broken ==> found == regions + Chain(records, base, base, MAX_LINKS)
    ensures old(driver.Undisturbed()) ==>
              driver.Undisturbed() && (driver.backend.Image().TablesInFile() ==> r.Ok?)
  {
    var lba: nat := base;
    var list := output;
    found := regions;
    ghost var all, left: nat := regions + Chain(records, base, base, MAX_LINKS), MAX_LINKS;
    for i := 0 to MAX_LINKS
      invariant driver.Valid() && driver.broken == old(driver.broken)
      invariant list == Numbered(found) && left == MAX_LINKS - i
      invariant !driver.broken ==> Walks(all, records, base, lba, left, found)
      invariant old(driver.Undisturbed()) ==> driver.Undisturbed()
    {
      var turn;
      turn, found := Follow(driver, base, lba, list, left, found, all, records);
      if turn.Err? {
        return Err(turn.error), found;
      }
      list := turn.value.0;
      if turn.value.1 == None {
        return Ok(list), found;
      }
      lba := turn.value.1.value;
      left := left - 1;
    }
    if !driver.broken {
      WalkDone(all, records, base, lba, found);
    }
    return Ok(list), found;
  }

  lemma WalkDone(all: seq<Region>, records: Records, base: nat, lba: nat, found: seq<Region>)
    requires Walks(all, records, base, lba, 0, found)
    ensures found == all
  {
    Regroup(found, [], []);
  }

  /** A walk ends at a sector without a boot record. */
  lemma ChainEnds(records: Records, base: nat, lba: nat, links: nat)
    requires links > 0 && records(lba) == None
    ensures Chain(records, base, lba, links) == []
  {
  }

  /** It ends after a record without a link. */
  lemma ChainLast(records: Records, base: nat, lba: nat, links: nat, record: Record)
    requires links > 0 && records(lba) == Some(record) && record.next == None
    ensures Chain(records, base, lba, links) == RegionOf(record.own, lba)
  {
    assert RegionOf(record.own, lba) + [] == RegionOf(record.own, lba);
  }

  /** Otherwise it goes on at the linked record. */
  lemma ChainGoesOn(records: Records, base: nat, lba: nat, links: nat, record: Record)
    requires links > 0 && records(lba) == Some(record) && record.next.Some?
    ensures Chain(records, base, lba, links) ==
            RegionOf(record.own, lba) + Chain(records, base, base + record.next.value, links - 1)
  {
  }

  lemma Regroup(a: seq<Region>, b: seq<Region>, c: seq<Region>)
    ensures a + (b + c) == (a + b) + c
    ensures a + [] == a
  {
  }

  /** Reads what lies behind one entry of the main table. */
  method ReadSlot(driver: DiskReader, e: Entry, output: seq<Partition>, ghost regions: seq<Region>,
                  ghost records: Records)
    returns (r: Result<seq<Partition>, IoError>, ghost found: seq<Region>)
    requires driver.Valid() && Describes(records, driver.bytes) && output == Numbered(regions)
    modifies driver, driver.repr
    ensures driver.Valid() && Kept(old(driver.broken), driver.broken, r)
    ensures r.Ok? ==> r.value == Numbered(found)
    ensures r.Ok? && !driver.broken ==> found == regions + Behind(records, e)
    ensures old(driver.Undisturbed()) ==>
              driver.Undisturbed() && (driver.backend.Image().TablesInFile() ==> r.Ok?)
  {
    if e.kind == 0 || e.sectors == 0 {
      assert regions + [] == regions;
      return Ok(output), regions;
    }
    if e.Extended() {
      r, found := ReadExtendedChain(driver, e.first, output, regions, records);
      return;
    }
    var list := Push(output, e, 0, regions);
    return Ok(list), regions + RegionOf(e, 0);
  }

  /** Reads what lies behind each entry in turn. */
  method ReadTable(driver: DiskReader, entries: seq<Entry>, ghost records: Records)
    returns (r: Result<seq<Partition>, IoError>)
    requires driver.Valid() && Describes(records, driver.bytes)
    modifies driver, driver.repr
    ensures driver.Valid() && Kept(old(driver.broken), driver.broken, r)
    ensures r.Ok? && !driver.broken ==> r.value == Numbered(Table(records, entries))
    ensures old(driver.Undisturbed()) ==>
              driver.Undisturbed() && (driver.backend.Image().TablesInFile() ==> r.Ok?)
  {
    var list: seq<Partition> := [];
    ghost var regions: seq<Region> := [];
    for i := 0 to |entries|
      invariant driver.Valid() && driver.broken == old(driver.broken)
      invariant list == Numbered(regions)
      invariant !driver.broken ==> regions == Table(records, entries[..i])
      invariant old(driver.Undisturbed()) ==> driver.Undisturbed()
    {
      var slot;
      slot, regions := ReadSlot(driver, entries[i], list, regions, records);
      if slot.Err? {
        return slot;
      }
      assert entries[..i + 1][..i] == entries[..i];
      list := slot.value;
    }
    assert entries[..|entries|] == entries;
    return Ok(list);
  }

  method ReadMbr(driver: DiskReader, mbr: seq<Byte>) returns (r: Result<seq<Partition>, IoError>)
    requires driver.Valid() && |mbr| == SECTOR
    modifies driver, driver.repr
    ensures driver.Valid() && Kept(old(driver.broken), driver.broken, r)
    ensures r.Ok? && !driver.broken ==> r.value == Numbered(Table(RecordsOf(driver.bytes), Entries(mbr)))
    ensures old(driver.Undisturbed()) ==>
              driver.Undisturbed() && (driver.backend.Image().TablesInFile() ==> r.Ok?)
  {
    RecordsAt(driver.bytes);
    r := ReadTable(driver, Entries(mbr), RecordsOf(driver.bytes));
  }

  // ---------------------------------------------------------------- laying a table out

  /** The record holds the entry's three numbers, in the byte order the format fixes. */
  predicate Holds(sector: seq<Byte>, at: nat, e: Entry)
    requires at + 16 <= |sector|
  {
    && sector[at + 4] == e.kind
    && sector[at + 8..at + 12] == LeBytes(e.first, 4)
    && sector[at + 12..at + 16] == LeBytes(e.sectors, 4)
  }

  lemma EntryRoundTrip(sector: seq<Byte>, at: nat, e: Entry)
    requires at + 16 <= |sector| && e.Fits() && Holds(sector, at, e)
    ensures EntryAt(sector, at) == e
  {
    Le32RoundTrip(sector, at + 8, e.first);
    Le32RoundTrip(sector, at + 12, e.sectors);
  }

  /** The 512 bytes of this sector, with zeros past the end of the disk. */
  function SectorBytes(disk: seq<Byte>, lba: nat): (s: seq<Byte>)
    ensures |s| == 512 && forall i :: 0 <= i < 512 ==> s[i] == if lba * 512 + i < |disk| then disk[lba * 512 + i] else 0
  {
    Sector(disk, lba)
  }

  /** The sector ends in the signature of a boot record. */
  predicate HasSignature(sector: seq<Byte>)
    requires |sector| == 512
  {
    sector[510..] == [0x55, 0xAA]
  }

  lemma SignatureSeen(sector: seq<Byte>)
    requires |sector| == 512
    ensures HasSignature(sector) <==> Signed(sector)
  {
    assert sector[510..] == [sector[510], sector[511]];
  }

  /** A sector made into a boot record: signature, own entry, and the entry that links to the next one, or has no type or no start. */
  predicate RecordLaid(sector: seq<Byte>, record: Record)
    requires |sector| == 512
  {
    && HasSignature(sector)
    && Holds(sector, 446, record.own)
    && (match record.next
        case None => sector[466] == 0 || sector[470..474] == [0, 0, 0, 0]
        case Some(link) => sector[466] != 0 && sector[470..474] == LeBytes(link, 4))
  }

  lemma RecordRoundTrip(disk: seq<Byte>, lba: nat, record: Record)
    requires RecordLaid(SectorBytes(disk, lba), record) && record.own.Fits()
    requires record.next.Some? ==> 0 < record.next.value < U32_LIMIT
    ensures RecordsOf(disk)(lba) == Some(record)
  {
    var sector := Sector(disk, lba);
    SignatureSeen(sector);
    EntryRoundTrip(sector, TABLE, record.own);
    if record.next.Some? {
      Le32RoundTrip(sector, TABLE + 24, record.next.value);
    } else if sector[466] != 0 {
      assert sector[470] == sector[470..474][0] && sector[471] == sector[470..474][1];
      assert sector[472] == sector[470..474][2] && sector[473] == sector[470..474][3];
    }
    assert Decode(sector) == Some(record);
    RecordsAt(disk);
    assert RecordAt(disk, lba) == Some(record);
  }

  /** A logical partition and where its record lies, counted from the start of the extended partition. */
  datatype Logical = Logical(link: nat, entry: Entry)

  /** Numbers within their fields, and no link but the first at the start of the partition. */
  predicate ChainFits(chain: seq<Logical>) {
    forall i :: 0 <= i < |chain| ==>
      chain[i].link < U32_LIMIT && chain[i].entry.Fits() && (i > 0 ==> chain[i].link != 0)
  }

  function HeadRecord(chain: seq<Logical>): Record
    requires chain != []
  {
    Record(chain[0].entry, if |chain| == 1 then None else Some(chain[1].link))
  }

  /** The record of `chain[0]` is on the disk and points to the record of `chain[1]`, and so on. */
  predicate ChainLaid(disk: seq<Byte>, base: nat, chain: seq<Logical>) {
    chain != [] ==>
      RecordLaid(SectorBytes(disk, base + chain[0].link), HeadRecord(chain)) && ChainLaid(disk, base, chain[1..])
  }

  /** The same, said of the records a disk holds. */
  predicate ChainHeld(records: Records, base: nat, chain: seq<Logical>) {
    chain != [] ==>
      records(base + chain[0].link) == Some(HeadRecord(chain)) && ChainHeld(records, base, chain[1..])
  }

  lemma HeadIsHeld(records: Records, disk: seq<Byte>, at: nat, record: Record, first: nat)
    requires Describes(records, disk) && RecordLaid(SectorBytes(disk, at), record) && record.own.Fits()
    requires record.next == None || (record.next == Some(first) && 0 < first < U32_LIMIT)
    ensures records(at) == Some(record)
  {
    RecordRoundTrip(disk, at, record);
    RecordsAt(disk);
    assert records(at) == RecordAt(disk, at);
  }

  lemma TailFits(chain: seq<Logical>)
    requires chain != [] && ChainFits(chain)
    ensures ChainFits(chain[1..]) && chain[0].entry.Fits()
    ensures |chain| > 1 ==> 0 < chain[1].link < U32_LIMIT
  {
    assert forall i :: 0 <= i < |chain| - 1 ==> chain[1..][i] == chain[i + 1];
  }

  lemma {:induction false} LaidIsHeld(records: Records, disk: seq<Byte>, base: nat, chain: seq<Logical>)
    requires Describes(records, disk) && ChainFits(chain) && ChainLaid(disk, base, chain)
    ensures ChainHeld(records, base, chain)
  {
    if chain != [] {
      TailFits(chain);
      HeadIsHeld(records, disk, base + chain[0].link, HeadRecord(chain), if |chain| > 1 then chain[1].link else 0);
      LaidIsHeld(records, disk, base, chain[1..]);
    }
  }

  /** An entry that stands for no partition: without a type, or without sectors. */
  predicate Vacant(e: Entry) {
    e.kind == 0 || e.sectors == 0
  }

  /** Where the logical partitions of a chain lie: each relative to its own record. */
  function ChainRegions(base: nat, chain: seq<Logical>): seq<Region> {
    if chain == [] then []
    else
      var (e, rest) := (chain[0].entry, ChainRegions(base, chain[1..]));
      if Vacant(e) then rest else [Region((base + chain[0].link + e.first) * 512, e.sectors * 512, e.kind)] + rest
  }

  lemma FirstRegion(base: nat, chain: seq<Logical>)
    requires chain != []
    ensures ChainRegions(base, chain) ==
            RegionOf(chain[0].entry, base + chain[0].link) + ChainRegions(base, chain[1..])
  {
    var rest := ChainRegions(base, chain[1..]);
    assert [] + rest == rest;
  }

  lemma KeptRegions(base: nat, chain: seq<Logical>, m: nat)
    requires 0 < m <= |chain|
    ensures ChainRegions(base, chain[..m]) ==
            RegionOf(chain[0].entry, base + chain[0].link) + ChainRegions(base, chain[1..][..m - 1])
  {
    FirstRegion(base, chain[..m]);
    assert chain[..m][0] == chain[0] && chain[..m][1..] == chain[1..][..m - 1];
  }

  /** The first record of a chain and what is read behind it. */
  lemma HeadAndTail(records: Records, base: nat, chain: seq<Logical>, links: nat, behind: seq<Region>)
    requires chain != [] && links > 0 && records(base + chain[0].link) == Some(HeadRecord(chain))
    requires behind == if |chain| == 1 then [] else Chain(records, base, base + chain[1].link, links - 1)
    ensures Chain(records, base, base + chain[0].link, links) == RegionOf(chain[0].entry, base + chain[0].link) + behind
  {
    if |chain| == 1 {
      ChainLast(records, base, base + chain[0].link, links, HeadRecord(chain));
      Regroup(RegionOf(chain[0].entry, base + chain[0].link), [], []);
    } else {
      ChainGoesOn(records, base, base + chain[0].link, links, HeadRecord(chain));
    }
  }

  /** Reading a chain back gives its partitions in order; past the bound the rest is cut off. */
  lemma {:induction false} ChainRoundTrip(records: Records, base: nat, chain: seq<Logical>, links: nat)
    requires chain != [] && ChainHeld(records, base, chain)
    ensures Chain(records, base, base + chain[0].link, links) == ChainRegions(base, chain[..Min(links, |chain|)])
    decreases |chain|
  {
    if links > 0 {
      var tail := chain[1..];
      KeptRegions(base, chain, Min(links, |chain|));
      var behind: seq<Region> := [];
      if tail == [] {
        assert tail[..0] == [];
      } else {
        ChainRoundTrip(records, base, tail, links - 1);
        behind := Chain(records, base, base + tail[0].link, links - 1);
      }
      HeadAndTail(records, base, chain, links, behind);
    }
  }

  /** One entry of the main table, with the chain behind it when it is an extended partition. */
  datatype Slot = Slot(entry: Entry, chain: seq<Logical>) {
    predicate Fits() {
      entry.Fits() && ChainFits(chain) && (chain != [] ==> chain[0].link == 0)
    }

    /** An extended partition, by one of the three types there are for it. */
    predicate Chained() {
      !Vacant(entry) && (entry.kind == 0x05 || entry.kind == 0x0F || entry.kind == 0x85)
    }

    /** What the entry stands for: nothing, the first 64 partitions of its chain, or a partition of its own. */
    function Regions(): seq<Region> {
      if Vacant(entry) then []
      else if Chained() then ChainRegions(entry.first, chain[..Min(64, |chain|)])
      else [Region(entry.first * 512, entry.sectors * 512, entry.kind)]
    }

    /** The chain behind the entry is on the disk; without one there is no record to start from. */
    predicate Placed(disk: seq<Byte>) {
      Chained() ==>
        if chain == [] then !HasSignature(SectorBytes(disk, entry.first)) else ChainLaid(disk, entry.first, chain)
    }

    predicate Held(records: Records) {
      !entry.Empty() && entry.Extended() ==>
        if chain == [] then records(entry.first) == None else ChainHeld(records, entry.first, chain)
    }

    predicate Laid(disk: seq<Byte>, mbr: seq<Byte>, at: nat)
      requires at + 16 <= |mbr|
    {
      Holds(mbr, at, entry) && Placed(disk)
    }
  }

  function SlotRegions(slots: seq<Slot>): seq<Region> {
    if slots == [] then [] else SlotRegions(slots[..|slots| - 1]) + slots[|slots| - 1].Regions()
  }

  lemma PlacedIsHeld(disk: seq<Byte>, slot: Slot)
    requires slot.Fits() && slot.Placed(disk)
    ensures slot.Held(RecordsOf(disk))
  {
    if !slot.entry.Empty() && slot.entry.Extended() {
      if slot.chain == [] {
        RecordsAt(disk);
        SignatureSeen(SectorBytes(disk, slot.entry.first));
        assert RecordAt(disk, slot.entry.first) == None;
      } else {
        RecordsAt(disk);
        LaidIsHeld(RecordsOf(disk), disk, slot.entry.first, slot.chain);
      }
    }
  }

  lemma SlotRoundTrip(records: Records, slot: Slot)
    requires slot.Fits() && slot.Held(records)
    ensures Behind(records, slot.entry) == slot.Regions()
  {
    if !slot.entry.Empty() && slot.entry.Extended() && slot.chain != [] {
      ChainRoundTrip(records, slot.entry.first, slot.chain, MAX_LINKS);
    }
  }

  lemma {:induction false} SlotsInOrder(records: Records, entries: seq<Entry>, slots: seq<Slot>)
    requires |entries| == |slots|
    requires forall i :: 0 <= i < |slots| ==> Behind(records, entries[i]) == slots[i].Regions()
    ensures Table(records, entries) == SlotRegions(slots)
    decreases |slots|
  {
    if slots != [] {
      var last := |slots| - 1;
      SlotsInOrder(records, entries[..last], slots[..last]);
    }
  }

  /** A laid-out table is read back in table and chain order, up to 64 partitions of each chain. */
  lemma TableRoundTrip(disk: seq<Byte>, mbr: seq<Byte>, slots: seq<Slot>)
    requires |mbr| == SECTOR && |slots| == 4
    requires forall i :: 0 <= i < 4 ==> slots[i].Fits() && slots[i].Laid(disk, mbr, 446 + i * 16)
    ensures Table(RecordsOf(disk), Entries(mbr)) == SlotRegions(slots)
  {
    forall i | 0 <= i < 4
      ensures Behind(RecordsOf(disk), Entries(mbr)[i]) == slots[i].Regions()
    {
      EntryRoundTrip(mbr, TABLE + i * 16, slots[i].entry);
      PlacedIsHeld(disk, slots[i]);
      SlotRoundTrip(RecordsOf(disk), slots[i]);
    }
    SlotsInOrder(RecordsOf(disk), Entries(mbr), slots);
  }

  /** A record that links to itself is read over and over: only the bound ends the walk. */
  lemma {:induction false} CycleRepeats(records: Records, base: nat, link: nat, links: nat, own: Entry)
    requires records(base + link) == Some(Record(own, Some(link))) && !own.Empty()
    ensures var r := Chain(records, base, base + link, links);
            |r| == links && forall i :: 0 <= i < links ==> [r[i]] == RegionOf(own, base + link)
    decreases links
  {
    if links > 0 {
      CycleRepeats(records, base, link, links - 1, own);
    }
  }
}
