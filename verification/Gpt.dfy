/** GUID partition tables (sections 5.3.2 and 5.3.3 of the UEFI Specification). */
module Gpt {
  import opened Bytes
  import opened Files
  import opened DiskReaders
  import opened PartitionTables

  const ENTRY_BYTES := 128
  const GUID_BYTES := 16
  const NAME_UNITS := 36
  const NAME_AT := 56

  /** One table entry; its unique GUID and attributes are not used. */
  datatype GptEntry = GptEntry(kind: seq<Byte>, first: nat, last: nat, name: seq<nat>) {
    predicate Used() {
      kind != Zeros(GUID_BYTES) && first <= last
    }

    predicate Fits() {
      && |kind| == GUID_BYTES && first < U64_LIMIT && last < U64_LIMIT
      && |name| <= NAME_UNITS && (forall i :: 0 <= i < |name| ==> 0 < name[i] < 0x1_0000)
    }

    /** The position and size of the partition in bytes are 64-bit numbers. */
    predicate SizeFits() {
      Used() ==> first * SECTOR < U64_LIMIT && (last - first + 1) * SECTOR < U64_LIMIT
    }
  }

  datatype GptPartition = GptPartition(index: nat, start: nat, size: nat, kind: seq<Byte>, name: seq<nat>)

  /** The numbers of the header that say where the table lies. */
  datatype GptHeader = GptHeader(tableLba: nat, count: nat, entrySize: nat) {
    predicate Sound() {
      entrySize >= ENTRY_BYTES && 0 < count <= 1024
    }

    predicate Fits() {
      tableLba < U64_LIMIT && count < U32_LIMIT && entrySize < U32_LIMIT
    }
  }

  // ---------------------------------------------------------------- decoding

  function DecodeHeader(header: seq<Byte>): (h: GptHeader)
    requires |header| == SECTOR
    ensures h.Fits()
  {
    GptHeader(Le64(header, 72), Le32(header, 80), Le32(header, 84))
  }

  function UnitAt(s: seq<Byte>, at: nat): nat
    requires at + 2 <= |s|
  {
    s[at] as int + 0x100 * s[at + 1] as int
  }

  /** The UTF-16 units of the name from unit `k` on, up to the first zero. */
  function NameFrom(entry: seq<Byte>, k: nat): (name: seq<nat>)
    requires |entry| == ENTRY_BYTES && k <= NAME_UNITS
    decreases NAME_UNITS - k, |entry|
  {
    if k == NAME_UNITS || UnitAt(entry, NAME_AT + 2 * k) == 0 then []
    else [UnitAt(entry, NAME_AT + 2 * k)] + NameFrom(entry, k + 1)
  }

  function DecodeEntry(entry: seq<Byte>): GptEntry
    requires |entry| == ENTRY_BYTES
  {
    GptEntry(entry[..GUID_BYTES], Le64(entry, 32), Le64(entry, 40), NameFrom(entry, 0))
  }

  /** Where entry `i` of the table starts. */
  function EntryStart(h: GptHeader, i: nat): nat {
    h.tableLba * SECTOR + i * h.entrySize
  }

  function EntryOn(disk: seq<Byte>, h: GptHeader, i: nat): GptEntry {
    DecodeEntry(Padded(disk, EntryStart(h, i), ENTRY_BYTES))
  }

  /** The first `n` entries of the table. */
  function EntriesOn(disk: seq<Byte>, h: GptHeader, n: nat): (r: seq<GptEntry>)
    ensures |r| == n
    ensures forall i :: 0 <= i < n ==> r[i] == EntryOn(disk, h, i)
  {
    seq(n, (i: nat) => EntryOn(disk, h, i))
  }

  /** The entries in use, in table order. */
  function Used(entries: seq<GptEntry>): seq<GptEntry> {
    if entries == [] then []
    else
      var last := |entries| - 1;
      Used(entries[..last]) + if entries[last].Used() then [entries[last]] else []
  }

  function PartitionOf(e: GptEntry, index: nat): GptPartition
    requires e.Used()
  {
    GptPartition(index, e.first * SECTOR, (e.last - e.first + 1) * SECTOR, e.kind, e.name)
  }

  /** The list holds one partition for each entry in use, numbered in order. */
  ghost predicate Lists(list: seq<GptPartition>, entries: seq<GptEntry>) {
    var used := Used(entries);
    && |list| == |used|
    && forall i :: 0 <= i < |used| ==> used[i].Used() && list[i] == PartitionOf(used[i], i)
  }

  // ---------------------------------------------------------------- reading

  /** The sectors read always cover the table, so no entry is cut off by the length of the buffer. */
  lemma TableCovered(h: GptHeader, i: nat)
    requires h.Sound() && i < h.count
    ensures i * h.entrySize + ENTRY_BYTES <= DivCeil(h.count * h.entrySize, SECTOR) * SECTOR
  {
    DivCeilCovers(h.count * h.entrySize, SECTOR);
    MulMonotone(i + 1, h.count, h.entrySize);
    assert (i + 1) * h.entrySize == i * h.entrySize + h.entrySize;
  }

  lemma EntryInTable(disk: seq<Byte>, h: GptHeader, i: nat)
    requires h.Sound() && i < h.count
    ensures var size := DivCeil(h.count * h.entrySize, SECTOR) * SECTOR;
            var table := Padded(disk, h.tableLba * SECTOR, size);
            var at := i * h.entrySize;
            at + ENTRY_BYTES <= size && DecodeEntry(table[at..at + ENTRY_BYTES]) == EntryOn(disk, h, i)
  {
    TableCovered(h, i);
    var size := DivCeil(h.count * h.entrySize, SECTOR) * SECTOR;
    PaddedSlice(disk, h.tableLba * SECTOR, size, i * h.entrySize, ENTRY_BYTES);
  }

  lemma PaddedSlice(disk: seq<Byte>, p: nat, size: nat, at: nat, n: nat)
    requires at + n <= size
    ensures Padded(disk, p, size)[at..at + n] == Padded(disk, p + at, n)
  {
  }

  lemma UsedSnoc(entries: seq<GptEntry>, e: GptEntry)
    ensures Used(entries + [e]) == Used(entries) + if e.Used() then [e] else []
  {
    assert (entries + [e])[..|entries|] == entries;
  }

  lemma ListsSnoc(list: seq<GptPartition>, entries: seq<GptEntry>, e: GptEntry)
    requires Lists(list, entries)
    ensures !e.Used() ==> Lists(list, entries + [e])
    ensures e.Used() ==> Lists(list + [PartitionOf(e, |list|)], entries + [e])
  {
    UsedSnoc(entries, e);
    var used := Used(entries);
    if e.Used() {
      var more, longer := used + [e], list + [PartitionOf(e, |list|)];
      assert forall i :: 0 <= i < |used| ==> more[i] == used[i] && longer[i] == list[i];
      assert Used(entries + [e]) == more;
    } else {
      assert Used(entries + [e]) == used + [] == used;
    }
  }

  method PushUsed(list: seq<GptPartition>, e: GptEntry, ghost entries: seq<GptEntry>)
    returns (extended: seq<GptPartition>)
    requires Lists(list, entries)
    ensures Lists(extended, entries + [e])
  {
    ListsSnoc(list, entries, e);
    if e.kind == Zeros(GUID_BYTES) {
      return list;
    }
    if e.last < e.first {
      return list;
    }
    return list + [GptPartition(|list|, e.first * SECTOR, (e.last - e.first + 1) * SECTOR, e.kind, e.name)];
  }

  /** The bytes of the table hold these entries, each at its place. */
  ghost predicate Holds(table: seq<Byte>, h: GptHeader, entries: seq<GptEntry>) {
    && |entries| == h.count
    && forall i: nat {:trigger entries[i]} :: i < h.count ==>
         && i * h.entrySize + ENTRY_BYTES <= |table|
         && DecodeEntry(table[i * h.entrySize..i * h.entrySize + ENTRY_BYTES]) == entries[i]
  }

  function TableSectors(h: GptHeader): nat {
    DivCeil(h.count * h.entrySize, SECTOR)
  }

  lemma TableHolds(disk: seq<Byte>, h: GptHeader)
    requires h.Sound()
    ensures Holds(Padded(disk, h.tableLba * SECTOR, TableSectors(h) * SECTOR), h, EntriesOn(disk, h, h.count))
  {
    forall i: nat | i < h.count
      ensures i * h.entrySize + ENTRY_BYTES <= TableSectors(h) * SECTOR
      ensures var table := Padded(disk, h.tableLba * SECTOR, TableSectors(h) * SECTOR);
              DecodeEntry(table[i * h.entrySize..i * h.entrySize + ENTRY_BYTES]) == EntryOn(disk, h, i)
    {
      EntryInTable(disk, h, i);
    }
  }

  /** A disk that shows these bytes in the table's sectors. */
  ghost function DiskWith(table: seq<Byte>, h: GptHeader): (disk: seq<Byte>)
    ensures Padded(disk, h.tableLba * SECTOR, |table|) == table
  {
    Zeros(h.tableLba * SECTOR) + table
  }

  /** Walks over the table that was read; `entries` are its entries as the disk holds them. */
  method ListEntries(table: seq<Byte>, h: GptHeader, ghost entries: seq<GptEntry>) returns (list: seq<GptPartition>)
    requires h.Sound() && Holds(table, h, entries)
    ensures Lists(list, entries)
  {
    list := [];
    for i := 0 to h.count
      invariant Lists(list, entries[..i])
    {
      assert entries[i] == entries[i];
      assert entries[..i + 1] == entries[..i] + [entries[i]];
      var start := i * h.entrySize;
      if start + ENTRY_BYTES > |table| {
        break;
      }
      list := PushUsed(list, DecodeEntry(table[start..start + ENTRY_BYTES]), entries[..i]);
    }
    assert entries[..h.count] == entries;
  }

  method ReadGpt(driver: DiskReader, header: seq<Byte>) returns (r: Result<seq<GptPartition>, IoError>)
    requires driver.Valid() && |header| == SECTOR
    requires var h := DecodeHeader(header);
             h.Sound() ==>
               && EntryStart(h, h.count) + SECTOR <= U64_LIMIT
               && forall i: nat :: i < h.count ==> EntryOn(driver.bytes, h, i).SizeFits()
    modifies driver, driver.repr
    ensures driver.Valid() && Kept(old(driver.broken), driver.broken, r)
    ensures r.Ok? ==> var h := DecodeHeader(header); h.entrySize >= 128 && 0 < h.count <= 1024
    ensures r.Ok? && !driver.broken ==> Lists(r.value, EntriesOn(driver.bytes, DecodeHeader(header), DecodeHeader(header).count))
    ensures old(driver.Undisturbed()) && driver.backend.Image().Serves(TableSectors(DecodeHeader(header)) * SECTOR) ==>
              (r.Ok? <==> var h := DecodeHeader(header); h.entrySize >= 128 && 0 < h.count <= 1024)
  {
    var h := DecodeHeader(header);
    if h.entrySize < ENTRY_BYTES || h.count == 0 || h.count > 1024 {
      return Err(InvalidInput);
    }
    var table := ReadBlocks(driver, h.tableLba, TableSectors(h));
    if table.Err? {
      return Err(table.error);
    }
    ghost var disk := if driver.broken then DiskWith(table.value, h) else driver.bytes;
    TableHolds(disk, h);
    var list := ListEntries(table.value, h, EntriesOn(disk, h, h.count));
    return Ok(list);
  }

  // ---------------------------------------------------------------- laying a table out

  function EncodeName(name: seq<nat>): (s: seq<Byte>)
    ensures |s| == 2 * |name|
  {
    if name == [] then [] else LeBytes(name[0], 2) + EncodeName(name[1..])
  }

  /** An entry as the format lays it out; the unique GUID and the attributes may be anything. */
  function EncodeEntry(e: GptEntry, unique: seq<Byte>, attributes: seq<Byte>): (s: seq<Byte>)
    requires e.Fits() && |unique| == GUID_BYTES && |attributes| == 8
    ensures |s| == ENTRY_BYTES
  {
    e.kind + unique + LeBytes(e.first, 8) + LeBytes(e.last, 8) + attributes
    + (EncodeName(e.name) + Zeros(2 * (NAME_UNITS - |e.name|)))
  }

  lemma {:induction false} NameRoundTrip(entry: seq<Byte>, name: seq<nat>, k: nat)
    requires |entry| == ENTRY_BYTES && k + |name| <= NAME_UNITS
    requires forall i :: 0 <= i < |name| ==> 0 < name[i] < 0x1_0000
    requires entry[NAME_AT + 2 * k..] == EncodeName(name) + Zeros(2 * (NAME_UNITS - k - |name|))
    ensures NameFrom(entry, k) == name
    decreases |name|
  {
    var at := NAME_AT + 2 * k;
    if name == [] {
      if k < NAME_UNITS {
        assert entry[at] == entry[at..][0] == 0 && entry[at + 1] == entry[at..][1] == 0;
      }
    } else {
      UnitRoundTrip(name[0]);
      var unit := LeBytes(name[0], 2);
      var rest := EncodeName(name[1..]) + Zeros(2 * (NAME_UNITS - k - |name|));
      assert entry[at..] == unit + rest;
      assert entry[at] == entry[at..][0] == unit[0] && entry[at + 1] == entry[at..][1] == unit[1];
      assert entry[at + 2..] == entry[at..][2..] == rest;
      NameRoundTrip(entry, name[1..], k + 1);
    }
  }

  lemma UnitRoundTrip(u: nat)
    requires u < 0x1_0000
    ensures UnitAt(LeBytes(u, 2), 0) == u
  {
    assert LeBytes(u, 2) == [u % 256] + LeBytes(u / 256, 1);
    assert LeBytes(u / 256, 1) == [u / 256 % 256] + LeBytes(u / 256 / 256, 0);
  }

  lemma EntryFields(kind: seq<Byte>, unique: seq<Byte>, first: seq<Byte>, last: seq<Byte>, attributes: seq<Byte>,
                    name: seq<Byte>)
    requires |kind| == |unique| == GUID_BYTES && |first| == |last| == |attributes| == 8 && |name| == 2 * NAME_UNITS
    ensures var s := kind + unique + first + last + attributes + name;
            s[..16] == kind && s[32..40] == first && s[40..48] == last && s[NAME_AT..] == name
  {
  }

  lemma EntryRoundTrip(e: GptEntry, unique: seq<Byte>, attributes: seq<Byte>)
    requires e.Fits() && |unique| == GUID_BYTES && |attributes| == 8
    ensures DecodeEntry(EncodeEntry(e, unique, attributes)) == e
  {
    var s := EncodeEntry(e, unique, attributes);
    var name := EncodeName(e.name) + Zeros(2 * (NAME_UNITS - |e.name|));
    EntryFields(e.kind, unique, LeBytes(e.first, 8), LeBytes(e.last, 8), attributes, name);
    Le64RoundTrip(s, 32, e.first);
    Le64RoundTrip(s, 40, e.last);
    NameRoundTrip(s, e.name, 0);
  }

  /** Entry `i` of the table on the disk is `e`. */
  ghost predicate EntryLaid(disk: seq<Byte>, h: GptHeader, i: nat, e: GptEntry) {
    e.Fits() && exists unique: seq<Byte>, attributes: seq<Byte> ::
      && |unique| == GUID_BYTES && |attributes| == 8
      && Padded(disk, h.tableLba * 512 + i * h.entrySize, 128) == EncodeEntry(e, unique, attributes)
  }

  lemma EntryRead(disk: seq<Byte>, h: GptHeader, i: nat, e: GptEntry, at: nat)
    requires EntryLaid(disk, h, i, e) && at == h.tableLba * 512 + i * h.entrySize
    ensures DecodeEntry(Padded(disk, at, 128)) == e
  {
    var unique, attributes :| |unique| == GUID_BYTES && |attributes| == 8
      && Padded(disk, h.tableLba * 512 + i * h.entrySize, 128) == EncodeEntry(e, unique, attributes);
    EntryRoundTrip(e, unique, attributes);
  }

  /** A table laid out on a disk is read back entry by entry. */
  lemma TableRoundTrip(disk: seq<Byte>, h: GptHeader, entries: seq<GptEntry>)
    requires forall i: nat :: i < |entries| ==> EntryLaid(disk, h, i, entries[i])
    ensures EntriesOn(disk, h, |entries|) == entries
  {
    forall i: nat | i < |entries|
      ensures EntryOn(disk, h, i) == entries[i]
    {
      EntryRead(disk, h, i, entries[i], EntryStart(h, i));
    }
  }

  lemma HeaderRoundTrip(header: seq<Byte>, h: GptHeader)
    requires |header| == SECTOR && h.Fits()
    requires header[72..80] == LeBytes(h.tableLba, 8)
    requires header[80..84] == LeBytes(h.count, 4)
    requires header[84..88] == LeBytes(h.entrySize, 4)
    ensures DecodeHeader(header) == h
  {
    Le64RoundTrip(header, 72, h.tableLba);
    Le32RoundTrip(header, 80, h.count);
    Le32RoundTrip(header, 84, h.entrySize);
  }

  /** Exactly the entries in use are kept, each as often as it occurs. */
  lemma {:induction false} UsedExactly(entries: seq<GptEntry>, e: GptEntry)
    ensures multiset(Used(entries))[e] == if e.Used() then multiset(entries)[e] else 0
  {
    if entries != [] {
      var last := |entries| - 1;
      UsedExactly(entries[..last], e);
      assert entries == entries[..last] + [entries[last]];
    }
  }

  // ---------------------------------------------------------------- what the list says

  /** An entry with a type, and a last block not before its first. */
  predicate InUse(e: GptEntry) {
    (exists i :: 0 <= i < |e.kind| && e.kind[i] != 0) && e.first <= e.last
  }

  /** The partition is that of this entry: from the start of its first block to the end of its last one. */
  predicate IsPartOf(p: GptPartition, e: GptEntry) {
    p.start == e.first * 512 && p.start + p.size == e.last * 512 + 512 && p.kind == e.kind && p.name == e.name
  }

  lemma InUseExactly(e: GptEntry)
    requires |e.kind| == 16
    ensures e.Used() <==> InUse(e)
  {
    if !InUse(e) && e.first <= e.last {
      assert e.kind == Zeros(16);
    }
  }

  /** `at` leads from each partition of the list to its entry, in order, and leaves no entry in use out. */
  ghost predicate Matches(list: seq<GptPartition>, entries: seq<GptEntry>, at: seq<nat>) {
    && |at| == |list|
    && (forall k :: 0 <= k < |list| ==>
          at[k] < |entries| && InUse(entries[at[k]]) && list[k].index == k && IsPartOf(list[k], entries[at[k]]))
    && (forall j, k :: 0 <= j < k < |at| ==> at[j] < at[k])
    && (forall i :: 0 <= i < |entries| && InUse(entries[i]) ==> i in at)
  }

  lemma MatchesSnoc(list: seq<GptPartition>, entries: seq<GptEntry>, at: seq<nat>, e: GptEntry, p: GptPartition)
    requires Matches(list, entries, at)
    ensures !InUse(e) ==> Matches(list, entries + [e], at)
    ensures InUse(e) && p.index == |list| && IsPartOf(p, e) ==> Matches(list + [p], entries + [e], at + [|entries|])
  {
    var more := at + [|entries|];
    assert forall k :: 0 <= k < |at| ==> (entries + [e])[at[k]] == entries[at[k]] && more[k] == at[k];
    assert more[|at|] == |entries|;
  }

  /** The last partition of a list is that of the last entry, if that is in use. */
  lemma ListsLast(list: seq<GptPartition>, front: seq<GptEntry>, e: GptEntry)
    requires Lists(list, front + [e])
    ensures !e.Used() ==> Lists(list, front)
    ensures e.Used() ==>
              && list != [] && Lists(list[..|list| - 1], front)
              && list[|list| - 1] == PartitionOf(e, |list| - 1)
  {
    UsedSnoc(front, e);
    var used, all := Used(front), Used(front + [e]);
    if e.Used() {
      assert all == used + [e];
      forall i | 0 <= i < |used| ensures used[i].Used() && list[..|list| - 1][i] == PartitionOf(used[i], i) {
        assert all[i] == used[i];
      }
      assert all[|list| - 1] == e;
    } else {
      assert all == used + [] == used;
    }
  }

  /** The list holds the partition of every entry in use, in table order, numbered from zero. */
  lemma {:induction false} ListMatches(list: seq<GptPartition>, entries: seq<GptEntry>) returns (at: seq<nat>)
    requires Lists(list, entries) && forall i :: 0 <= i < |entries| ==> |entries[i].kind| == 16
    ensures Matches(list, entries, at)
    decreases |entries|
  {
    if entries == [] {
      at := [];
    } else {
      var last := |entries| - 1;
      var front, e := entries[..last], entries[last];
      assert entries == front + [e];
      InUseExactly(e);
      ListsLast(list, front, e);
      if e.Used() {
        var shorter, p := list[..|list| - 1], list[|list| - 1];
        at := ListMatches(shorter, front);
        MatchesSnoc(shorter, front, at, e, p);
        assert list == shorter + [p];
        at := at + [last];
      } else {
        at := ListMatches(list, front);
        MatchesSnoc(list, front, at, e, GptPartition(0, 0, 0, [], []));
      }
    }
  }

  /** Reading a disk on which a table is laid out lists the partitions of its entries. */
  lemma LaidTableListed(disk: seq<Byte>, h: GptHeader, entries: seq<GptEntry>, list: seq<GptPartition>)
    returns (at: seq<nat>)
    requires |entries| == h.count && forall i: nat :: i < |entries| ==> EntryLaid(disk, h, i, entries[i])
    requires Lists(list, EntriesOn(disk, h, h.count))
    ensures Matches(list, entries, at)
  {
    TableRoundTrip(disk, h, entries);
    forall i | 0 <= i < |entries| ensures |entries[i].kind| == 16 {
      assert EntryLaid(disk, h, i, entries[i]);
    }
    at := ListMatches(list, entries);
  }
}
