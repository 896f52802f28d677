/**
 * A seekable view of a stretch of the virtual disk, read through a cache of aligned
 * chunks kept in least-recently-used order.
 */
module VirtualDisks {
  import opened Bytes
  import opened Files
  import opened DiskReaders
  import opened Lru
  import SparseExtents

  const CACHE_BYTES := 64 * 1024 * 1024

  datatype Entry = Entry(index: nat, data: seq<Byte>)

  datatype SeekFrom = Start(p: nat) | End(d: int) | Current(d: int)

  function CacheKeys(cache: seq<Entry>): (keys: seq<nat>)
    ensures |keys| == |cache|
    ensures forall p :: 0 <= p < |cache| ==> keys[p] == cache[p].index
  {
    seq<nat>(|cache|, p requires 0 <= p < |cache| => cache[p].index)
  }

  function CachedBytes(cache: seq<Entry>): nat {
    if cache == [] then 0 else |cache[0].data| + CachedBytes(cache[1..])
  }

  /** About 64 MiB worth of chunks, but between 4 and 512 of them. */
  function MaxChunks(chunkSize: nat): (n: nat)
    requires chunkSize > 0
    ensures 4 <= n <= 512
  {
    Max(4, Min(512, CACHE_BYTES / chunkSize))
  }

  lemma {:induction false} CachedBytesBound(cache: seq<Entry>, chunkSize: nat)
    requires forall p :: 0 <= p < |cache| ==> |cache[p].data| <= chunkSize
    ensures CachedBytes(cache) <= |cache| * chunkSize
  {
    if cache != [] {
      CachedBytesBound(cache[1..], chunkSize);
      assert |cache| * chunkSize == chunkSize + |cache[1..]| * chunkSize;
    }
  }

  lemma MaxChunksBound(n: nat, chunkSize: nat)
    requires chunkSize > 0 && n <= MaxChunks(chunkSize)
    ensures n * chunkSize <= Max(CACHE_BYTES, 4 * chunkSize)
  {
    if n <= 4 {
      MulMonotone(n, 4, chunkSize);
    } else {
      MulMonotone(n, CACHE_BYTES / chunkSize, chunkSize);
      assert CACHE_BYTES / chunkSize * chunkSize <= CACHE_BYTES;
    }
  }

  /** The cache holds the most chunks that fit 64 MiB, but four at least and 512 at most. */
  lemma MaxChunksExactly(n: nat, chunkSize: nat)
    requires chunkSize > 0
    ensures n <= MaxChunks(chunkSize) <==> n <= 4 || (n <= 512 && n * chunkSize <= 64 * 1024 * 1024)
  {
    var most := CACHE_BYTES / chunkSize;
    assert most * chunkSize <= CACHE_BYTES < (most + 1) * chunkSize;
    if n <= most {
      MulMonotone(n, most, chunkSize);
    } else {
      MulMonotone(most + 1, n, chunkSize);
    }
  }

  /** The smallest power of two that is at least `n`. */
  function NextPowerOfTwo(n: nat, from: nat): (p: nat)
    requires SparseExtents.IsPowerOfTwo(from)
    requires from == 1 || from / 2 < n
    ensures SparseExtents.IsPowerOfTwo(p) && p >= n
    ensures p == 1 || p / 2 < n
    decreases n - from
  {
    if from >= n then from else NextPowerOfTwo(n, 2 * from)
  }

  /** The bytes a view shows: its stretch of the disk, cut off at the virtual size. */
  function ViewOf(disk: seq<Byte>, base: nat, length: nat): seq<Byte> {
    Padded(disk, base, Max(0, Min(length, |disk| - base)))
  }

  function ChunkStart(base: nat, chunkSize: nat, i: nat): nat {
    base + i * chunkSize
  }

  /** Chunk `i` of a view: aligned to the view's base, cut off at the virtual size. */
  function ChunkOf(disk: seq<Byte>, base: nat, chunkSize: nat, i: nat): (s: seq<Byte>)
    ensures |s| <= chunkSize
  {
    var start := ChunkStart(base, chunkSize, i);
    Padded(disk, start, Max(0, Min(chunkSize, |disk| - start)))
  }

  function NewPosition(from: SeekFrom, length: nat, position: nat): int {
    match from
    case Start(p) => p
    case End(d) => length + d
    case Current(d) => position + d
  }

  /** The data have the length of the chunk, and are the chunk if the driver can be trusted. */
  predicate Stands(data: seq<Byte>, chunk: seq<Byte>, trusted: bool) {
    |data| == |chunk| && (trusted ==> data == chunk)
  }

  /** Each cached chunk stands for the disk's, and the keys are in least-recently-used order. */
  ghost predicate Coherent(cache: seq<Entry>, trace: seq<nat>, cap: nat, disk: seq<Byte>, base: nat, chunkSize: nat,
                           trusted: bool)
  {
    && CacheKeys(cache) == Keys(trace, cap)
    && forall p :: 0 <= p < |cache| ==>
         Stands(cache[p].data, ChunkOf(disk, base, chunkSize, cache[p].index), trusted)
  }

  class VirtualDisk {
    const driver: DiskReader
    const base: nat
    const length: nat
    const chunkSize: nat
    const maxChunks: nat
    var position: nat
    var cache: seq<Entry>
    /** Every chunk access that succeeded, in order. */
    ghost var trace: seq<nat>

    constructor (driver: DiskReader, base: nat, length: nat, chunkSize: nat)
      requires driver.Valid() && chunkSize <= U64_LIMIT / 2 && base + length <= U64_LIMIT
      ensures Valid() && this.driver == driver && this.base == base && this.length == length
      ensures position == 0 && trace == []
      ensures chunkSize <= 512 ==> this.chunkSize == 512
      ensures chunkSize <= this.chunkSize < U64_LIMIT && this.chunkSize < 2 * Max(chunkSize, 512)
    {
      var rounded := NextPowerOfTwo(Max(chunkSize, 512), 1);
      RoundUp(chunkSize, rounded);
      this.driver := driver;
      this.base := base;
      this.length := length;
      this.chunkSize := rounded;
      this.maxChunks := MaxChunks(rounded);
      position := 0;
      cache := [];
      trace := [];
    }

    /** Every address in the view has 64 bits, and the cache is coherent with the disk. */
    ghost predicate Valid()
      reads this, driver, driver.repr
    {
      && this !in driver.repr && driver.Valid()
      && chunkSize >= 512 && SparseExtents.IsPowerOfTwo(chunkSize)
      && maxChunks == MaxChunks(chunkSize)
      && base + length <= U64_LIMIT
      && Coherent(cache, trace, maxChunks, driver.bytes, base, chunkSize, !driver.broken)
    }

    ghost function View(): seq<Byte> {
      ViewOf(driver.bytes, base, length)
    }

    /** What every state of the cache satisfies, seen through the trace. */
    lemma CacheBounded()
      requires Valid()
      ensures |cache| <= maxChunks
      ensures CachedBytes(cache) <= Max(CACHE_BYTES, 4 * chunkSize)
    {
      KeysAreMostRecent(trace, maxChunks);
      CachedBytesBound(cache, chunkSize);
      MaxChunksBound(|cache|, chunkSize);
    }

    /** Moves the `p`-th entry to the front. */
    method Promote(p: nat)
      requires Valid() && p < |cache|
      modifies this`cache, this`trace
      ensures Valid()
      ensures trace == old(trace) + [old(cache[p].index)]
      ensures |cache| > 0 && cache[0] == old(cache[p])
    {
      CoherentHit(cache, trace, maxChunks, driver.bytes, base, chunkSize, !driver.broken, p);
      trace := trace + [cache[p].index];
      cache := [cache[p]] + (cache[..p] + cache[p + 1..]);
    }

    /** Pushes a freshly loaded chunk to the front, evicting the last one of a full cache. */
    method Insert(entry: Entry)
      requires Valid() && forall q :: 0 <= q < |cache| ==> cache[q].index != entry.index
      requires Stands(entry.data, ChunkOf(driver.bytes, base, chunkSize, entry.index), !driver.broken)
      modifies this`cache, this`trace
      ensures Valid()
      ensures trace == old(trace) + [entry.index]
      ensures |cache| > 0 && cache[0] == entry
      ensures entry.index !in CacheKeys(old(cache))
    {
      CoherentMiss(cache, trace, maxChunks, driver.bytes, base, chunkSize, !driver.broken, entry);
      if |cache| >= maxChunks {
        cache := cache[..|cache| - 1];
      }
      cache := [entry] + cache;
      trace := trace + [entry.index];
    }

    /** Puts chunk `index` at the front of the cache, loading it when it is not there. */
    method Touch(index: nat) returns (r: Result<bool, IoError>)
      requires Valid()
      modifies this`cache, this`trace, driver, driver.repr
      ensures Valid() && Kept(old(driver.broken), driver.broken, r)
      ensures r.Ok? ==>
                && trace == old(trace) + [index]
                && |cache| > 0 && cache[0].index == index
                && Stands(cache[0].data, ChunkOf(driver.bytes, base, chunkSize, index), !driver.broken)
                && (r.value <==> index in old(trace) && |Elements(After(old(trace), index))| < maxChunks)
                && driver.cacheHits == old(driver.cacheHits) + (if r.value then 1 else 0)
      ensures r.Err? ==> cache == old(cache) && trace == old(trace) && driver.cacheHits == old(driver.cacheHits)
      ensures old(driver.Steady()) ==> driver.Steady()
      ensures old(driver.Undisturbed()) ==>
                driver.Undisturbed() && (driver.backend.Image().Serves(chunkSize) ==> r.Ok?)
    {
      var p := IndexOf(cache, index);
      HitExactly(trace, maxChunks, index);
      if p < |cache| {
        assert CacheKeys(cache)[p] == index;
        TouchCached(p);
        return Ok(true);
      }
      assert index !in CacheKeys(cache);
      var loaded := LoadMissing(index);
      return if loaded.Ok? then Ok(false) else Err(loaded.error);
    }

    /** Moves a chunk that is in the cache to the front, and counts the hit. */
    method TouchCached(p: nat)
      requires Valid() && p < |cache|
      modifies this`cache, this`trace, driver`cacheHits
      ensures Valid() && driver.cacheHits == old(driver.cacheHits) + 1
      ensures trace == old(trace) + [old(cache[p].index)] && |cache| > 0 && cache[0] == old(cache[p])
    {
      Promote(p);
      driver.RecordCacheHit();
    }

    /** Loads a chunk that is not in the cache, and puts it at the front. */
    method LoadMissing(index: nat) returns (r: Result<(), IoError>)
      requires Valid() && forall q :: 0 <= q < |cache| ==> cache[q].index != index
      modifies this`cache, this`trace, driver, driver.repr
      ensures Valid() && Kept(old(driver.broken), driver.broken, r) && driver.cacheHits == old(driver.cacheHits)
      ensures r.Ok? ==>
                && trace == old(trace) + [index]
                && |cache| > 0 && cache[0].index == index
                && Stands(cache[0].data, ChunkOf(driver.bytes, base, chunkSize, index), !driver.broken)
      ensures r.Err? ==> cache == old(cache) && trace == old(trace)
      ensures old(driver.Steady()) ==> driver.Steady()
      ensures old(driver.Undisturbed()) ==>
                driver.Undisturbed() && (driver.backend.Image().Serves(chunkSize) ==> r.Ok?)
    {
      var data := Load(index);
      if data.Err? {
        return Err(data.error);
      }
      Insert(Entry(index, data.value));
      return Ok(());
    }

    /** Reads one chunk from the driver; a chunk that starts past the disk is empty. */
    method Load(index: nat) returns (r: Result<seq<Byte>, IoError>)
      requires Valid()
      modifies driver, driver.repr
      ensures Valid() && Kept(old(driver.broken), driver.broken, r) && driver.cacheHits == old(driver.cacheHits)
      ensures r.Ok? ==> Stands(r.value, ChunkOf(driver.bytes, base, chunkSize, index), !driver.broken)
      ensures old(driver.Steady()) ==> driver.Steady()
      ensures old(driver.Undisturbed()) ==>
                driver.Undisturbed() && (driver.backend.Image().Serves(chunkSize) ==> r.Ok?)
    {
      var abs := ChunkStart(base, chunkSize, index);
      var totalVirtual := driver.virtualSize;
      if abs >= totalVirtual {
        return Ok([]);
      }
      var buf := new Byte[Min(chunkSize, totalVirtual - abs)](_ => 0);
      var e := driver.FillRange(abs, buf);
      if e.Err? {
        return Err(e.error);
      }
      return Ok(buf[..]);
    }

    /**
     * Copies the view's bytes from `pos` on into `buf` and returns how many there were.
     * An error leaves the cache coherent and the position where it was. Through a session that has
     * been out of step the count is still right.
     */
    method ReadWithCache(pos: nat, buf: array<Byte>) returns (r: Result<nat, IoError>)
      requires Valid() && buf !in driver.repr
      modifies this`cache, this`trace, driver, driver.repr, buf
      ensures Valid() && Kept(old(driver.broken), driver.broken, r)
      ensures r.Ok? ==> r.value == Max(0, Min(buf.Length, |View()| - pos))
      ensures r.Ok? && !driver.broken ==> buf[..r.value] == Padded(View(), pos, r.value)
      ensures r.Ok? ==> forall i :: r.value <= i < buf.Length ==> buf[i] == old(buf[i])
      ensures old(driver.Steady()) ==> driver.Steady()
      ensures old(driver.Undisturbed()) ==>
                driver.Undisturbed() && (driver.backend.Image().Serves(chunkSize) ==> r.Ok?)
    {
      if pos >= length || buf.Length == 0 {
        return Ok(0);
      }
      var total := Min(length - pos, buf.Length);
      var transferred := 0;
      while transferred < total
        invariant Valid() && driver.broken == old(driver.broken)
        invariant 0 <= transferred <= total
        invariant transferred > 0 ==> pos + transferred <= |View()|
        invariant !driver.broken ==> forall i :: 0 <= i < transferred ==> buf[i] == ByteAt(View(), pos + i)
        invariant forall i :: transferred <= i < buf.Length ==> buf[i] == old(buf[i])
        invariant old(driver.Steady()) ==> driver.Steady()
        invariant old(driver.Undisturbed()) ==> driver.Undisturbed()
      {
        var n := CopyFromChunk(pos + transferred, buf, transferred, total);
        if n.Err? {
          return Err(n.error);
        }
        if n.value == 0 {
          break;
        }
        transferred := transferred + n.value;
      }
      if !driver.broken {
        IsPadded(buf[..transferred], View(), pos);
      }
      return Ok(transferred);
    }

    /** One step of `ReadWithCache`: copies what the chunk that holds `current` has for `buf[lo..hi]`. */
    method CopyFromChunk(current: nat, buf: array<Byte>, lo: nat, hi: nat) returns (r: Result<nat, IoError>)
      requires Valid() && buf !in driver.repr
      requires lo < hi <= buf.Length && current + (hi - lo) <= length
      modifies this`cache, this`trace, driver, driver.repr, buf
      ensures Valid() && Kept(old(driver.broken), driver.broken, r)
      ensures r.Ok? ==> r.value <= hi - lo
      ensures r.Ok? ==> if r.value == 0 then current >= |View()| else current + r.value <= |View()|
      ensures r.Ok? && !driver.broken ==>
                forall i :: lo <= i < lo + r.value ==> buf[i] == ByteAt(View(), current + (i - lo))
      ensures r.Ok? ==> forall i :: 0 <= i < buf.Length && !(lo <= i < lo + r.value) ==> buf[i] == old(buf[i])
      ensures old(driver.Steady()) ==> driver.Steady()
      ensures old(driver.Undisturbed()) ==>
                driver.Undisturbed() && (driver.backend.Image().Serves(chunkSize) ==> r.Ok?)
    {
      var chunkIndex := SparseExtents.Quotient(current, chunkSize);
      var within := SparseExtents.Remainder(current, chunkSize);
      ChunkHolds(base, chunkSize, current);
      assert ChunkStart(base, chunkSize, chunkIndex) < U64_LIMIT;
      var hit := Touch(chunkIndex);
      if hit.Err? {
        return Err(hit.error);
      }
      ChunkInView(driver.bytes, base, length, chunkSize, current);
      StandsIn(cache[0].data, ChunkOf(driver.bytes, base, chunkSize, chunkIndex), !driver.broken, within, View(), current, length);
      var n := CopyRun(cache[0].data, within, buf, lo, hi, View(), current, length, !driver.broken);
      return Ok(n);
    }

    method Read(buf: array<Byte>) returns (r: Result<nat, IoError>)
      requires Valid() && buf !in driver.repr
      modifies this, driver, driver.repr, buf
      ensures Valid() && Kept(old(driver.broken), driver.broken, r)
      ensures r.Ok? ==> r.value == Max(0, Min(buf.Length, |View()| - old(position)))
      ensures r.Ok? && !driver.broken ==> buf[..r.value] == Padded(View(), old(position), r.value)
      ensures r.Ok? ==> forall i :: r.value <= i < buf.Length ==> buf[i] == old(buf[i])
      ensures position == old(position) + if r.Ok? then r.value else 0
      ensures old(driver.Steady()) ==> driver.Steady()
      ensures old(driver.Undisturbed()) ==>
                driver.Undisturbed() && (driver.backend.Image().Serves(chunkSize) ==> r.Ok?)
    {
      r := ReadWithCache(position, buf);
      if r.Ok? {
        position := position + r.value;
      }
    }

    /** Moves the position; the 128-bit sum is cut to 64 bits once it is known not to be negative. */
    method Seek(from: SeekFrom) returns (r: Result<nat, IoError>)
      requires Valid()
      modifies this`position
      ensures Valid()
      ensures r.Err? <==> NewPosition(from, length, old(position)) < 0
      ensures r.Ok? ==> r.value == position == NewPosition(from, length, old(position)) % U64_LIMIT
      ensures r.Err? ==> position == old(position)
    {
      var target := NewPosition(from, length, position);
      if target < 0 {
        return Err(InvalidInput);
      }
      position := target % U64_LIMIT;
      return Ok(position);
    }
  }

  lemma IsPadded(s: seq<Byte>, view: seq<Byte>, pos: nat)
    requires forall i :: 0 <= i < |s| ==> s[i] == ByteAt(view, pos + i)
    ensures s == Padded(view, pos, |s|)
  {
  }

  /** Position of the entry with this index, or the length of the cache. */
  method IndexOf(cache: seq<Entry>, index: nat) returns (p: nat)
    ensures p <= |cache|
    ensures p < |cache| ==> cache[p].index == index
    ensures forall q :: 0 <= q < p ==> cache[q].index != index
  {
    p := 0;
    while p < |cache| && cache[p].index != index
      invariant 0 <= p <= |cache|
      invariant forall q :: 0 <= q < p ==> cache[q].index != index
    {
      p := p + 1;
    }
  }

  lemma RoundUp(chunkSize: nat, rounded: nat)
    requires chunkSize <= U64_LIMIT / 2
    requires SparseExtents.IsPowerOfTwo(rounded)
    requires rounded >= Max(chunkSize, 512) && (rounded == 1 || rounded / 2 < Max(chunkSize, 512))
    ensures rounded < U64_LIMIT && (chunkSize <= 512 ==> rounded == 512)
  {
    assert rounded % 2 == 0;
    if chunkSize <= 512 {
      Between512(rounded);
    }
  }

  lemma Between512(p: nat)
    requires SparseExtents.IsPowerOfTwo(p) && 512 <= p < 1024
    ensures p == 512
  {
    assert SparseExtents.IsPowerOfTwo(p / 2);
    assert SparseExtents.IsPowerOfTwo(p / 4);
    assert SparseExtents.IsPowerOfTwo(p / 8);
    assert SparseExtents.IsPowerOfTwo(p / 16);
    assert SparseExtents.IsPowerOfTwo(p / 32);
    assert SparseExtents.IsPowerOfTwo(p / 64);
    assert SparseExtents.IsPowerOfTwo(p / 128);
    assert SparseExtents.IsPowerOfTwo(p / 256);
    assert SparseExtents.IsPowerOfTwo(p / 512);
  }

  /** A hit moves the entry to the front, as touching its key does to the keys. */
  lemma HitMoves(cache: seq<Entry>, trace: seq<nat>, cap: nat, p: nat)
    requires cap > 0 && p < |cache| && CacheKeys(cache) == Keys(trace, cap)
    ensures CacheKeys([cache[p]] + (cache[..p] + cache[p + 1..])) == Keys(trace + [cache[p].index], cap)
    ensures cache[p].index in CacheKeys(cache)
  {
    var keys := CacheKeys(cache);
    KeysStep(trace, keys[p], cap);
    TouchOld(keys, p, cap);
    assert CacheKeys([cache[p]] + (cache[..p] + cache[p + 1..])) == [keys[p]] + (keys[..p] + keys[p + 1..]);
  }

  lemma KeysPushed(cache: seq<Entry>, entry: Entry)
    ensures CacheKeys([entry] + cache) == [entry.index] + CacheKeys(cache)
  {
  }

  /** A miss evicts the last entry of a full cache and pushes the new one in front. */
  lemma MissPushes(cache: seq<Entry>, trace: seq<nat>, cap: nat, entry: Entry)
    requires cap > 0 && CacheKeys(cache) == Keys(trace, cap)
    requires forall p :: 0 <= p < |cache| ==> cache[p].index != entry.index
    ensures |cache| <= cap
    ensures entry.index !in CacheKeys(cache)
    ensures var kept := if |cache| >= cap then cache[..|cache| - 1] else cache;
            CacheKeys([entry] + kept) == Keys(trace + [entry.index], cap)
  {
    var keys, k := CacheKeys(cache), entry.index;
    KeysStep(trace, k, cap);
    assert k !in keys;
    TouchNew(keys, k, cap);
    if |cache| >= cap {
      KeysPushed(cache[..|cache| - 1], entry);
      assert CacheKeys(cache[..|cache| - 1]) == keys[..|cache| - 1];
    } else {
      KeysPushed(cache, entry);
    }
  }

  lemma CoherentHit(cache: seq<Entry>, trace: seq<nat>, cap: nat, disk: seq<Byte>, base: nat, chunkSize: nat,
                    trusted: bool, p: nat)
    requires cap > 0 && p < |cache| && Coherent(cache, trace, cap, disk, base, chunkSize, trusted)
    ensures Coherent([cache[p]] + (cache[..p] + cache[p + 1..]), trace + [cache[p].index], cap, disk, base, chunkSize, trusted)
  {
    HitMoves(cache, trace, cap, p);
    var moved := [cache[p]] + (cache[..p] + cache[p + 1..]);
    forall q | 0 <= q < |moved|
      ensures Stands(moved[q].data, ChunkOf(disk, base, chunkSize, moved[q].index), trusted)
    {
      var at := if q == 0 then p else if q - 1 < p then q - 1 else q;
      assert moved[q] == cache[at];
    }
  }

  lemma CoherentMiss(cache: seq<Entry>, trace: seq<nat>, cap: nat, disk: seq<Byte>, base: nat, chunkSize: nat,
                     trusted: bool, entry: Entry)
    requires cap > 0 && Coherent(cache, trace, cap, disk, base, chunkSize, trusted)
    requires forall p :: 0 <= p < |cache| ==> cache[p].index != entry.index
    requires Stands(entry.data, ChunkOf(disk, base, chunkSize, entry.index), trusted)
    ensures |cache| <= cap && entry.index !in CacheKeys(cache)
    ensures var kept := if |cache| >= cap then cache[..|cache| - 1] else cache;
            Coherent([entry] + kept, trace + [entry.index], cap, disk, base, chunkSize, trusted)
  {
    MissPushes(cache, trace, cap, entry);
  }

  /** The view has a position `p`, and if trusted shows `b` there. */
  predicate InView(view: seq<Byte>, p: nat, b: Byte, trusted: bool) {
    p < |view| && (trusted ==> b == view[p])
  }

  /** From `within` on, `data` stands for what the view shows from `pos` on, and it only ends where the view does. */
  ghost predicate Agrees(data: seq<Byte>, within: nat, view: seq<Byte>, pos: nat, length: nat, trusted: bool) {
    && (within >= |data| ==> pos >= |view|)
    && (forall j :: within <= j < |data| && pos + (j - within) < length ==>
          InView(view, pos + (j - within), data[j], trusted))
  }

  lemma StandsIn(data: seq<Byte>, chunk: seq<Byte>, trusted: bool, within: nat, view: seq<Byte>, pos: nat, length: nat)
    requires Stands(data, chunk, trusted) && Agrees(chunk, within, view, pos, length, true)
    ensures Agrees(data, within, view, pos, length, trusted)
  {
    forall j | within <= j < |data| && pos + (j - within) < length
      ensures InView(view, pos + (j - within), data[j], trusted)
    {
      assert InView(view, pos + (j - within), chunk[j], true);
    }
  }

  /** The chunk that holds position `pos` of a view agrees with the view from there on. */
  lemma ChunkInView(disk: seq<Byte>, base: nat, length: nat, chunkSize: nat, pos: nat)
    requires chunkSize > 0 && pos < length
    ensures Agrees(ChunkOf(disk, base, chunkSize, SparseExtents.Quotient(pos, chunkSize)),
                   SparseExtents.Remainder(pos, chunkSize), ViewOf(disk, base, length), pos, length, true)
  {
    ChunkHolds(base, chunkSize, pos);
    var start, within := ChunkStart(base, chunkSize, SparseExtents.Quotient(pos, chunkSize)), SparseExtents.Remainder(pos, chunkSize);
    WindowsAgree(disk, start, Max(0, Min(chunkSize, |disk| - start)), within, base,
                 Max(0, Min(length, |disk| - base)), pos, length);
  }

  lemma ChunkHolds(base: nat, chunkSize: nat, pos: nat)
    requires chunkSize > 0
    ensures base + pos == ChunkStart(base, chunkSize, SparseExtents.Quotient(pos, chunkSize)) + SparseExtents.Remainder(pos, chunkSize)
  {
  }

  /** Two windows on the same disk agree where they overlap. */
  lemma WindowsAgree(disk: seq<Byte>, start: nat, n: nat, within: nat, base: nat, m: nat, pos: nat, length: nat)
    requires base + pos == start + within && (n > 0 ==> start + n <= |disk|)
    requires m == Max(0, Min(length, |disk| - base))
    requires within >= n ==> pos >= m
    ensures Agrees(Padded(disk, start, n), within, Padded(disk, base, m), pos, length, true)
  {
  }

  /** Copies as much of a chunk as `buf[lo..hi]` and the chunk allow. */
  method CopyRun(data: seq<Byte>, within: nat, buf: array<Byte>, lo: nat, hi: nat,
                 ghost view: seq<Byte>, ghost pos: nat, ghost length: nat, ghost trusted: bool) returns (n: nat)
    requires lo < hi <= buf.Length && pos + (hi - lo) <= length
    requires Agrees(data, within, view, pos, length, trusted)
    modifies buf
    ensures n <= hi - lo
    ensures n == 0 ==> pos >= |view|
    ensures n > 0 ==> pos + n <= |view|
    ensures trusted ==> forall i :: lo <= i < lo + n ==> buf[i] == ByteAt(view, pos + (i - lo))
    ensures forall i :: 0 <= i < buf.Length && !(lo <= i < lo + n) ==> buf[i] == old(buf[i])
  {
    if within >= |data| {
      return 0;
    }
    n := Min(hi - lo, |data| - within);
    forall i | lo <= i < lo + n {
      buf[i] := data[within + (i - lo)];
    }
    assert forall i :: lo <= i < lo + n ==> buf[i] == data[within + (i - lo)];
    assert InView(view, pos + (n - 1), data[within + (n - 1)], trusted);
  }
}
