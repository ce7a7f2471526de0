/**
 * Dirty-page tracking, incremental snapshots and memory manifests (src/memory.rs).
 *
 * The f32 average of the access counts is an exact rational here, rounded down where the source casts to u32, and the
 * sum of the counts is not bounded. Addresses are not bounded either.
 */
module Memories {
  import opened Basics
  import opened Model
  import opened Numerals

  const PAGE_SIZE: nat := 4096
  const U32_MAX: nat := 0xFFFF_FFFF

  datatype Algorithm = Uncompressed | LZ4 | Zstd

  /** The two compression libraries and SHA-256, left uninterpreted; compressing may fail. */
  datatype Library = Library(
    compress: (Algorithm, Bytes) -> Option<Bytes>,
    decompress: (Algorithm, Bytes) -> Option<Bytes>,
    hash: Bytes -> Text)
  {
    function Compress(algorithm: Algorithm, data: Bytes): Option<Bytes> {
      if algorithm == Uncompressed then Some(data) else compress(algorithm, data)
    }

    function Decompress(algorithm: Algorithm, data: Bytes): Option<Bytes> {
      if algorithm == Uncompressed then Some(data) else decompress(algorithm, data)
    }

    /** Whatever was compressed can be decompressed. */
    ghost predicate Lossless() {
      forall algorithm, data :: compress(algorithm, data).Some? ==>
        decompress(algorithm, compress(algorithm, data).value) == Some(data)
    }
  }

  datatype MemoryPage = MemoryPage(pageHash: Text, data: Bytes, compression: Algorithm, originalSize: nat)

  /** The compression used for each temperature. */
  datatype Settings = Settings(hot: Algorithm, warm: Algorithm, cold: Algorithm) {
    function For(t: Temperature): Algorithm {
      match t
      case Hot => hot
      case Warm => warm
      case Cold => cold
    }
  }

  datatype SnapshotError = NotFound | CompressionFailed

  datatype Result<T> = Ok(value: T) | Err(error: SnapshotError)

  // ---------- temperature ----------

  function SumTo(counts: seq<nat>, n: nat): nat
    requires n <= |counts|
  {
    if n == 0 then 0 else SumTo(counts, n - 1) + counts[n - 1]
  }

  function Sum(counts: seq<nat>): nat {
    SumTo(counts, |counts|)
  }

  /** An exact rational, rounded down. */
  function Floor(numerator: nat, denominator: nat): nat
    requires denominator > 0
  {
    numerator / denominator
  }

  /** Twice the average count, rounded down and saturated to u32. */
  function HotThreshold(counts: seq<nat>): nat {
    if counts == [] then 0
    else if Floor(2 * Sum(counts), |counts|) < U32_MAX then Floor(2 * Sum(counts), |counts|) else U32_MAX
  }

  /** Half the average count, rounded down and saturated to u32. */
  function WarmThreshold(counts: seq<nat>): nat {
    if counts == [] then 0
    else if Floor(Sum(counts), 2 * |counts|) < U32_MAX then Floor(Sum(counts), 2 * |counts|) else U32_MAX
  }

  /** Pages that are not tracked count as cold. */
  function TemperatureOf(counts: seq<nat>, page: nat): Temperature {
    if page >= |counts| then Cold
    else if counts[page] >= HotThreshold(counts) && counts[page] > 0 then Hot
    else if counts[page] >= WarmThreshold(counts) then Warm
    else Cold
  }

  datatype TemperatureMap = TemperatureMap(hot: set<nat>, warm: set<nat>, cold: set<nat>)

  ghost predicate Classifies(t: TemperatureMap, counts: seq<nat>) {
    && (forall p: nat :: p in t.hot <==> p < |counts| && TemperatureOf(counts, p) == Hot)
    && (forall p: nat :: p in t.warm <==> p < |counts| && TemperatureOf(counts, p) == Warm)
    && (forall p: nat :: p in t.cold <==> p < |counts| && TemperatureOf(counts, p) == Cold)
  }

  /** How the source looks a temperature up again. */
  function LookUp(t: TemperatureMap, page: nat): Temperature {
    if page in t.hot then Hot else if page in t.warm then Warm else Cold
  }

  // ---------- dirty pages ----------

  /** The set positions in ascending order. */
  function DirtyFrom(bits: seq<bool>, start: nat): (dirty: seq<nat>)
    requires start <= |bits|
    ensures forall i :: 0 <= i < |dirty| ==> start <= dirty[i] < |bits| && bits[dirty[i]]
    ensures forall i, j :: 0 <= i < j < |dirty| ==> dirty[i] < dirty[j]
    decreases |bits| - start
  {
    if start == |bits| then []
    else
      var rest := DirtyFrom(bits, start + 1);
      if bits[start] then
        assert forall i :: 1 <= i < |[start] + rest| ==> ([start] + rest)[i] == rest[i - 1];
        [start] + rest
      else rest
  }

  lemma {:induction false} DirtyIsExact(bits: seq<bool>, start: nat, p: nat)
    requires start <= |bits|
    ensures p in DirtyFrom(bits, start) <==> start <= p < |bits| && bits[p]
    decreases |bits| - start
  {
    if start < |bits| {
      DirtyIsExact(bits, start + 1, p);
    }
  }

  class DirtyPageTracker {
    const baseAddr: nat
    const totalSize: nat
    const dirtyBitmap: array<bool>
    const accessCounts: array<nat>

    ghost predicate Valid() {
      dirtyBitmap.Length == accessCounts.Length == totalSize / PAGE_SIZE
    }

    function Bits(): seq<bool>
      reads dirtyBitmap
    {
      dirtyBitmap[..]
    }

    function Counts(): seq<nat>
      reads accessCounts
    {
      accessCounts[..]
    }

    constructor (baseAddr: nat, totalSize: nat)
      ensures Valid() && fresh(dirtyBitmap) && fresh(accessCounts)
      ensures this.baseAddr == baseAddr && this.totalSize == totalSize
      ensures Bits() == seq(totalSize / PAGE_SIZE, _ => false) && Counts() == seq(totalSize / PAGE_SIZE, _ => 0)
    {
      this.baseAddr := baseAddr;
      this.totalSize := totalSize;
      this.dirtyBitmap := new bool[totalSize / PAGE_SIZE](_ => false);
      this.accessCounts := new nat[totalSize / PAGE_SIZE](_ => 0);
    }

    method MarkDirty(page: nat)
      modifies dirtyBitmap
      ensures Bits() == if page < |old(Bits())| then old(Bits())[page := true] else old(Bits())
    {
      if page < dirtyBitmap.Length {
        dirtyBitmap[page] := true;
      }
    }

    method RecordAccess(page: nat)
      modifies accessCounts
      ensures
        Counts() ==
          if page < |old(Counts())| then
            old(Counts())[page :=
              if old(Counts())[page] < U32_MAX then old(Counts())[page] + 1 else old(Counts())[page]]
          else old(Counts())
    {
      if page < accessCounts.Length {
        accessCounts[page] := if accessCounts[page] < U32_MAX then accessCounts[page] + 1 else accessCounts[page];
      }
    }

    function GetDirtyPages(): (dirty: seq<nat>)
      reads dirtyBitmap
      ensures dirty == DirtyFrom(Bits(), 0)
    {
      DirtyFrom(Bits(), 0)
    }

    method ClearDirty()
      modifies dirtyBitmap
      ensures Bits() == seq(|old(Bits())|, _ => false)
    {
      forall i | 0 <= i < dirtyBitmap.Length {
        dirtyBitmap[i] := false;
      }
    }

    method ClassifyTemperature() returns (t: TemperatureMap)
      requires Valid()
      ensures Classifies(t, Counts())
    {
      var hotThreshold, warmThreshold := HotThreshold(Counts()), WarmThreshold(Counts());
      var hot: set<nat>, warm: set<nat>, cold: set<nat> := {}, {}, {};
      for i := 0 to accessCounts.Length
        invariant forall p: nat :: p in hot <==> p < i && TemperatureOf(Counts(), p) == Hot
        invariant forall p: nat :: p in warm <==> p < i && TemperatureOf(Counts(), p) == Warm
        invariant forall p: nat :: p in cold <==> p < i && TemperatureOf(Counts(), p) == Cold
      {
        var count := accessCounts[i];
        if count >= hotThreshold && count > 0 {
          hot := hot + {i};
        } else if count >= warmThreshold {
          warm := warm + {i};
        } else {
          cold := cold + {i};
        }
      }
      t := TemperatureMap(hot, warm, cold);
    }
  }

  /** The three classes are disjoint and cover all pages, and looking a page up finds its class. */
  lemma ClassesPartitionPages(t: TemperatureMap, counts: seq<nat>)
    requires Classifies(t, counts)
    ensures t.hot !! t.warm !! t.cold && t.hot + t.warm + t.cold == Interval(0, |counts|)
    ensures forall p: nat :: LookUp(t, p) == TemperatureOf(counts, p)
  {
  }

  /** Which of the first n pages have at least k accesses. */
  ghost function AtLeast(counts: seq<nat>, n: nat, k: nat): (pages: set<nat>)
    requires n <= |counts|
    ensures forall p: nat :: p in pages <==> p < n && counts[p] >= k
  {
    if n == 0 then {} else AtLeast(counts, n - 1, k) + if counts[n - 1] >= k then {n - 1} else {}
  }

  /** k for each of n. */
  function Cost(n: nat, k: nat): nat {
    n * k
  }

  lemma CostOfOneMore(n: nat, k: nat)
    ensures Cost(n + 1, k) == Cost(n, k) + k && Cost(0, k) == 0
  {
  }

  lemma {:induction false} AtLeastBudget(counts: seq<nat>, n: nat, k: nat)
    requires n <= |counts|
    ensures Cost(|AtLeast(counts, n, k)|, k) <= SumTo(counts, n)
  {
    CostOfOneMore(0, k);
    hide Cost;
    if n > 0 {
      AtLeastBudget(counts, n - 1, k);
      CostOfOneMore(|AtLeast(counts, n - 1, k)|, k);
    }
  }

  /** Heat is scarce: hot pages together need their threshold (at least one) times their number in accesses. */
  lemma HotPagesAreBudgeted(t: TemperatureMap, counts: seq<nat>)
    requires Classifies(t, counts)
    ensures |t.hot| * (if HotThreshold(counts) > 1 then HotThreshold(counts) else 1) <= Sum(counts)
  {
    var price := if HotThreshold(counts) > 1 then HotThreshold(counts) else 1;
    assert t.hot == AtLeast(counts, |counts|, price) by {
      hide HotThreshold, WarmThreshold, Sum;
    }
    AtLeastBudget(counts, |counts|, price);
    assert |t.hot| * price == Cost(|t.hot|, price);
    hide Cost, HotThreshold;
  }

  lemma {:induction false} SumOfSmall(counts: seq<nat>, n: nat, bound: nat)
    requires n <= |counts| && forall p :: 0 <= p < n ==> counts[p] < bound
    ensures SumTo(counts, n) + n <= Cost(n, bound)
  {
    CostOfOneMore(0, bound);
    hide Cost;
    if n > 0 {
      SumOfSmall(counts, n - 1, bound);
      CostOfOneMore(n - 1, bound);
    }
  }

  lemma HalfAverageTimesLength(sum: nat, n: nat, warm: nat)
    requires n > 0 && warm <= Floor(sum, 2 * n)
    ensures Cost(n, warm) <= sum
  {
    var q := sum / (2 * n);
    assert sum == (2 * n) * q + sum % (2 * n);
    assert (2 * n) * q == 2 * (n * q);
    assert n * warm <= n * q;
  }

  /** Not everything is cold: some page has at least half the average. */
  lemma SomePageIsNotCold(counts: seq<nat>)
    requires counts != []
    ensures exists p: nat :: p < |counts| && TemperatureOf(counts, p) != Cold
  {
    var warm := WarmThreshold(counts);
    HalfAverageTimesLength(Sum(counts), |counts|, warm);
    hide Cost, WarmThreshold, HotThreshold;
    if forall p :: 0 <= p < |counts| ==> counts[p] < warm {
      SumOfSmall(counts, |counts|, warm);
      assert false;
    } else {
      var p :| 0 <= p < |counts| && counts[p] >= warm;
      assert TemperatureOf(counts, p) != Cold;
    }
  }

  // ---------- snapshots ----------

  /** The part of a memory slice that page p covers. */
  function PageAt(memory: Bytes, page: nat): Bytes
    requires (page + 1) * PAGE_SIZE <= |memory|
  {
    memory[page * PAGE_SIZE..(page + 1) * PAGE_SIZE]
  }

  /** The pages compressed so far, and whether the compressor gave up on the next one. */
  datatype Snapshot = Snapshot(pages: seq<MemoryPage>, failed: bool) {
    /** This snapshot continuing one that has made some pages already. */
    function After(before: seq<MemoryPage>): Snapshot {
      Snapshot(before + pages, failed)
    }
  }

  /** Compressing the listed pages in order; pages beyond the slice are skipped. */
  function Compressed(lib: Library, settings: Settings, counts: seq<nat>, memory: Bytes, dirty: seq<nat>): Snapshot {
    if dirty == [] then Snapshot([], false)
    else if (dirty[0] + 1) * PAGE_SIZE > |memory| then Compressed(lib, settings, counts, memory, dirty[1..])
    else
      var algorithm := settings.For(TemperatureOf(counts, dirty[0]));
      match lib.Compress(algorithm, PageAt(memory, dirty[0]))
      case None => Snapshot([], true)
      case Some(data) =>
        var rest := Compressed(lib, settings, counts, memory, dirty[1..]);
        rest.(pages := [MemoryPage(lib.hash(data), data, algorithm, PAGE_SIZE)] + rest.pages)
  }

  /** What the i-th round of the snapshot loop does. */
  lemma CompressedStep(lib: Library, settings: Settings, counts: seq<nat>, memory: Bytes, dirty: seq<nat>, i: nat,
                       before: seq<MemoryPage>)
    requires i < |dirty|
    ensures
      var all := Compressed(lib, settings, counts, memory, dirty[i..]).After(before);
      var rest := Compressed(lib, settings, counts, memory, dirty[i + 1..]);
      if (dirty[i] + 1) * PAGE_SIZE > |memory| then all == rest.After(before)
      else
        var algorithm := settings.For(TemperatureOf(counts, dirty[i]));
        match lib.Compress(algorithm, PageAt(memory, dirty[i]))
        case None => all == Snapshot(before, true)
        case Some(data) => all == rest.After(before + [MemoryPage(lib.hash(data), data, algorithm, PAGE_SIZE)])
  {
    hide TemperatureOf;
    assert dirty[i..][1..] == dirty[i + 1..];
    var rest := Compressed(lib, settings, counts, memory, dirty[i + 1..]);
    forall page: MemoryPage ensures before + ([page] + rest.pages) == before + [page] + rest.pages {}
  }

  type PageCache = map<Text, MemoryPage>

  function CacheAll(cache: PageCache, pages: seq<MemoryPage>): PageCache
    decreases |pages|
  {
    if pages == [] then cache else CacheAll(cache[pages[0].pageHash := pages[0]], pages[1..])
  }

  lemma {:induction false} CacheOneMore(cache: PageCache, pages: seq<MemoryPage>, page: MemoryPage)
    ensures CacheAll(cache, pages + [page]) == CacheAll(cache, pages)[page.pageHash := page]
    decreases |pages|
  {
    if pages == [] {
      assert ([page])[1..] == [];
    } else {
      assert (pages + [page])[1..] == pages[1..] + [page];
      CacheOneMore(cache[pages[0].pageHash := pages[0]], pages[1..], page);
    }
  }

  class MemorySnapshotManager {
    const lib: Library
    const settings: Settings
    var regions: map<Text, DirtyPageTracker>
    var pageCache: PageCache

    ghost predicate Valid()
      reads this
    {
      forall name :: name in regions ==> regions[name].Valid()
    }

    constructor (lib: Library)
      ensures Valid() && regions == map[] && pageCache == map[] && this.lib == lib
      ensures settings == Settings(LZ4, LZ4, Zstd)
    {
      this.lib := lib;
      this.settings := Settings(LZ4, LZ4, Zstd);
      this.regions := map[];
      this.pageCache := map[];
    }

    method RegisterRegion(name: Text, baseAddr: nat, size: nat)
      requires Valid()
      modifies this`regions
      ensures Valid() && name in regions && fresh(regions[name]) && regions == old(regions)[name := regions[name]]
      ensures regions[name].baseAddr == baseAddr && regions[name].totalSize == size
      ensures regions[name].Bits() == seq(size / PAGE_SIZE, _ => false)
      ensures regions[name].Counts() == seq(size / PAGE_SIZE, _ => 0)
    {
      var tracker := new DirtyPageTracker(baseAddr, size);
      regions := regions[name := tracker];
    }

    /** The loop of `snapshot_dirty`: compress, hash and cache page after page. */
    method CompressPages(memory: Bytes, dirtyPages: seq<nat>, temperatures: TemperatureMap, ghost counts: seq<nat>)
      returns (pages: seq<MemoryPage>, failed: bool)
      requires forall p: nat :: LookUp(temperatures, p) == TemperatureOf(counts, p)
      modifies this`pageCache
      ensures Snapshot(pages, failed) == Compressed(lib, settings, counts, memory, dirtyPages)
      ensures pageCache == CacheAll(old(pageCache), pages)
    {
      hide TemperatureOf, LookUp;
      pages := [];
      for i := 0 to |dirtyPages|
        invariant pageCache == CacheAll(old(pageCache), pages)
        invariant
          Compressed(lib, settings, counts, memory, dirtyPages)
          == Compressed(lib, settings, counts, memory, dirtyPages[i..]).After(pages)
      {
        var page := dirtyPages[i];
        CompressedStep(lib, settings, counts, memory, dirtyPages, i, pages);
        hide Compressed, CacheAll;
        var start := page * PAGE_SIZE;
        var end := start + PAGE_SIZE;
        if end > |memory| {
          continue;
        }
        var pageData := memory[start..end];
        assert pageData == PageAt(memory, page);
        var compression := settings.For(LookUp(temperatures, page));
        var compressed := lib.Compress(compression, pageData);
        if compressed == None {
          return pages, true;
        }
        var made := MemoryPage(lib.hash(compressed.value), compressed.value, compression, PAGE_SIZE);
        CacheOneMore(old(pageCache), pages, made);
        pageCache := pageCache[made.pageHash := made];
        pages := pages + [made];
      }
      failed := false;
    }

    method SnapshotDirty(name: Text, memory: Bytes) returns (result: Result<seq<MemoryPage>>)
      requires Valid()
      modifies this`pageCache, if name in regions then {regions[name].dirtyBitmap} else {}
      ensures Valid()
      ensures name !in regions ==> result == Err(NotFound) && pageCache == old(pageCache)
      ensures
        name in regions ==>
          var tracker := regions[name];
          var snapshot := Compressed(lib, settings, tracker.Counts(), memory, DirtyFrom(old(tracker.Bits()), 0));
          && pageCache == CacheAll(old(pageCache), snapshot.pages)
          && result == (if snapshot.failed then Err(CompressionFailed) else Ok(snapshot.pages))
          && tracker.Bits() == (if snapshot.failed then old(tracker.Bits()) else seq(|old(tracker.Bits())|, _ => false))
    {
      if name !in regions {
        return Err(NotFound);
      }
      var tracker := regions[name];
      var dirtyPages := tracker.GetDirtyPages();
      var temperatures := tracker.ClassifyTemperature();
      ClassesPartitionPages(temperatures, tracker.Counts());
      hide Compressed, CacheAll, TemperatureOf, LookUp, Classifies, DirtyFrom;
      var pages, failed := CompressPages(memory, dirtyPages, temperatures, tracker.Counts());
      if failed {
        return Err(CompressionFailed);
      }
      tracker.ClearDirty();
      result := Ok(pages);
    }

    /** The loop of `generate_manifest`: group consecutive pages of one temperature. */
    static method Coalesce(name: Text, base: nat, numPages: nat, temperatures: TemperatureMap, ghost counts: seq<nat>)
      returns (manifest: seq<MemoryRegion>)
      requires |counts| == numPages && forall p: nat :: LookUp(temperatures, p) == TemperatureOf(counts, p)
      ensures manifest == RegionsFrom(name, base, counts, 0)
    {
      hide TemperatureOf, LookUp, RegionEntry;
      manifest := [];
      var currentTemp: Option<Temperature> := None;
      var currentStart: nat := 0;
      var currentSize: nat := 0;
      for page := 0 to numPages
        invariant currentTemp.None? ==> page == 0 && manifest == []
        invariant currentTemp.Some? ==> currentStart < page && currentSize == (page - currentStart) * PAGE_SIZE
        invariant currentTemp.Some? ==> currentTemp.value == TemperatureOf(counts, currentStart)
        invariant
          currentTemp.Some? ==> RunEnd(counts, currentStart, page) == RunEnd(counts, currentStart, currentStart + 1)
        invariant
          currentTemp.Some? ==>
            manifest + RegionsFrom(name, base, counts, currentStart) == RegionsFrom(name, base, counts, 0)
      {
        var temp := LookUp(temperatures, page);
        if currentTemp == Some(temp) {
          currentSize := currentSize + PAGE_SIZE;
        } else {
          if currentTemp.Some? && currentSize > 0 {
            RunStops(name, base, counts, currentStart, page);
            manifest := manifest + [RegionEntry(name, base, currentStart, currentSize, currentTemp.value)];
          }
          currentTemp := Some(temp);
          currentStart := page;
          currentSize := PAGE_SIZE;
        }
      }
      if currentTemp.Some? && currentSize > 0 {
        RunStops(name, base, counts, currentStart, numPages);
        manifest := manifest + [RegionEntry(name, base, currentStart, currentSize, currentTemp.value)];
      }
    }

    method GenerateManifest(name: Text) returns (result: Option<seq<MemoryRegion>>)
      requires Valid()
      ensures
        result ==
          if name in regions then Some(RegionsFrom(name, regions[name].baseAddr, regions[name].Counts(), 0)) else None
    {
      if name !in regions {
        return None;
      }
      var tracker := regions[name];
      var temperatures := tracker.ClassifyTemperature();
      ClassesPartitionPages(temperatures, tracker.Counts());
      hide TemperatureOf, LookUp, Classifies, RegionsFrom;
      var manifest := Coalesce(name, tracker.baseAddr, tracker.dirtyBitmap.Length, temperatures, tracker.Counts());
      result := Some(manifest);
    }
  }

  // ---------- manifests ----------

  /** Lower-case hexadecimal, as `{:x}` prints it. */
  function Hex(n: nat): Text {
    var ds := Digits(n, Hexadecimal);
    seq(|ds|, i requires 0 <= i < |ds| => if ds[i] < 10 then 48 + ds[i] else 87 + ds[i])
  }

  function RegionEntry(name: Text, base: nat, pageStart: nat, size: nat, temp: Temperature): MemoryRegion {
    var baseAddr := base + pageStart * PAGE_SIZE;
    MemoryRegion(name + [45] + Hex(baseAddr), baseAddr, size, MemoryFlags(true, true, false), temp)
  }

  /** The first page from `page` on whose temperature differs from that of page `start`. */
  function RunEnd(counts: seq<nat>, start: nat, page: nat): (end: nat)
    requires start < page <= |counts|
    ensures page <= end <= |counts|
    ensures forall p :: page <= p < end ==> TemperatureOf(counts, p) == TemperatureOf(counts, start)
    ensures end < |counts| ==> TemperatureOf(counts, end) != TemperatureOf(counts, start)
    decreases |counts| - page
  {
    if page < |counts| && TemperatureOf(counts, page) == TemperatureOf(counts, start) then
      RunEnd(counts, start, page + 1)
    else page
  }

  /** One region for every maximal run of pages of one temperature, from page `start` on. */
  function RegionsFrom(name: Text, base: nat, counts: seq<nat>, start: nat): seq<MemoryRegion>
    requires start <= |counts|
    decreases |counts| - start
  {
    if start == |counts| then []
    else
      var end := RunEnd(counts, start, start + 1);
      [RegionEntry(name, base, start, (end - start) * PAGE_SIZE, TemperatureOf(counts, start))]
      + RegionsFrom(name, base, counts, end)
  }

  /** A run that cannot go on is one region in front of the rest. */
  lemma RunStops(name: Text, base: nat, counts: seq<nat>, start: nat, page: nat)
    requires start < page <= |counts|
    requires RunEnd(counts, start, page) == RunEnd(counts, start, start + 1)
    requires page < |counts| ==> TemperatureOf(counts, page) != TemperatureOf(counts, start)
    ensures
      RegionsFrom(name, base, counts, start) ==
        [RegionEntry(name, base, start, (page - start) * PAGE_SIZE, TemperatureOf(counts, start))]
        + RegionsFrom(name, base, counts, page)
  {
    hide TemperatureOf, RegionEntry;
    assert RunEnd(counts, start, page) == page;
  }

  /** A region that contains page p and has its temperature. */
  predicate Holds(r: MemoryRegion, base: nat, p: nat, temp: Temperature) {
    && r.baseAddr <= base + p * PAGE_SIZE && base + (p + 1) * PAGE_SIZE <= r.baseAddr + r.size
    && r.temperature == temp
  }

  /** Non-empty regions that follow one another, without a gap or an overlap, from one address to another. */
  ghost predicate Contiguous(manifest: seq<MemoryRegion>, from: nat, to: nat) {
    && (manifest == [] <==> from == to)
    && (manifest != [] ==>
          manifest[0].baseAddr == from && manifest[|manifest| - 1].baseAddr + manifest[|manifest| - 1].size == to)
    && (forall i :: 0 <= i < |manifest| ==> manifest[i].size > 0)
    && (forall i, j :: 0 <= i < |manifest| && j == i + 1 < |manifest| ==>
          manifest[j].baseAddr == manifest[i].baseAddr + manifest[i].size)
  }

  /** No two neighbours could be merged. */
  ghost predicate Maximal(manifest: seq<MemoryRegion>) {
    forall i, j :: 0 <= i < |manifest| && j == i + 1 < |manifest| ==>
      manifest[j].temperature != manifest[i].temperature
  }

  /** Every page from `start` on has its temperature. */
  ghost predicate Warmed(manifest: seq<MemoryRegion>, base: nat, counts: seq<nat>, start: nat) {
    forall p: nat :: start <= p < |counts| ==>
      exists i :: 0 <= i < |manifest| && Holds(manifest[i], base, p, TemperatureOf(counts, p))
  }

  lemma RegionHoldsItsRun(name: Text, base: nat, counts: seq<nat>, start: nat, p: nat)
    requires start <= p < |counts| && p < RunEnd(counts, start, start + 1)
    ensures
      var size := (RunEnd(counts, start, start + 1) - start) * PAGE_SIZE;
      Holds(RegionEntry(name, base, start, size, TemperatureOf(counts, start)), base, p, TemperatureOf(counts, p))
  {
    hide TemperatureOf;
  }

  lemma OneMoreRegion(first: MemoryRegion, rest: seq<MemoryRegion>, from: nat, to: nat)
    requires first.baseAddr == from && first.size > 0 && from + first.size <= to
    requires Contiguous(rest, from + first.size, to)
    ensures Contiguous([first] + rest, from, to)
  {
    var all := [first] + rest;
    forall i | 1 <= i < |all| ensures all[i] == rest[i - 1] {}
  }

  lemma {:induction false} RegionsAreContiguous(name: Text, base: nat, counts: seq<nat>, start: nat)
    requires start <= |counts|
    ensures
      Contiguous(RegionsFrom(name, base, counts, start), base + start * PAGE_SIZE, base + |counts| * PAGE_SIZE)
    decreases |counts| - start
  {
    hide TemperatureOf, Hex, Contiguous;
    if start < |counts| {
      var end := RunEnd(counts, start, start + 1);
      RegionsAreContiguous(name, base, counts, end);
      var first := RegionEntry(name, base, start, (end - start) * PAGE_SIZE, TemperatureOf(counts, start));
      OneMoreRegion(first, RegionsFrom(name, base, counts, end), base + start * PAGE_SIZE, base + |counts| * PAGE_SIZE);
    } else {
      NoRegions(base + start * PAGE_SIZE);
    }
  }

  lemma NoRegions(at: nat)
    ensures Contiguous([], at, at)
  {
  }

  lemma {:induction false} RegionsAreMaximal(name: Text, base: nat, counts: seq<nat>, start: nat)
    requires start <= |counts|
    ensures Maximal(RegionsFrom(name, base, counts, start))
    decreases |counts| - start
  {
    hide TemperatureOf, Hex;
    if start < |counts| {
      var end := RunEnd(counts, start, start + 1);
      RegionsAreMaximal(name, base, counts, end);
      var rest, all := RegionsFrom(name, base, counts, end), RegionsFrom(name, base, counts, start);
      assert all == [all[0]] + rest && all[0].temperature == TemperatureOf(counts, start);
      if end < |counts| {
        FirstOfRest(name, base, counts, end);
      }
      hide RegionsFrom;
      forall i | 1 <= i < |all| ensures all[i] == rest[i - 1] {}
    }
  }

  lemma {:induction false} RegionsAreWarmed(name: Text, base: nat, counts: seq<nat>, start: nat)
    requires start <= |counts|
    ensures Warmed(RegionsFrom(name, base, counts, start), base, counts, start)
    decreases |counts| - start
  {
    hide TemperatureOf, Holds, RegionEntry;
    if start < |counts| {
      var end := RunEnd(counts, start, start + 1);
      RegionsAreWarmed(name, base, counts, end);
      var rest, all := RegionsFrom(name, base, counts, end), RegionsFrom(name, base, counts, start);
      assert all == [all[0]] + rest;
      forall p: nat | start <= p < |counts|
        ensures exists i :: 0 <= i < |all| && Holds(all[i], base, p, TemperatureOf(counts, p))
      {
        if p < end {
          RegionHoldsItsRun(name, base, counts, start, p);
          assert Holds(all[0], base, p, TemperatureOf(counts, p));
        } else {
          var i :| 0 <= i < |rest| && Holds(rest[i], base, p, TemperatureOf(counts, p));
          assert Holds(all[i + 1], base, p, TemperatureOf(counts, p));
        }
      }
    }
  }

  /**
   * What a generated manifest promises: non-empty regions that tile the memory from the base address to the end of
   * its last page, every page in a region of its own temperature, and no two neighbours that could be merged.
   */
  lemma ManifestTiles(name: Text, base: nat, counts: seq<nat>)
    ensures
      var manifest := RegionsFrom(name, base, counts, 0);
      && Contiguous(manifest, base, base + |counts| * PAGE_SIZE)
      && Warmed(manifest, base, counts, 0)
      && Maximal(manifest)
  {
    RegionsAreContiguous(name, base, counts, 0);
    RegionsAreMaximal(name, base, counts, 0);
    RegionsAreWarmed(name, base, counts, 0);
    hide RegionsFrom, Contiguous, Warmed, Maximal;
  }

  lemma FirstOfRest(name: Text, base: nat, counts: seq<nat>, start: nat)
    requires start < |counts|
    ensures
      var regions := RegionsFrom(name, base, counts, start);
      regions != [] && regions[0].temperature == TemperatureOf(counts, start)
  {
  }

  lemma HexIsInjective(m: nat, n: nat)
    requires Hex(m) == Hex(n)
    ensures m == n
  {
    var ms, ns := Digits(m, Hexadecimal), Digits(n, Hexadecimal);
    assert |Hex(m)| == |ms| && |Hex(n)| == |ns|;
    forall i | 0 <= i < |ms| ensures ms[i] == ns[i] {
      assert Hex(m)[i] == Hex(n)[i];
    }
    assert ms == ns;
    DigitsEvaluate(m, Hexadecimal);
    DigitsEvaluate(n, Hexadecimal);
  }

  /** Later regions start behind earlier ones. */
  lemma {:induction false} RegionsAscend(manifest: seq<MemoryRegion>, from: nat, to: nat, i: nat, j: nat)
    requires Contiguous(manifest, from, to) && i < j < |manifest|
    ensures manifest[i].baseAddr + manifest[i].size <= manifest[j].baseAddr
    decreases j
  {
    if i + 1 < j {
      RegionsAscend(manifest, from, to, i, j - 1);
      assert manifest[j].baseAddr == manifest[j - 1].baseAddr + manifest[j - 1].size;
    }
  }

  lemma NonEmpty(manifest: seq<MemoryRegion>, from: nat, to: nat, i: nat)
    requires Contiguous(manifest, from, to) && i < |manifest|
    ensures manifest[i].size > 0
  {
  }

  /** A region's identifier spells out its address. */
  lemma {:induction false} IdsSpellAddresses(name: Text, base: nat, counts: seq<nat>, start: nat)
    requires start <= |counts|
    ensures forall r <- RegionsFrom(name, base, counts, start) :: r.regionId == name + [45] + Hex(r.baseAddr)
    decreases |counts| - start
  {
    hide TemperatureOf, Hex;
    if start < |counts| {
      IdsSpellAddresses(name, base, counts, RunEnd(counts, start, start + 1));
    }
  }

  lemma SameIdSameAddress(name: Text, a: nat, b: nat)
    requires name + [45] + Hex(a) == name + [45] + Hex(b)
    ensures a == b
  {
    hide Hex;
    assert Hex(a) == (name + [45] + Hex(a))[|name| + 1..];
    assert Hex(b) == (name + [45] + Hex(b))[|name| + 1..];
    HexIsInjective(a, b);
  }

  /**
   * The identifiers of a generated manifest are unique, which is what the differ and the patcher of
   * src/state_diff.rs rely on.
   */
  lemma ManifestIdsAreUnique(name: Text, base: nat, counts: seq<nat>)
    ensures UniqueIds(RegionsFrom(name, base, counts, 0))
  {
    var regions := RegionsFrom(name, base, counts, 0);
    var end := base + |counts| * PAGE_SIZE;
    IdsSpellAddresses(name, base, counts, 0);
    RegionsAreContiguous(name, base, counts, 0);
    hide Hex, RegionsFrom, Contiguous;
    forall i, j | 0 <= i < j < |regions| ensures regions[i].regionId != regions[j].regionId {
      RegionsAscend(regions, base, end, i, j);
      NonEmpty(regions, base, end, i);
      var a, b := regions[i], regions[j];
      assert a in regions && b in regions;
      if a.regionId == b.regionId {
        SameIdSameAddress(name, a.baseAddr, b.baseAddr);
      }
    }
  }

  // ---------- incremental checkpoints ----------

  /** The checkpoint with the decompressed pages put where the dirty list says; None when that does not work out. */
  function Overlaid(lib: Library, checkpoint: seq<Bytes>, dirty: seq<nat>, pages: seq<MemoryPage>): Option<seq<Bytes>>
    decreases |pages|
  {
    if pages == [] then Some(checkpoint)
    else if dirty == [] || dirty[0] >= |checkpoint| then None
    else
      match lib.Decompress(pages[0].compression, pages[0].data)
      case None => None
      case Some(data) => Overlaid(lib, checkpoint[dirty[0] := data], dirty[1..], pages[1..])
  }

  ghost predicate Ascending(dirty: seq<nat>, limit: nat) {
    && (forall i :: 0 <= i < |dirty| ==> dirty[i] < limit)
    && (forall i, j :: 0 <= i < j < |dirty| ==> dirty[i] < dirty[j])
  }

  /** Pages are skipped only at the end of an ascending list, so the pages that are made keep their partners. */
  lemma {:induction false} SkippedToTheEnd(lib: Library, settings: Settings, counts: seq<nat>, memory: Bytes,
                                           dirty: seq<nat>)
    requires forall i :: 0 <= i < |dirty| ==> (dirty[i] + 1) * PAGE_SIZE > |memory|
    ensures Compressed(lib, settings, counts, memory, dirty) == Snapshot([], false)
    decreases |dirty|
  {
    if dirty != [] {
      SkippedToTheEnd(lib, settings, counts, memory, dirty[1..]);
    }
  }

  /** What page p of a checkpoint should hold after a snapshot. */
  function Refreshed(checkpoint: seq<Bytes>, dirty: seq<nat>, memory: Bytes, p: nat): Bytes
    requires p < |checkpoint|
  {
    if p in dirty && (p + 1) * PAGE_SIZE <= |memory| then PageAt(memory, p) else checkpoint[p]
  }

  /**
   * Overlaying a snapshot on a checkpoint replaces exactly the dirty pages the slice covers by their current contents,
   * whatever compressor each page's temperature selects. A dirty page beyond the slice stays as it was.
   */
  lemma {:induction false} OverlayRestores(lib: Library, settings: Settings, counts: seq<nat>, memory: Bytes,
                                           dirty: seq<nat>, checkpoint: seq<Bytes>)
    requires lib.Lossless() && Ascending(dirty, |checkpoint|)
    requires !Compressed(lib, settings, counts, memory, dirty).failed
    ensures
      var after := Overlaid(lib, checkpoint, dirty, Compressed(lib, settings, counts, memory, dirty).pages);
      && after.Some? && |after.value| == |checkpoint|
      && forall p: nat :: p < |checkpoint| ==> after.value[p] == Refreshed(checkpoint, dirty, memory, p)
    decreases |dirty|
  {
    hide TemperatureOf;
    if dirty == [] {
    } else if (dirty[0] + 1) * PAGE_SIZE > |memory| {
      SkippedToTheEnd(lib, settings, counts, memory, dirty);
    } else {
      var first, rest := dirty[0], dirty[1..];
      var algorithm := settings.For(TemperatureOf(counts, first));
      var compressed := lib.Compress(algorithm, PageAt(memory, first));
      assert lib.Decompress(algorithm, compressed.value) == Some(PageAt(memory, first));
      var updated := checkpoint[first := PageAt(memory, first)];
      OverlayRestores(lib, settings, counts, memory, rest, updated);
      assert first !in rest && dirty == [first] + rest;
      hide PageAt, Refreshed, Compressed;
      forall p: nat | p < |checkpoint|
        ensures Refreshed(updated, rest, memory, p) == Refreshed(checkpoint, dirty, memory, p)
      {
        RefreshedOneMore(checkpoint, first, rest, memory, p);
      }
    }
  }

  lemma RefreshedOneMore(checkpoint: seq<Bytes>, first: nat, rest: seq<nat>, memory: Bytes, p: nat)
    requires p < |checkpoint| && first < |checkpoint| && first !in rest && (first + 1) * PAGE_SIZE <= |memory|
    ensures
      Refreshed(checkpoint[first := PageAt(memory, first)], rest, memory, p) ==
        Refreshed(checkpoint, [first] + rest, memory, p)
  {
    hide PageAt;
  }

  /** A running VM with one tracked region, next to the checkpoint that snapshots keep up to date. */
  datatype Guest = Guest(memory: Bytes, bits: seq<bool>, counts: seq<nat>, checkpoint: seq<Bytes>)

  datatype GuestOp = Write(page: nat, content: Bytes) | Access(page: nat) | TakeSnapshot

  function Written(memory: Bytes, page: nat, content: Bytes): Bytes
    requires (page + 1) * PAGE_SIZE <= |memory|
  {
    memory[..page * PAGE_SIZE] + content + memory[(page + 1) * PAGE_SIZE..]
  }

  /** A write replaces the contents of one page that exists. */
  predicate Possible(g: Guest, op: GuestOp) {
    op.Write? ==> (op.page + 1) * PAGE_SIZE <= |g.memory| && |op.content| == PAGE_SIZE
  }

  /** Every write marks its page, and a snapshot that fails changes nothing. */
  function StepGuest(lib: Library, settings: Settings, g: Guest, op: GuestOp): Guest
    requires Possible(g, op)
  {
    match op
    case Write(page, content) =>
      g.(memory := Written(g.memory, page, content), bits := if page < |g.bits| then g.bits[page := true] else g.bits)
    case Access(page) =>
      if page < |g.counts| && g.counts[page] < U32_MAX then g.(counts := g.counts[page := g.counts[page] + 1]) else g
    case TakeSnapshot =>
      var dirty := DirtyFrom(g.bits, 0);
      var snapshot := Compressed(lib, settings, g.counts, g.memory, dirty);
      if snapshot.failed then g
      else
        match Overlaid(lib, g.checkpoint, dirty, snapshot.pages)
        case None => g
        case Some(checkpoint) => g.(checkpoint := checkpoint, bits := seq(|g.bits|, _ => false))
  }

  /** Whatever is not marked dirty is up to date in the checkpoint. */
  ghost predicate InStep(g: Guest) {
    && |g.bits| == |g.counts| == |g.checkpoint| && |g.bits| * PAGE_SIZE <= |g.memory|
    && forall p: nat :: p < |g.bits| && !g.bits[p] ==> g.checkpoint[p] == PageAt(g.memory, p)
  }

  lemma WriteTouchesOnePage(memory: Bytes, page: nat, content: Bytes, p: nat)
    requires (page + 1) * PAGE_SIZE <= |memory| && (p + 1) * PAGE_SIZE <= |memory| && |content| == PAGE_SIZE
    ensures |Written(memory, page, content)| == |memory|
    ensures PageAt(Written(memory, page, content), p) == if p == page then content else PageAt(memory, p)
  {
    var after := Written(memory, page, content);
    if p < page {
      assert (p + 1) * PAGE_SIZE <= page * PAGE_SIZE;
    } else if p > page {
      assert p * PAGE_SIZE >= (page + 1) * PAGE_SIZE;
    }
    assert PageAt(after, p) == if p == page then content else PageAt(memory, p);
  }

  lemma StepStaysInStep(lib: Library, settings: Settings, g: Guest, op: GuestOp)
    requires lib.Lossless() && InStep(g) && Possible(g, op)
    ensures InStep(StepGuest(lib, settings, g, op))
    ensures op.Access? || op.TakeSnapshot? ==> StepGuest(lib, settings, g, op).memory == g.memory
  {
    match op
    case Write(page, content) =>
      forall p: nat | p < |g.bits|
        ensures PageAt(Written(g.memory, page, content), p) == if p == page then content else PageAt(g.memory, p)
        ensures |Written(g.memory, page, content)| == |g.memory|
      {
        WriteTouchesOnePage(g.memory, page, content, p);
      }
      WriteTouchesOnePage(g.memory, page, content, page);
      hide PageAt, Written;
    case Access(page) =>
    case TakeSnapshot => SnapshotCatchesUp(lib, settings, g);
  }

  /** A snapshot that does not fail leaves the checkpoint equal to the tracked memory, page by page. */
  lemma SnapshotCatchesUp(lib: Library, settings: Settings, g: Guest)
    requires lib.Lossless() && InStep(g)
    ensures
      var after := StepGuest(lib, settings, g, TakeSnapshot);
      && InStep(after) && after.memory == g.memory
      && (!Compressed(lib, settings, g.counts, g.memory, DirtyFrom(g.bits, 0)).failed ==>
            forall p: nat :: p < |after.checkpoint| ==> after.checkpoint[p] == PageAt(after.memory, p))
  {
    var dirty := DirtyFrom(g.bits, 0);
    if !Compressed(lib, settings, g.counts, g.memory, dirty).failed {
      OverlayRestores(lib, settings, g.counts, g.memory, dirty, g.checkpoint);
      hide Compressed, Overlaid, PageAt, TemperatureOf;
      forall p: nat | p < |g.bits| ensures Refreshed(g.checkpoint, dirty, g.memory, p) == PageAt(g.memory, p) {
        DirtyIsExact(g.bits, 0, p);
      }
    }
  }

  ghost predicate PossibleRun(lib: Library, settings: Settings, g: Guest, ops: seq<GuestOp>)
    decreases |ops|
  {
    ops == [] || (Possible(g, ops[0]) && PossibleRun(lib, settings, StepGuest(lib, settings, g, ops[0]), ops[1..]))
  }

  function RunGuest(lib: Library, settings: Settings, g: Guest, ops: seq<GuestOp>): Guest
    requires PossibleRun(lib, settings, g, ops)
    decreases |ops|
  {
    if ops == [] then g else RunGuest(lib, settings, StepGuest(lib, settings, g, ops[0]), ops[1..])
  }

  /**
   * Incremental checkpoints are exact: across any number of writes, accesses, snapshots and failed snapshots, the next
   * snapshot that succeeds leaves the checkpoint equal to the current memory.
   */
  lemma {:induction false} CheckpointsAreExact(lib: Library, settings: Settings, g: Guest, ops: seq<GuestOp>)
    requires lib.Lossless() && InStep(g) && PossibleRun(lib, settings, g, ops)
    ensures
      var now := RunGuest(lib, settings, g, ops);
      var after := StepGuest(lib, settings, now, TakeSnapshot);
      && InStep(now) && InStep(after) && after.memory == now.memory
      && (!Compressed(lib, settings, now.counts, now.memory, DirtyFrom(now.bits, 0)).failed ==>
            forall p: nat :: p < |after.checkpoint| ==> after.checkpoint[p] == PageAt(now.memory, p))
    decreases |ops|
  {
    hide StepGuest, InStep, Possible, Compressed, PageAt;
    if ops == [] {
      SnapshotCatchesUp(lib, settings, g);
    } else {
      StepStaysInStep(lib, settings, g, ops[0]);
      CheckpointsAreExact(lib, settings, StepGuest(lib, settings, g, ops[0]), ops[1..]);
    }
  }

  /** Hexadecimal digits in order, `0` to `9` and `a` to `f`. */
  lemma HexDigits(n: nat)
    ensures n < 10 ==> Hex(n) == [48 + n]
    ensures 10 <= n < 16 ==> Hex(n) == [97 + (n - 10)]
    ensures 16 <= n ==> Hex(n) == Hex(n / 16) + Hex(n % 16)
  {
  }
}
