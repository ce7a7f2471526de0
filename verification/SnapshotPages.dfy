/**
 * What the pages of a snapshot and the regions of a manifest say (src/memory.rs), field by field.
 */
module SnapshotPages {
  import opened Basics
  import opened Model
  import opened Memories

  /** A page as a snapshot is to make it: compressed as its temperature demands, and hashed as compressed. */
  predicate IsPageOf(lib: Library, settings: Settings, counts: seq<nat>, memory: Bytes, page: nat, made: MemoryPage) {
    && (page + 1) * PAGE_SIZE <= |memory| && made.originalSize == PAGE_SIZE
    && made.compression == (match TemperatureOf(counts, page)
                            case Hot => settings.hot
                            case Warm => settings.warm
                            case Cold => settings.cold)
    && lib.Compress(made.compression, PageAt(memory, page)) == Some(made.data)
    && made.pageHash == lib.hash(made.data)
  }

  /** The pages of a snapshot belong to the first pages of an ascending dirty list, one by one. */
  lemma {:induction false} PagesAreOfTheDirtyList(lib: Library, settings: Settings, counts: seq<nat>, memory: Bytes,
                                                  dirty: seq<nat>, i: nat)
    requires forall j, k :: 0 <= j < k < |dirty| ==> dirty[j] < dirty[k]
    requires i < |Compressed(lib, settings, counts, memory, dirty).pages|
    ensures
      var pages := Compressed(lib, settings, counts, memory, dirty).pages;
      i < |dirty| && IsPageOf(lib, settings, counts, memory, dirty[i], pages[i])
    decreases |dirty|
  {
    hide TemperatureOf;
    if (dirty[0] + 1) * PAGE_SIZE > |memory| {
      SkippedToTheEnd(lib, settings, counts, memory, dirty);
    } else if i > 0 {
      PagesAreOfTheDirtyList(lib, settings, counts, memory, dirty[1..], i - 1);
    }
  }

  /** Every page made is found in the cache under its hash, with whatever page of that hash was made last. */
  lemma {:induction false} PagesAreCached(cache: PageCache, pages: seq<MemoryPage>, i: nat)
    requires i < |pages|
    ensures
      var after := CacheAll(cache, pages);
      pages[i].pageHash in after && exists j :: i <= j < |pages| && after[pages[i].pageHash] == pages[j]
    decreases |pages|
  {
    if i > 0 {
      PagesAreCached(cache[pages[0].pageHash := pages[0]], pages[1..], i - 1);
      var j :| i - 1 <= j < |pages[1..]| && CacheAll(cache, pages)[pages[i].pageHash] == pages[1..][j];
      assert pages[1..][j] == pages[j + 1];
    } else {
      LastOfItsHash(cache[pages[0].pageHash := pages[0]], pages, pages[0].pageHash);
    }
  }

  lemma {:induction false} LastOfItsHash(cache: PageCache, pages: seq<MemoryPage>, hash: Text)
    requires pages != [] && hash in cache
    ensures
      var after := CacheAll(cache, pages[1..]);
      hash in after && (after[hash] == cache[hash] || exists j :: 1 <= j < |pages| && after[hash] == pages[j])
    decreases |pages|
  {
    if |pages| > 1 {
      var rest := pages[1..];
      LastOfItsHash(cache[rest[0].pageHash := rest[0]], rest, hash);
      var after := CacheAll(cache, rest);
      if after[hash] != cache[hash] {
        if exists j :: 1 <= j < |rest| && after[hash] == rest[j] {
          var j :| 1 <= j < |rest| && after[hash] == rest[j];
          assert rest[j] == pages[j + 1];
        } else {
          assert after[hash] == pages[1];
        }
      }
    }
  }

  /** Every region of a generated manifest may be read and written, but not executed. */
  lemma {:induction false} RegionsAreReadWrite(name: Text, base: nat, counts: seq<nat>, start: nat)
    requires start <= |counts|
    ensures
      forall r <- RegionsFrom(name, base, counts, start) :: r.flags.read && r.flags.write && !r.flags.execute
    decreases |counts| - start
  {
    hide TemperatureOf, Hex;
    if start < |counts| {
      RegionsAreReadWrite(name, base, counts, RunEnd(counts, start, start + 1));
    }
  }
}
