/** Vocabulary shared by every module of the model. */
module Basics {

  /** Rust's `Option`. */
  datatype Option<+T> = None | Some(value: T)

  /** A byte of a Rust `Vec<u8>`, `Bytes` or (UTF-8) `String`. */
  type byte = b: int | 0 <= b < 256

  type Bytes = seq<byte>

  type u16 = n: int | 0 <= n < 0x1_0000

  type u32 = n: int | 0 <= n < 0x1_0000_0000

  type u64 = n: int | 0 <= n < 0x1_0000_0000_0000_0000

  /** A sequence without repetitions. */
  ghost predicate NoDuplicates<T>(s: seq<T>) {
    forall i, j :: 0 <= i < j < |s| ==> s[i] != s[j]
  }

  /** A nat-indexed family of distinct elements of a finite set is no longer than the set is large. */
  lemma {:induction false} DistinctFitsIn<T>(s: seq<T>, universe: set<T>)
    requires NoDuplicates(s)
    requires forall x <- s :: x in universe
    ensures |s| <= |universe|
  {
    if s != [] {
      var last := s[|s| - 1];
      var front := s[..|s| - 1];
      forall x | x in front ensures x in universe - {last} {
        assert x in s;
      }
      DistinctFitsIn(front, universe - {last});
    }
  }

  /** The integers from lo up to, but not including, hi. */
  ghost function Interval(lo: int, hi: int): (s: set<int>)
    requires lo <= hi
    ensures |s| == hi - lo
    ensures forall i :: i in s <==> lo <= i < hi
    decreases hi - lo
  {
    if lo == hi then {} else Interval(lo, hi - 1) + {hi - 1}
  }

  lemma {:induction false} SubsetSize<T>(small: set<T>, large: set<T>)
    requires small <= large
    ensures |small| <= |large|
  {
    if small != {} {
      var x :| x in small;
      SubsetSize(small - {x}, large - {x});
    }
  }
}
