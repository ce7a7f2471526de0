/**
 * What the temperature of a page means (src/memory.rs), without the two thresholds and the average they come from.
 */
module PageTemperatures {
  import opened Model
  import opened Memories

  /** A quotient with its rest, and the numbers at or above it. */
  lemma AtLeastQuotient(count: nat, quotient: nat, rest: nat, denominator: nat)
    requires rest < denominator
    ensures count >= quotient <==> Cost(count + 1, denominator) > Cost(quotient, denominator) + rest
  {
    if count >= quotient {
      CostGrows(quotient + 1, count + 1, denominator);
      CostOfOneMore(quotient, denominator);
    } else {
      CostGrows(count + 1, quotient, denominator);
    }
  }

  lemma CostGrows(a: nat, b: nat, k: nat)
    requires a <= b
    ensures Cost(a, k) <= Cost(b, k)
  {
  }

  lemma FloorIs(numerator: nat, denominator: nat) returns (rest: nat)
    requires denominator > 0
    ensures rest < denominator && numerator == Cost(Floor(numerator, denominator), denominator) + rest
  {
    rest := numerator % denominator;
  }

  /**
   * Temperatures without thresholds: a page is hot when it was accessed and one more than its count, times the number
   * of pages, exceeds twice the sum of all counts; it is warm when that exceeds half the sum; otherwise it is cold. A
   * count at the limit of u32 passes every threshold.
   */
  lemma TemperaturesByTheSum(counts: seq<nat>, p: nat)
    requires p < |counts| && forall i :: 0 <= i < |counts| ==> counts[i] <= U32_MAX
    ensures
      var (n, sum, count) := (|counts|, Sum(counts), counts[p]);
      var hot := count > 0 && (Cost(count + 1, n) > 2 * sum || count == U32_MAX);
      var warm := Cost(count + 1, 2 * n) > sum || count == U32_MAX;
      && (TemperatureOf(counts, p) == Hot <==> hot)
      && (TemperatureOf(counts, p) == Warm <==> !hot && warm)
      && (TemperatureOf(counts, p) == Cold <==> !hot && !warm)
  {
    var n, sum, count := |counts|, Sum(counts), counts[p];
    var rest := FloorIs(2 * sum, n);
    AtLeastQuotient(count, Floor(2 * sum, n), rest, n);
    rest := FloorIs(sum, 2 * n);
    AtLeastQuotient(count, Floor(sum, 2 * n), rest, 2 * n);
    hide Floor, Sum, Cost;
  }
}
