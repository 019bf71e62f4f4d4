/** The averaging step that ends `calc_avg` in both string counters (src/count.cpp and
    src/string_counter.cpp): per-length totals are divided by the number of distinct strings
    of that length, stopping at the first length that has none. */
module Averages {

  /** Per-length totals gathered by the sweep: frequency, left and right entropy sums, and
      the number of distinct strings of each length. */
  datatype Totals = Totals(f: seq<real>, hl: seq<real>, hr: seq<real>, nums: seq<nat>)
  {
    predicate Sized(n: nat)
    {
      |f| == n && |hl| == n && |hr| == n && |nums| == n
    }
  }

  /** The first length with no string, or the table size if there is none. */
  function FirstZero(nums: seq<nat>): (m: nat)
    ensures m <= |nums|
    ensures forall j :: 0 <= j < m ==> nums[j] != 0
    ensures m < |nums| ==> nums[m] == 0
  {
    if |nums| == 0 || nums[0] == 0 then 0 else 1 + FirstZero(nums[1..])
  }

  /** `sums` with the entries below m divided by their counts. */
  function DividedBelow(sums: seq<real>, nums: seq<nat>, m: nat): (r: seq<real>)
    requires |sums| == |nums| && m <= |nums|
    requires forall j :: 0 <= j < m ==> nums[j] != 0
    ensures |r| == |sums|
  {
    seq(|sums|, j requires 0 <= j < |sums| => if j < m then sums[j] / (nums[j] as real) else sums[j])
  }

  /** The averaging loop: divide the three totals of each length by its count, and stop at
      the first length whose count is zero; that length and every later one keep their
      totals. */
  method Average(t: Totals, n: nat) returns (r: Totals)
    requires t.Sized(n)
    ensures r.Sized(n) && r.nums == t.nums
    ensures var m := FirstZero(t.nums);
      r.f == DividedBelow(t.f, t.nums, m)
      && r.hl == DividedBelow(t.hl, t.nums, m)
      && r.hr == DividedBelow(t.hr, t.nums, m)
  {
    var f, hl, hr := t.f, t.hl, t.hr;
    var j := 0;
    while j < n
      invariant 0 <= j <= FirstZero(t.nums)
      invariant f == DividedBelow(t.f, t.nums, j)
      invariant hl == DividedBelow(t.hl, t.nums, j)
      invariant hr == DividedBelow(t.hr, t.nums, j)
    {
      if t.nums[j] == 0 {
        break;
      }
      var c := t.nums[j] as real;
      f := f[j := f[j] / c];
      hl := hl[j := hl[j] / c];
      hr := hr[j := hr[j] / c];
      j := j + 1;
    }
    r := Totals(f, hl, hr, t.nums);
  }
}
