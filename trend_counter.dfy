/** Trend counter (day1/src/main.rs): how many measurements are larger than
    the one before them, directly and after summing sliding windows. */
module TrendCounter {
  import opened Wrappers

  /** The number of positions i, gap <= i < |s|, at which the value is larger
      than the one `gap` places earlier. */
  function GapIncreases(s: seq<int>, gap: nat): (r: nat)
    ensures r <= if |s| > gap then |s| - gap else 0
    decreases |s|
  {
    if |s| <= gap then 0
    else GapIncreases(s[..|s| - 1], gap) + (if s[|s| - 1 - gap] < s[|s| - 1] then 1 else 0)
  }

  /** Adjacent strict increases: what `count_increases` computes. */
  function Increases(s: seq<int>): (r: nat)
    ensures r <= if |s| > 1 then |s| - 1 else 0
  {
    GapIncreases(s, 1)
  }

  /** Whether the value at i is larger than the one `gap` places earlier. */
  predicate IncreaseAt(s: seq<int>, gap: nat, i: int)
    requires gap <= i < |s|
  {
    s[i - gap] < s[i]
  }

  /** The positions counted by GapIncreases, as a set of indices. */
  ghost function IncreaseIndices(s: seq<int>, gap: nat): set<int>
  {
    set i | gap <= i < |s| && IncreaseAt(s, gap, i)
  }

  /** The counter is exactly the number of indices i with s[i - gap] < s[i]. */
  lemma {:induction false} GapIncreasesCountsIndices(s: seq<int>, gap: nat)
    ensures GapIncreases(s, gap) == |IncreaseIndices(s, gap)|
    decreases |s|
  {
    if |s| <= gap {
      assert IncreaseIndices(s, gap) == {};
    } else {
      var t := s[..|s| - 1];
      var last := |s| - 1;
      GapIncreasesCountsIndices(t, gap);
      forall i | gap <= i < last
        ensures IncreaseAt(t, gap, i) == IncreaseAt(s, gap, i)
      {
        assert t[i] == s[i] && t[i - gap] == s[i - gap];
      }
      var earlier := IncreaseIndices(t, gap);
      assert last !in earlier;
      if IncreaseAt(s, gap, last) {
        assert IncreaseIndices(s, gap) == earlier + {last};
      } else {
        assert IncreaseIndices(s, gap) == earlier;
      }
    }
  }

  /** `count_increases`: walks the input once, remembering the previous value;
      the first value has no predecessor and is never counted. */
  method CountIncreases(input: seq<int>) returns (increases: nat)
    ensures increases == |IncreaseIndices(input, 1)|
    ensures increases <= if |input| > 1 then |input| - 1 else 0
  {
    increases := 0;
    var previous: Option<int> := None;
    for i := 0 to |input|
      invariant increases == Increases(input[..i])
      invariant previous == if i == 0 then None else Some(input[i - 1])
    {
      var value := input[i];
      if previous.Some? && previous.value < value {
        increases := increases + 1;
      }
      assert input[..i + 1][..i] == input[..i];
      previous := Some(value);
    }
    assert input[..|input|] == input;
    GapIncreasesCountsIndices(input, 1);
  }

  /** The sum of a sequence. */
  function Sum(s: seq<int>): int
  {
    if s == [] then 0 else s[0] + Sum(s[1..])
  }

  lemma {:induction false} SumSplitLast(s: seq<int>)
    requires s != []
    ensures Sum(s) == Sum(s[..|s| - 1]) + s[|s| - 1]
  {
    if |s| > 1 {
      SumSplitLast(s[1..]);
      assert s[1..][..|s| - 2] == s[..|s| - 1][1..];
    }
  }

  /** Appending the sum of the last window to the windows of all but the last
      value gives the windows of the whole sequence. */
  lemma {:induction false} WindowsExtend(s: seq<int>, w: nat, prev: seq<int>, r: seq<int>)
    requires 0 < w <= |s| && |prev| == |s| - w
    requires forall i :: 0 <= i < |prev| ==> prev[i] == Sum(s[..|s| - 1][i..i + w])
    requires r == prev + [Sum(s[|s| - w..])]
    ensures forall i :: 0 <= i < |r| ==> r[i] == Sum(s[i..i + w])
  {
    forall i | 0 <= i < |r| ensures r[i] == Sum(s[i..i + w]) {
      if i < |prev| {
        assert s[..|s| - 1][i..i + w] == s[i..i + w];
      } else {
        assert s[|s| - w..] == s[i..i + w];
      }
    }
  }

  /** `sum_windows`: the sums of all contiguous windows of `w` values, in order.
      `windows(0)` panics, so the window size must be positive. */
  function SumWindows(s: seq<int>, w: nat): (r: seq<int>)
    requires w > 0
    ensures |r| == if w <= |s| then |s| - w + 1 else 0
    ensures forall i :: 0 <= i < |r| ==> r[i] == Sum(s[i..i + w])
    decreases |s|
  {
    if |s| < w then []
    else
      var prev := SumWindows(s[..|s| - 1], w);
      var r := prev + [Sum(s[|s| - w..])];
      WindowsExtend(s, w, prev, r);
      r
  }

  /** Two neighbouring windows differ by the value that enters minus the one that leaves. */
  lemma WindowShift(s: seq<int>, i: nat, w: nat)
    requires w > 0 && i + w < |s|
    ensures Sum(s[i + 1..i + w + 1]) - Sum(s[i..i + w]) == s[i + w] - s[i]
  {
    assert s[i..i + w][1..] == s[i + 1..i + w];
    SumSplitLast(s[i + 1..i + w + 1]);
    assert s[i + 1..i + w + 1][..w - 1] == s[i + 1..i + w];
  }

  /** A sequence r rises between neighbours exactly where s rises between values
      w apart, so both count the same increases. */
  lemma {:induction false} SameTrend(r: seq<int>, s: seq<int>, w: nat)
    requires w > 0 && |s| >= w && |r| == |s| - w + 1
    requires forall j :: 0 <= j < |r| - 1 ==> (r[j] < r[j + 1]) == (s[j] < s[j + w])
    ensures Increases(r) == GapIncreases(s, w)
    decreases |r|
  {
    if |r| > 1 {
      var r' := r[..|r| - 1];
      var s' := s[..|s| - 1];
      forall j | 0 <= j < |r'| - 1 ensures (r'[j] < r'[j + 1]) == (s'[j] < s'[j + w]) {
        assert r'[j] == r[j] && r'[j + 1] == r[j + 1];
        assert s'[j] == s[j] && s'[j + w] == s[j + w];
      }
      SameTrend(r', s', w);
    }
  }

  /** Counting increases between window sums of width w is counting the
      positions where a value exceeds the one w places earlier. */
  lemma WindowedIncreases(s: seq<int>, w: nat)
    requires w > 0
    ensures Increases(SumWindows(s, w)) == GapIncreases(s, w)
  {
    if |s| >= w {
      var r := SumWindows(s, w);
      forall j | 0 <= j < |r| - 1 ensures (r[j] < r[j + 1]) == (s[j] < s[j + w]) {
        WindowShift(s, j, w);
      }
      SameTrend(r, s, w);
    }
  }

  /** The second number `main` reports: increases of the three-measurement
      window sums are the indices i with s[i - 3] < s[i]. */
  lemma ThreeWindowIncreases(s: seq<int>)
    ensures Increases(SumWindows(s, 3)) == |IncreaseIndices(s, 3)|
  {
    WindowedIncreases(s, 3);
    GapIncreasesCountsIndices(s, 3);
  }

  lemma CountIncreasesExample()
    ensures Increases([]) == 0 && Increases([1]) == 0
    ensures Increases([1, 2, 3, 2, 3, 1]) == 3
  {
    var s := [1, 2, 3, 2, 3, 1];
    assert s[..5] == [1, 2, 3, 2, 3];
    assert s[..5][..4] == [1, 2, 3, 2];
    assert s[..5][..4][..3] == [1, 2, 3];
    assert s[..5][..4][..3][..2] == [1, 2];
    assert s[..5][..4][..3][..2][..1] == [1];
    assert Increases([1, 2]) == 1;
    assert Increases([1, 2, 3]) == 2;
    assert Increases([1, 2, 3, 2]) == 2;
    assert Increases([1, 2, 3, 2, 3]) == 3;
  }

  lemma SumWindowsExample()
    ensures SumWindows([1, 2, 3, 4], 2) == [3, 5, 7]
  {
    var s := [1, 2, 3, 4];
    var r := SumWindows(s, 2);
    assert s[0..2] == [1, 2] && s[1..3] == [2, 3] && s[2..4] == [3, 4];
    assert [1, 2][1..] == [2] && [2, 3][1..] == [3] && [3, 4][1..] == [4];
    assert Sum([2]) == 2 && Sum([3]) == 3 && Sum([4]) == 4;
    assert r[0] == 3 && r[1] == 5 && r[2] == 7;
  }
}
