/** Binary diagnostic (day3/src/main.rs): column-wise bit statistics over a
    report of fixed-width rows (gamma and epsilon), and the iterative filter
    that narrows the report to one row (the oxygen and CO2 ratings). */
module Diagnostic {
  import opened Wrappers

  function Pow2(k: nat): (r: nat)
    ensures r >= 1
  {
    if k == 0 then 1 else 2 * Pow2(k - 1)
  }

  // ---- Bits -------------------------------------------------------------

  /** `get_bit`: bit `pos` of `num`, position 0 being the least significant;
      `num >> pos` is `pos` halvings. */
  function GetBit(num: nat, pos: nat): (b: nat)
    ensures b == 0 || b == 1
  {
    if pos == 0 then num % 2 else GetBit(num / 2, pos - 1)
  }

  lemma {:induction false} MulStep(b: nat, x: nat, y: nat)
    requires x < y
    ensures b * x + b <= b * y
    decreases y - x
  {
    if y > x + 1 {
      MulStep(b, x, y - 1);
    }
  }

  lemma DivUnique(a: nat, b: nat, q: nat, r: nat)
    requires b > 0 && r < b && a == b * q + r
    ensures a / b == q
  {
    var q0, r0 := a / b, a % b;
    assert a == b * q0 + r0;
    if q0 < q {
      MulStep(b, q0, q);
      assert false;
    } else if q < q0 {
      MulStep(b, q, q0);
      assert false;
    }
  }

  lemma HalveThenDivide(n: nat, m: nat)
    requires m > 0
    ensures (n / 2) / m == n / (2 * m)
  {
    var q := (n / 2) / m;
    var r := (n / 2) % m;
    assert n / 2 == m * q + r;
    assert n == 2 * (m * q) + 2 * r + n % 2;
    assert n == (2 * m) * q + (2 * r + n % 2);
    DivUnique(n, 2 * m, q, 2 * r + n % 2);
  }

  /** Bit `pos` is the remainder of `num / 2^pos` by two. */
  lemma {:induction false} GetBitIsShift(num: nat, pos: nat)
    ensures GetBit(num, pos) == (num / Pow2(pos)) % 2
  {
    if pos > 0 {
      GetBitIsShift(num / 2, pos - 1);
      HalveThenDivide(num, Pow2(pos - 1));
    }
  }

  /** Two numbers below 2^k with the same k low bits are equal. */
  lemma {:induction false} SameBitsSameValue(x: nat, y: nat, k: nat)
    requires x < Pow2(k) && y < Pow2(k)
    requires forall p :: 0 <= p < k ==> GetBit(x, p) == GetBit(y, p)
    ensures x == y
  {
    if k > 0 {
      assert GetBit(x, 0) == GetBit(y, 0);
      forall p | 0 <= p < k - 1
        ensures GetBit(x / 2, p) == GetBit(y / 2, p)
      {
        assert GetBit(x, p + 1) == GetBit(y, p + 1);
      }
      SameBitsSameValue(x / 2, y / 2, k - 1);
    }
  }

  // ---- Assembling bits, most significant first --------------------------

  predicate IsBits(bits: seq<nat>)
  {
    forall i :: 0 <= i < |bits| ==> bits[i] <= 1
  }

  /** The number whose binary digits, most significant first, are `bits`. */
  function BitsValue(bits: seq<nat>): nat
  {
    if bits == [] then 0 else 2 * BitsValue(bits[..|bits| - 1]) + bits[|bits| - 1]
  }

  /** The positional reading: bit i weighs 2^(n - 1 - i). */
  function WeightedSum(bits: seq<nat>): nat
  {
    if bits == [] then 0 else bits[0] * Pow2(|bits| - 1) + WeightedSum(bits[1..])
  }

  lemma {:induction false} BitsValueFirst(bits: seq<nat>)
    requires bits != []
    ensures BitsValue(bits) == bits[0] * Pow2(|bits| - 1) + BitsValue(bits[1..])
    decreases |bits|
  {
    var n := |bits|;
    if n > 1 {
      var init := bits[..n - 1];
      BitsValueFirst(init);
      assert init[1..] == bits[1..][..n - 2];
      assert 2 * (bits[0] * Pow2(n - 2)) == bits[0] * Pow2(n - 1);
    }
  }

  lemma {:induction false} BitsValueIsWeightedSum(bits: seq<nat>)
    ensures BitsValue(bits) == WeightedSum(bits)
    decreases |bits|
  {
    if bits != [] {
      BitsValueFirst(bits);
      BitsValueIsWeightedSum(bits[1..]);
    }
  }

  /** n bits make a number below 2^n. */
  lemma {:induction false} BitsValueBound(bits: seq<nat>)
    requires IsBits(bits)
    ensures BitsValue(bits) < Pow2(|bits|)
    decreases |bits|
  {
    if bits != [] {
      BitsValueBound(bits[..|bits| - 1]);
    }
  }

  /** Reading bit n - 1 - i of the assembled number gives back bits[i]. */
  lemma {:induction false} BitsValueRoundTrip(bits: seq<nat>, i: nat)
    requires IsBits(bits) && i < |bits|
    ensures GetBit(BitsValue(bits), |bits| - 1 - i) == bits[i]
    decreases |bits|
  {
    var n := |bits|;
    var v := BitsValue(bits[..n - 1]);
    assert BitsValue(bits) == 2 * v + bits[n - 1];
    if i < n - 1 {
      assert (2 * v + bits[n - 1]) / 2 == v;
      BitsValueRoundTrip(bits[..n - 1], i);
    }
  }

  /** `bit_array`: shift the result left and add each bit in turn. */
  method BitArray(bits: seq<nat>) returns (result: nat)
    ensures result == WeightedSum(bits)
    ensures IsBits(bits) ==> result < Pow2(|bits|)
    ensures IsBits(bits) ==> forall i :: 0 <= i < |bits| ==> GetBit(result, |bits| - 1 - i) == bits[i]
  {
    result := 0;
    for i := 0 to |bits|
      invariant result == BitsValue(bits[..i])
    {
      assert bits[..i + 1][..i] == bits[..i];
      result := result * 2;
      result := result + bits[i];
    }
    assert bits[..|bits|] == bits;
    BitsValueIsWeightedSum(bits);
    if IsBits(bits) {
      BitsValueBound(bits);
      forall i | 0 <= i < |bits| ensures GetBit(result, |bits| - 1 - i) == bits[i] {
        BitsValueRoundTrip(bits, i);
      }
    }
  }

  // ---- Column statistics ------------------------------------------------

  /** `count_ones`: how many rows have a 1 at bit `pos`. */
  function CountOnes(rows: seq<nat>, pos: nat): (r: nat)
    ensures r <= |rows|
  {
    if rows == [] then 0 else GetBit(rows[0], pos) + CountOnes(rows[1..], pos)
  }

  /** `get_gamma`: count the ones of every column, then set a bit of gamma
      exactly where the ones are a strict majority (more than half the count of
      rows, rounded down), most significant column first. */
  method GetGamma(rows: seq<nat>, rowLen: nat) returns (gamma: nat)
    ensures gamma < Pow2(rowLen)
    ensures forall p :: 0 <= p < rowLen ==> (GetBit(gamma, p) == 1 <==> CountOnes(rows, p) > |rows| / 2)
  {
    var ones: seq<nat> := [];
    for pos := 0 to rowLen
      invariant |ones| == pos
      invariant forall p :: 0 <= p < pos ==> ones[p] == CountOnes(rows, p)
    {
      ones := ones + [CountOnes(rows, pos)];
    }
    var half := |rows| / 2;
    var bits := seq(rowLen, i requires 0 <= i < rowLen => if ones[rowLen - 1 - i] > half then 1 else 0);
    gamma := BitArray(bits);
    forall p | 0 <= p < rowLen
      ensures GetBit(gamma, p) == 1 <==> CountOnes(rows, p) > half
    {
      assert GetBit(gamma, rowLen - 1 - (rowLen - 1 - p)) == bits[rowLen - 1 - p];
    }
  }

  /** `get_epsilon`: `(1 << row_len) - 1 - gamma` in u16 arithmetic, which
      panics unless row_len < 16 and gamma fits in row_len bits. Epsilon is
      gamma with each of its row_len bits flipped. */
  function GetEpsilon(gamma: nat, rowLen: nat): (e: nat)
    requires rowLen < 16 && gamma < Pow2(rowLen)
    ensures gamma + e == Pow2(rowLen) - 1
    ensures e < Pow2(rowLen)
    ensures forall p :: 0 <= p < rowLen ==> GetBit(e, p) == 1 - GetBit(gamma, p)
  {
    ComplementFlipsBits(gamma, rowLen);
    Pow2(rowLen) - 1 - gamma
  }

  lemma {:induction false} ComplementFlipsBits(g: nat, r: nat)
    requires g < Pow2(r)
    ensures forall p :: 0 <= p < r ==> GetBit(Pow2(r) - 1 - g, p) == 1 - GetBit(g, p)
  {
    if r > 0 {
      var e := Pow2(r) - 1 - g;
      var h := Pow2(r - 1);
      assert e == 2 * (h - 1 - g / 2) + (1 - g % 2);
      assert e % 2 == 1 - g % 2;
      assert e / 2 == h - 1 - g / 2;
      ComplementFlipsBits(g / 2, r - 1);
    }
  }

  /** With gamma's bits set where ones are a strict majority, epsilon's bits
      are set where they are not: ties go to epsilon. */
  lemma EpsilonIsMinority(rows: seq<nat>, rowLen: nat, gamma: nat)
    requires rowLen < 16 && gamma < Pow2(rowLen)
    requires forall p :: 0 <= p < rowLen ==> (GetBit(gamma, p) == 1 <==> CountOnes(rows, p) > |rows| / 2)
    ensures forall p :: 0 <= p < rowLen ==>
      (GetBit(GetEpsilon(gamma, rowLen), p) == 1 <==> CountOnes(rows, p) <= |rows| / 2)
  {
  }

  // ---- Filtering --------------------------------------------------------

  /** a is an order-preserving subsequence of b. */
  predicate IsSubsequence(a: seq<nat>, b: seq<nat>)
    decreases |b|
  {
    a == [] || (b != [] && ((a[0] == b[0] && IsSubsequence(a[1..], b[1..])) || IsSubsequence(a, b[1..])))
  }

  lemma {:induction false} SubsequenceReflexive(a: seq<nat>)
    ensures IsSubsequence(a, a)
    decreases |a|
  {
    if a != [] {
      SubsequenceReflexive(a[1..]);
    }
  }

  lemma {:induction false} SubsequenceMembers(a: seq<nat>, b: seq<nat>)
    requires IsSubsequence(a, b)
    ensures forall x :: x in a ==> x in b
    decreases |b|
  {
    if a != [] {
      if a[0] == b[0] && IsSubsequence(a[1..], b[1..]) {
        SubsequenceMembers(a[1..], b[1..]);
        assert a == [a[0]] + a[1..];
      } else {
        SubsequenceMembers(a, b[1..]);
      }
    }
  }

  lemma {:induction false} SubsequenceTransitive(a: seq<nat>, b: seq<nat>, c: seq<nat>)
    requires IsSubsequence(a, b) && IsSubsequence(b, c)
    ensures IsSubsequence(a, c)
    decreases |c|
  {
    if a != [] && b != [] {
      if b[0] == c[0] && IsSubsequence(b[1..], c[1..]) {
        if a[0] == b[0] && IsSubsequence(a[1..], b[1..]) {
          SubsequenceTransitive(a[1..], b[1..], c[1..]);
        } else {
          SubsequenceTransitive(a, b[1..], c[1..]);
        }
      } else {
        SubsequenceTransitive(a, b, c[1..]);
      }
    }
  }

  predicate Distinct(s: seq<nat>)
  {
    forall i, j :: 0 <= i < j < |s| ==> s[i] != s[j]
  }

  lemma {:induction false} SubsequenceDistinct(a: seq<nat>, b: seq<nat>)
    requires IsSubsequence(a, b) && Distinct(b)
    ensures Distinct(a)
    decreases |b|
  {
    if a != [] {
      if a[0] == b[0] && IsSubsequence(a[1..], b[1..]) {
        SubsequenceDistinct(a[1..], b[1..]);
        SubsequenceMembers(a[1..], b[1..]);
        assert b[0] !in b[1..];
        forall i, j | 0 <= i < j < |a| ensures a[i] != a[j] {
          assert a[j] == a[1..][j - 1];
          if i > 0 {
            assert a[i] == a[1..][i - 1];
          }
        }
      } else {
        SubsequenceDistinct(a, b[1..]);
      }
    }
  }

  /** `filter_reads`: the rows whose bit `pos` equals `bit`, in their original
      order. */
  function FilterReads(rows: seq<nat>, pos: nat, bit: nat): (r: seq<nat>)
    ensures |r| <= |rows|
  {
    if rows == [] then []
    else
      var rest := FilterReads(rows[1..], pos, bit);
      if GetBit(rows[0], pos) == bit then [rows[0]] + rest else rest
  }

  /** Filtering preserves order: the kept rows are a subsequence of the input. */
  lemma {:induction false} FilterReadsSubsequence(rows: seq<nat>, pos: nat, bit: nat)
    ensures IsSubsequence(FilterReads(rows, pos, bit), rows)
    decreases |rows|
  {
    if rows != [] {
      var rest := FilterReads(rows[1..], pos, bit);
      FilterReadsSubsequence(rows[1..], pos, bit);
      if GetBit(rows[0], pos) == bit {
        assert ([rows[0]] + rest)[1..] == rest;
      }
    }
  }

  /** Filtering keeps every row with the chosen bit as often as the input
      holds it, and no other row. */
  lemma {:induction false} FilterReadsContents(rows: seq<nat>, pos: nat, bit: nat)
    ensures forall x ::
              multiset(FilterReads(rows, pos, bit))[x] == if GetBit(x, pos) == bit then multiset(rows)[x] else 0
    decreases |rows|
  {
    if rows != [] {
      FilterReadsContents(rows[1..], pos, bit);
      assert rows == [rows[0]] + rows[1..];
    }
  }

  /** Every kept row is a row of the input and has the chosen bit. */
  lemma FilterReadsKeeps(rows: seq<nat>, pos: nat, bit: nat)
    ensures forall x :: x in FilterReads(rows, pos, bit) ==> x in rows && GetBit(x, pos) == bit
  {
    var r := FilterReads(rows, pos, bit);
    FilterReadsContents(rows, pos, bit);
    forall x | x in r ensures x in rows && GetBit(x, pos) == bit {
      assert multiset(r)[x] > 0;
    }
  }

  /** The ones counted at a position are the rows kept by filtering for 1;
      the rows kept for 0 are all the others. */
  lemma {:induction false} CountOnesIsFilterLength(rows: seq<nat>, pos: nat)
    ensures CountOnes(rows, pos) == |FilterReads(rows, pos, 1)|
    ensures |FilterReads(rows, pos, 0)| + |FilterReads(rows, pos, 1)| == |rows|
    decreases |rows|
  {
    if rows != [] {
      CountOnesIsFilterLength(rows[1..], pos);
    }
  }

  // ---- Ratings ----------------------------------------------------------

  /** The two bit criteria `get_rating` is called with. */
  datatype Criterion = O2 | CO2

  /** `get_o2_bit_criteria` / `get_co2_bit_criteria` applied to the ones count
      and half the survivor count. The f32 comparisons are exact here, so
      `ones >= n / 2.0` is `2 * ones >= n`. Oxygen keeps the most common bit
      (1 on a tie), CO2 the least common bit (0 on a tie). */
  function BitCriteria(c: Criterion, ones: nat, n: nat): (b: nat)
    ensures b == 0 || b == 1
    ensures c == O2 ==> (b == 1 <==> ones >= n - ones)
    ensures c == CO2 ==> (b == 1 <==> ones < n - ones)
  {
    match c
    case O2 => if 2 * ones >= n then 1 else 0
    case CO2 => if 2 * ones < n then 1 else 0
  }

  /** On one and the same column the two criteria choose opposite bits. */
  lemma CriteriaOpposite(ones: nat, n: nat)
    ensures BitCriteria(O2, ones, n) + BitCriteria(CO2, ones, n) == 1
  {
  }

  /** One step of the rating loop: keep the survivors whose bit `pos` is the
      one the criterion picks from the survivors' own ones count. */
  function Narrow(survivors: seq<nat>, pos: nat, c: Criterion): (r: seq<nat>)
    ensures forall x :: x in r ==> x in survivors
    ensures forall x :: x in r ==> GetBit(x, pos) == BitCriteria(c, CountOnes(survivors, pos), |survivors|)
  {
    var bit := BitCriteria(c, CountOnes(survivors, pos), |survivors|);
    FilterReadsKeeps(survivors, pos, bit);
    FilterReads(survivors, pos, bit)
  }

  /** The rating that narrowing `survivors` at positions pos - 1 down to 0
      finds: the sole survivor as soon as exactly one is left, None when the
      positions run out first. */
  function Rating(survivors: seq<nat>, pos: nat, c: Criterion): (r: Option<nat>)
    ensures r.Some? ==> r.value in survivors
    decreases pos
  {
    if pos == 0 then None
    else
      var next := Narrow(survivors, pos - 1, c);
      if |next| == 1 then Some(next[0]) else Rating(next, pos - 1, c)
  }

  /** The oxygen criterion never discards every survivor. */
  lemma O2NarrowNonEmpty(survivors: seq<nat>, pos: nat)
    requires survivors != []
    ensures Narrow(survivors, pos, O2) != []
  {
    CountOnesIsFilterLength(survivors, pos);
  }

  /** The loop's invariant: if the survivors agree on the bits from k up to
      rowLen - 1, the next survivors also agree on bit k - 1, the one just chosen. */
  lemma NarrowAgreement(survivors: seq<nat>, k: nat, rowLen: nat, c: Criterion)
    requires 1 <= k <= rowLen
    requires forall x, y, p :: x in survivors && y in survivors && k <= p < rowLen ==> GetBit(x, p) == GetBit(y, p)
    ensures forall x, y, p :: x in Narrow(survivors, k - 1, c) && y in Narrow(survivors, k - 1, c) && k - 1 <= p < rowLen ==>
      GetBit(x, p) == GetBit(y, p)
  {
    var next := Narrow(survivors, k - 1, c);
    forall x, y, p | x in next && y in next && k - 1 <= p < rowLen
      ensures GetBit(x, p) == GetBit(y, p)
    {
      if p >= k {
        assert x in survivors && y in survivors;
      }
    }
  }

  /** The rows still in the running once positions rowLen - 1 down to k have
      been narrowed, ignoring the early exit at one survivor. */
  function Survivors(rows: seq<nat>, rowLen: nat, c: Criterion, k: nat): (r: seq<nat>)
    requires k <= rowLen
    ensures |r| <= |rows|
    decreases rowLen - k
  {
    if k == rowLen then rows else Narrow(Survivors(rows, rowLen, c, k + 1), k, c)
  }

  /** What the narrowing loop keeps across all its steps: the survivors are an
      order-preserving subsequence of the rows, and they agree on every
      position chosen so far. */
  lemma {:induction false} SurvivorsAgree(rows: seq<nat>, rowLen: nat, c: Criterion, k: nat)
    requires k <= rowLen
    ensures IsSubsequence(Survivors(rows, rowLen, c, k), rows)
    ensures forall x, y, p :: x in Survivors(rows, rowLen, c, k) && y in Survivors(rows, rowLen, c, k) && k <= p < rowLen ==>
      GetBit(x, p) == GetBit(y, p)
    decreases rowLen - k
  {
    if k == rowLen {
      SubsequenceReflexive(rows);
    } else {
      var prev := Survivors(rows, rowLen, c, k + 1);
      var bit := BitCriteria(c, CountOnes(prev, k), |prev|);
      SurvivorsAgree(rows, rowLen, c, k + 1);
      NarrowAgreement(prev, k + 1, rowLen, c);
      FilterReadsSubsequence(prev, k, bit);
      SubsequenceTransitive(FilterReads(prev, k, bit), prev, rows);
    }
  }

  /** No narrowing step from column k - 1 down to 0 leaves exactly one row. */
  predicate NoSoleSurvivor(rows: seq<nat>, rowLen: nat, c: Criterion, k: nat)
    requires k <= rowLen
  {
    forall j :: 0 <= j < k ==> |Survivors(rows, rowLen, c, j)| != 1
  }

  /** Narrowing the survivors of column k with the recursive rating is the same
      as following the survivors one column further. */
  lemma RatingStep(rows: seq<nat>, rowLen: nat, c: Criterion, k: nat)
    requires 0 < k <= rowLen
    ensures var next := Survivors(rows, rowLen, c, k - 1);
      Rating(Survivors(rows, rowLen, c, k), k, c) == if |next| == 1 then Some(next[0]) else Rating(next, k - 1, c)
  {
  }

  /** A rating found from the survivors of column k is the sole survivor of
      the first step j below k that leaves one row. */
  lemma {:induction false} RatingOfSurvivors(rows: seq<nat>, rowLen: nat, c: Criterion, k: nat) returns (j: nat)
    requires k <= rowLen
    requires Rating(Survivors(rows, rowLen, c, k), k, c).Some?
    ensures j < k && Survivors(rows, rowLen, c, j) == [Rating(Survivors(rows, rowLen, c, k), k, c).value]
    ensures forall i :: j < i < k ==> |Survivors(rows, rowLen, c, i)| != 1
    decreases k
  {
    var next := Survivors(rows, rowLen, c, k - 1);
    RatingStep(rows, rowLen, c, k);
    if |next| == 1 {
      j := k - 1;
      assert next == [next[0]];
    } else {
      j := RatingOfSurvivors(rows, rowLen, c, k - 1);
      forall i | j < i < k ensures |Survivors(rows, rowLen, c, i)| != 1 {
        if i == k - 1 {
          assert |next| != 1;
        }
      }
    }
  }

  /** No rating is found from the survivors of column k exactly when no step
      below k leaves one row. */
  lemma {:induction false} NoRatingOfSurvivors(rows: seq<nat>, rowLen: nat, c: Criterion, k: nat)
    requires k <= rowLen
    ensures Rating(Survivors(rows, rowLen, c, k), k, c).None? <==> NoSoleSurvivor(rows, rowLen, c, k)
    decreases k
  {
    if k > 0 {
      RatingStep(rows, rowLen, c, k);
      NoRatingOfSurvivors(rows, rowLen, c, k - 1);
      assert NoSoleSurvivor(rows, rowLen, c, k) <==>
        |Survivors(rows, rowLen, c, k - 1)| != 1 && NoSoleSurvivor(rows, rowLen, c, k - 1);
    }
  }

  /** The rating of a report is the sole survivor of the first narrowing step
      that leaves one row, counting from the most significant column, and
      there is none exactly when no step leaves one row. */
  lemma RatingIsFirstSoleSurvivor(rows: seq<nat>, rowLen: nat, c: Criterion)
    ensures Rating(rows, rowLen, c).Some? ==>
      exists j :: 0 <= j < rowLen && Survivors(rows, rowLen, c, j) == [Rating(rows, rowLen, c).value] &&
        forall i :: j < i < rowLen ==> |Survivors(rows, rowLen, c, i)| != 1
    ensures Rating(rows, rowLen, c).None? <==> NoSoleSurvivor(rows, rowLen, c, rowLen)
  {
    assert Survivors(rows, rowLen, c, rowLen) == rows;
    if Rating(rows, rowLen, c).Some? {
      var j := RatingOfSurvivors(rows, rowLen, c, rowLen);
    }
    NoRatingOfSurvivors(rows, rowLen, c, rowLen);
  }

  /** On a report of distinct rows of rowLen >= 1 bits, the oxygen rating is
      always found: survivors stay nonempty and distinct, and agree on every
      bit chosen so far, so once all bits are chosen only one row is left. */
  lemma {:induction false} O2RatingFound(survivors: seq<nat>, k: nat, rowLen: nat)
    requires 1 <= k <= rowLen
    requires survivors != [] && Distinct(survivors)
    requires forall x :: x in survivors ==> x < Pow2(rowLen)
    requires forall x, y, p :: x in survivors && y in survivors && k <= p < rowLen ==> GetBit(x, p) == GetBit(y, p)
    ensures Rating(survivors, k, O2).Some?
    decreases k
  {
    var next := Narrow(survivors, k - 1, O2);
    O2NarrowNonEmpty(survivors, k - 1);
    FilterReadsSubsequence(survivors, k - 1, BitCriteria(O2, CountOnes(survivors, k - 1), |survivors|));
    SubsequenceDistinct(next, survivors);
    NarrowAgreement(survivors, k, rowLen, O2);
    if |next| != 1 {
      if k == 1 {
        var x, y := next[0], next[1];
        assert x != y;
        assert x in next && y in next;
        SameBitsSameValue(x, y, rowLen);
      } else {
        O2RatingFound(next, k - 1, rowLen);
      }
    }
  }

  /** `get_rating`: starting from all rows, narrow at positions row_len - 1
      down to 0 and return the sole survivor as soon as there is one; a report
      that never narrows to one row makes the source panic (None). */
  method GetRating(rows: seq<nat>, rowLen: nat, c: Criterion) returns (r: Option<nat>)
    ensures r == Rating(rows, rowLen, c)
    ensures r.Some? ==> r.value in rows
    ensures c == O2 && rowLen >= 1 && rows != [] && Distinct(rows) && (forall x :: x in rows ==> x < Pow2(rowLen))
      ==> r.Some?
  {
    var result := rows;
    SubsequenceReflexive(rows);
    for i := rowLen downto 0
      invariant result == Survivors(rows, rowLen, c, i)
      invariant Rating(result, i, c) == Rating(rows, rowLen, c)
      invariant IsSubsequence(result, rows)
      invariant forall x, y, p :: x in result && y in result && i <= p < rowLen ==> GetBit(x, p) == GetBit(y, p)
    {
      var ones := CountOnes(result, i);
      var bit := BitCriteria(c, ones, |result|);
      result := FilterReads(result, i, bit);
      SurvivorsAgree(rows, rowLen, c, i);
      if |result| == 1 {
        return Some(result[0]);
      }
    }
    r := None;
    if c == O2 && rowLen >= 1 && rows != [] && Distinct(rows) && (forall x :: x in rows ==> x < Pow2(rowLen)) {
      O2RatingFound(rows, rowLen, rowLen);
    }
  }

  /** `get_o2_rating`. */
  method GetO2Rating(rows: seq<nat>, rowLen: nat) returns (r: Option<nat>)
    ensures r == Rating(rows, rowLen, O2)
    ensures r.Some? ==> r.value in rows
    ensures rowLen >= 1 && rows != [] && Distinct(rows) && (forall x :: x in rows ==> x < Pow2(rowLen)) ==> r.Some?
  {
    r := GetRating(rows, rowLen, O2);
  }

  /** `get_co2_rating`. */
  method GetCO2Rating(rows: seq<nat>, rowLen: nat) returns (r: Option<nat>)
    ensures r == Rating(rows, rowLen, CO2)
    ensures r.Some? ==> r.value in rows
  {
    r := GetRating(rows, rowLen, CO2);
  }

  // ---- The source's test values ------------------------------------------

  lemma GetBitExample()
    ensures GetBit(0x0A, 0) == 0 && GetBit(0x0A, 1) == 1 && GetBit(0x0A, 2) == 0 && GetBit(0x0A, 3) == 1
  {
  }

  lemma BitArrayExample()
    ensures WeightedSum([1, 0, 1, 0]) == 0x0A
  {
  }

  lemma CountOnesExample()
    ensures CountOnes([4, 1, 7], 0) == 2 && CountOnes([4, 1, 7], 1) == 1
    ensures CountOnes([4, 1, 7], 2) == 2 && CountOnes([4, 1, 7], 3) == 0
  {
  }

  /** The gamma contract pins down the source's expected value 0b0101. */
  lemma GammaExample(gamma: nat)
    requires gamma < Pow2(4)
    requires forall p :: 0 <= p < 4 ==> (GetBit(gamma, p) == 1 <==> CountOnes([4, 1, 7], p) > 3 / 2)
    ensures gamma == 5
  {
    CountOnesExample();
    assert GetBit(5, 0) == 1 && GetBit(5, 1) == 0 && GetBit(5, 2) == 1 && GetBit(5, 3) == 0;
    SameBitsSameValue(gamma, 5, 4);
  }

  lemma EpsilonExample()
    ensures GetEpsilon(5, 4) == 10
  {
  }

  lemma FilterReadsExample()
    ensures FilterReads([0, 1, 2, 3], 0, 1) == [1, 3]
  {
    assert [0, 1, 2, 3][1..] == [1, 2, 3] && [1, 2, 3][1..] == [2, 3] && [2, 3][1..] == [3] && [3][1..] == [];
    assert FilterReads([3], 0, 1) == [3];
    assert FilterReads([2, 3], 0, 1) == [3];
    assert FilterReads([1, 2, 3], 0, 1) == [1, 3];
  }

  // The narrowing steps on the source's test rows [0b0100, 0b0001, 0b0111, 0b1011, 0b1111].

  /** Column 3 holds two ones among five rows: oxygen keeps the 0s, CO2 the 1s. */
  lemma RatingExampleColumn3()
    ensures CountOnes([4, 1, 7, 11, 15], 3) == 2
    ensures FilterReads([4, 1, 7, 11, 15], 3, 0) == [4, 1, 7]
    ensures FilterReads([4, 1, 7, 11, 15], 3, 1) == [11, 15]
  {
    assert FilterReads([11, 15], 3, 0) == [];
    assert FilterReads([11, 15], 3, 1) == [11, 15];
  }

  /** Oxygen, columns 2 and 1: [4, 1, 7] narrows to [4, 7], then to [7]. */
  lemma O2ExampleColumns2To1()
    ensures CountOnes([4, 1, 7], 2) == 2 && FilterReads([4, 1, 7], 2, 1) == [4, 7]
    ensures CountOnes([4, 7], 1) == 1 && FilterReads([4, 7], 1, 1) == [7]
  {
  }

  lemma O2RatingExample()
    ensures Rating([4, 1, 7, 11, 15], 4, O2) == Some(7)
  {
    RatingExampleColumn3();
    O2ExampleColumns2To1();
  }

  lemma CO2RatingExample()
    ensures Rating([4, 1, 7, 11, 15], 4, CO2) == Some(11)
  {
    RatingExampleColumn3();
    assert CountOnes([11, 15], 2) == 1 && FilterReads([11, 15], 2, 0) == [11];
  }

  /** CO2 can discard every survivor (here both rows have a 1 in the top
      column, so it keeps the rows with a 0): the source then panics. */
  lemma CO2CanEmpty()
    ensures Narrow([4, 5], 2, CO2) == []
    ensures Rating([4, 5], 3, CO2) == None
  {
  }
}
