/** The unsigned big integers of src/security/bignum.cpp: little-endian 32-bit limbs, no high zero
    limb. Every operation is proved against `Value`, the natural number the limbs stand for. */
module BigUInt {
  import opened Common
  import opened Arithmetic

  const B: nat := TWO_32

  predicate Normal(a: seq<u32>) {
    |a| > 0 ==> a[|a| - 1] != 0
  }

  /** A limb vector as every public operation leaves it: trimmed. */
  type Big = a: seq<u32> | Normal(a) witness []

  function Limb(a: seq<u32>, i: nat): u32 {
    if i < |a| then a[i] else 0
  }

  /** x moved up by i limbs: x * B^i, in steps the solver can follow linearly. */
  ghost function Up(x: int, i: nat): int {
    if i == 0 then x else B * Up(x, i - 1)
  }

  /** Value of the i least significant limbs; limbs past the end count as zero. */
  ghost function Low(a: seq<u32>, i: nat): int {
    if i == 0 then 0 else Low(a, i - 1) + Up(Limb(a, i - 1), i - 1)
  }

  ghost function Value(a: seq<u32>): (v: nat)
  {
    LowNonNegative(a, |a|);
    Low(a, |a|)
  }

  // ---- Moving up by limbs ----

  lemma {:induction false} UpAdd(x: int, y: int, i: nat)
    ensures Up(x + y, i) == Up(x, i) + Up(y, i)
    ensures Up(x - y, i) == Up(x, i) - Up(y, i)
  {
    if i > 0 { UpAdd(x, y, i - 1); }
  }

  lemma {:induction false} UpLess(x: int, y: int, i: nat)
    ensures x < y <==> Up(x, i) < Up(y, i)
    ensures x == 0 ==> Up(x, i) == 0
  {
    if i > 0 { UpLess(x, y, i - 1); }
  }

  lemma {:induction false} UpNext(x: int, i: nat)
    ensures Up(x, i + 1) == Up(B * x, i)
  {
    if i > 0 { UpNext(x, i - 1); }
  }

  lemma {:induction false} UpUp(x: int, i: nat, j: nat)
    ensures Up(Up(x, j), i) == Up(x, i + j)
  {
    if i > 0 { UpUp(x, i - 1, j); }
  }

  lemma {:induction false} UpTimes(x: int, i: nat, v: int)
    ensures Up(x, i) * v == Up(x * v, i)
  {
    if i > 0 {
      UpTimes(x, i - 1, v);
      MulAssociative(B, Up(x, i - 1), v);
    }
  }

  lemma {:induction false} UpIsPow(x: int, i: nat)
    ensures Up(x, i) == x * Pow(B, i)
  {
    if i > 0 {
      UpIsPow(x, i - 1);
      MulCommute3(B, x, Pow(B, i - 1));
    }
  }

  /** A word spread over two neighbouring limbs. */
  lemma SplitWord(s: int, i: nat)
    ensures Up(s, i) == Up(s % B, i) + Up(s / B, i + 1)
  {
    UpNext(s / B, i);
    UpAdd(B * (s / B), s % B, i);
  }

  // ---- Facts about values ----

  lemma {:induction false} LowNonNegative(a: seq<u32>, i: nat)
    ensures 0 <= Low(a, i)
  {
    if i > 0 {
      LowNonNegative(a, i - 1);
      UpLess(-1, Limb(a, i - 1), i - 1);
      UpLess(0, Limb(a, i - 1), i - 1);
    }
  }

  lemma {:induction false} LowFrame(a: seq<u32>, b: seq<u32>, i: nat)
    requires forall k :: 0 <= k < i ==> Limb(a, k) == Limb(b, k)
    ensures Low(a, i) == Low(b, i)
  {
    if i > 0 { LowFrame(a, b, i - 1); }
  }

  lemma {:induction false} LowBeyond(a: seq<u32>, i: nat)
    requires |a| <= i
    ensures Low(a, i) == Value(a)
  {
    if |a| < i {
      LowBeyond(a, i - 1);
      UpLess(0, 0, i - 1);
    }
  }

  lemma {:induction false} LowBound(a: seq<u32>, i: nat)
    ensures Low(a, i) < Up(1, i)
  {
    if i > 0 {
      LowBound(a, i - 1);
      UpAdd(Limb(a, i - 1), 1, i - 1);
      UpNext(1, i - 1);
      UpLess(Limb(a, i - 1), B, i - 1);
      UpLess(Limb(a, i - 1) + 1, B, i - 1);
    }
  }

  /** Writing one limb changes the value by the difference at that weight. */
  lemma {:induction false} LowUpdate(a: seq<u32>, p: nat, x: u32, n: nat)
    requires p < |a| && p < n
    ensures Low(a[p := x], n) == Low(a, n) + Up(x - a[p], p)
  {
    if p == n - 1 {
      LowFrame(a, a[p := x], p);
      UpAdd(x, a[p], p);
    } else {
      LowUpdate(a, p, x, n - 1);
    }
  }

  lemma {:induction false} LowMonotone(a: seq<u32>, i: nat, j: nat)
    requires i <= j
    ensures Low(a, i) <= Low(a, j)
  {
    if i < j {
      LowMonotone(a, i, j - 1);
      UpLess(-1, Limb(a, j - 1), j - 1);
      UpLess(0, Limb(a, j - 1), j - 1);
    }
  }

  lemma {:induction false} ZeroLow(a: seq<u32>, i: nat)
    requires forall k :: 0 <= k < |a| ==> a[k] == 0
    ensures Low(a, i) == 0
  {
    if i > 0 {
      ZeroLow(a, i - 1);
      UpLess(0, 0, i - 1);
    }
  }

  /** The number of limbs fixes the order of magnitude. */
  lemma NormalBounds(a: Big)
    ensures Value(a) < Up(1, |a|)
    ensures |a| > 0 ==> Up(1, |a| - 1) <= Value(a)
  {
    LowBound(a, |a|);
    if |a| > 0 {
      LowNonNegative(a, |a| - 1);
      UpLess(a[|a| - 1], 1, |a| - 1);
    }
  }

  lemma {:induction false} UpMonotone(i: nat, j: nat)
    requires i <= j
    ensures 0 < Up(1, i) <= Up(1, j)
  {
    UpLess(0, 1, i);
    UpLess(0, 0, i);
    if i < j { UpMonotone(i, j - 1); }
  }

  lemma LongerIsLarger(a: Big, b: Big)
    requires |a| < |b|
    ensures Value(a) < Value(b)
  {
    NormalBounds(a);
    NormalBounds(b);
    UpMonotone(|a|, |b| - 1);
  }

  /** The highest differing limb decides. */
  lemma {:induction false} HighLimbDecides(a: seq<u32>, b: seq<u32>, i: nat, n: nat)
    requires i < n && Limb(a, i) < Limb(b, i)
    requires forall k :: i < k < n ==> Limb(a, k) == Limb(b, k)
    ensures Low(a, n) < Low(b, n)
  {
    if i < n - 1 {
      HighLimbDecides(a, b, i, n - 1);
    } else {
      LowBound(a, i);
      LowNonNegative(b, i);
      UpAdd(Limb(a, i), 1, i);
      UpLess(Limb(b, i), Limb(a, i) + 1, i);
    }
  }

  /** Trimmed limbs are determined by the value. */
  lemma ValueInjective(a: Big, b: Big)
    requires Value(a) == Value(b)
    ensures a == b
  {
    if |a| < |b| { LongerIsLarger(a, b); } else if |b| < |a| { LongerIsLarger(b, a); }
    if a != b {
      var i := |a| - 1;
      while a[i] == b[i]
        invariant 0 <= i < |a|
        invariant a != b && forall k :: i < k < |a| ==> a[k] == b[k]
        decreases i
      {
        i := i - 1;
      }
      if a[i] < b[i] { HighLimbDecides(a, b, i, |a|); } else { HighLimbDecides(b, a, i, |a|); }
    }
  }

  // ---- trim, from_small, compare ----

  /** BigUInt::trim: pops high zero limbs. */
  method Trim(limbs: seq<u32>) returns (r: Big)
    ensures Value(r) == Value(limbs)
  {
    var n := |limbs|;
    while n > 0 && limbs[n - 1] == 0
      invariant 0 <= n <= |limbs|
      invariant Low(limbs, n) == Value(limbs)
    {
      n := n - 1;
      UpLess(0, 0, n);
    }
    r := limbs[..n];
    LowFrame(r, limbs, n);
  }

  method FromSmall(value: u32) returns (r: Big)
    ensures Value(r) == value
  {
    if value != 0 {
      r := [value];
      assert Low(r, 1) == Low(r, 0) + Up(value, 0);
    } else {
      r := [];
    }
  }

  ghost function Sign(x: int): int {
    if x < 0 then -1 else if x > 0 then 1 else 0
  }

  method Compare(a: Big, b: Big) returns (c: int)
    ensures c == Sign(Value(a) - Value(b))
  {
    if |a| != |b| {
      if |a| < |b| { LongerIsLarger(a, b); } else { LongerIsLarger(b, a); }
      return if |a| < |b| then -1 else 1;
    }
    var i := |a|;
    while i > 0
      invariant 0 <= i <= |a|
      invariant forall k :: i <= k < |a| ==> a[k] == b[k]
    {
      i := i - 1;
      if a[i] != b[i] {
        if a[i] < b[i] { HighLimbDecides(a, b, i, |a|); } else { HighLimbDecides(b, a, i, |a|); }
        return if a[i] < b[i] then -1 else 1;
      }
    }
    assert a == b;
    return 0;
  }

  // ---- add, subtract, shift ----

  method Add(a: Big, b: Big) returns (r: Big)
    ensures Value(r) == Value(a) + Value(b)
  {
    var n := Max(|a|, |b|) + 1;
    var result: seq<u32> := Fill(n, 0);
    var carry: u64 := 0;
    for i := 0 to n
      invariant |result| == n && carry <= 1
      invariant Low(result, i) + Up(carry, i) == Low(a, i) + Low(b, i)
    {
      var sum: u64 := Limb(a, i) + Limb(b, i) + carry;
      SplitWord(sum, i);
      UpAdd(Limb(a, i) + Limb(b, i), carry, i);
      UpAdd(Limb(a, i), Limb(b, i), i);
      LowFrame(result, result[i := sum % B], i);
      result := result[i := sum % B];
      carry := sum / B;
    }
    LowBeyond(a, n - 1);
    LowBeyond(b, n - 1);
    LowBound(a, n - 1);
    LowBound(b, n - 1);
    UpMonotone(0, n - 1);
    LowNonNegative(result, n);
    UpLess(0, carry, n);
    r := Trim(result);
  }

  /** The declared precondition a >= b is the source's own (bignum.cpp:98-101). */
  method Subtract(a: Big, b: Big) returns (r: Big)
    requires Value(b) <= Value(a)
    ensures Value(r) == Value(a) - Value(b)
  {
    var result: seq<u32> := Fill(|a|, 0);
    var borrow := 0;
    if |a| < |b| { LongerIsLarger(a, b); }
    for i := 0 to |a|
      invariant |result| == |a| && 0 <= borrow <= 1
      invariant Low(result, i) - Up(borrow, i) == Low(a, i) - Low(b, i)
    {
      var diff := a[i] - Limb(b, i) - borrow;
      UpAdd(a[i] - Limb(b, i), borrow, i);
      UpAdd(a[i], Limb(b, i), i);
      if diff < 0 {
        UpAdd(diff, B, i);
        UpNext(1, i);
        diff := diff + B;
        borrow := 1;
      } else {
        UpLess(0, 0, i + 1);
        borrow := 0;
      }
      LowFrame(result, result[i := diff], i);
      result := result[i := diff];
    }
    LowBeyond(b, |a|);
    LowBound(result, |a|);
    UpLess(0, 0, |a|);
    r := Trim(result);
  }

  method ShiftLeftOneBit(a: Big) returns (r: Big)
    ensures Value(r) == 2 * Value(a)
  {
    if |a| == 0 { return []; }
    var result: seq<u32> := Fill(|a| + 1, 0);
    var carry: u32 := 0;
    for i := 0 to |a|
      invariant |result| == |a| + 1 && carry <= 1
      invariant Low(result, i) + Up(carry, i) == 2 * Low(a, i)
    {
      var limb: int := a[i];
      // (limb << 1) drops its high bit and has a clear low bit, so `| carry` adds
      var doubled: u32 := (2 * limb) % B + carry;
      assert doubled == (2 * limb + carry) % B && limb / 0x8000_0000 == (2 * limb + carry) / B;
      SplitWord(2 * limb + carry, i);
      UpAdd(limb + limb, carry, i);
      UpAdd(limb, limb, i);
      LowFrame(result, result[i := doubled], i);
      result := result[i := doubled];
      carry := limb / 0x8000_0000;
    }
    LowFrame(result, result[|a| := carry], |a|);
    result := result[|a| := carry];
    r := Trim(result);
  }

  // ---- multiply ----

  /** One column of the schoolbook product fits 64 bits, and its carry fits one limb. */
  lemma ColumnFits(x: u32, y: u32, limb: u32, carry: u32)
    ensures 0 <= x * y + limb + carry < TWO_64
    ensures 0 <= (x * y + limb + carry) / B < B
  {
    DigitProduct(x, y, limb, carry, B);
    MulMonotone(x, 0, y);
  }

  /** What one column of the product, written back as a limb and a carry, does to the total. */
  lemma ColumnValue(before: seq<u32>, x: u32, b: seq<u32>, i: nat, j: nat, carry: u32, prod: u64)
    requires i + j < |before| && j < |b|
    requires prod == x * b[j] + before[i + j] + carry
    ensures Value(before[i + j := prod % B]) + Up(prod / B, i + j + 1) - Up(x * Low(b, j + 1), i)
         == Value(before) + Up(carry, i + j) - Up(x * Low(b, j), i)
  {
    hide *;
    var product := x * b[j];
    RowGrows(x, b, i, j);
    RippleValue(before, product + carry, i + j, prod);
    UpAdd(product, carry, i + j);
  }

  /** x * Low(b, j + 1) is x * Low(b, j) plus the next product, j limbs up. */
  lemma RowGrows(x: int, b: seq<u32>, i: nat, j: nat)
    requires j < |b|
    ensures Up(x * Low(b, j + 1), i) == Up(x * Low(b, j), i) + Up(x * b[j], i + j)
  {
    assert Low(b, j + 1) == Low(b, j) + Up(b[j], j);
    hide *;
    UpTimes(b[j], j, x);
    MulDistributes(Low(b, j), Up(b[j], j), x);
    UpAdd(x * Low(b, j), Up(x * b[j], j), i);
    UpUp(x * b[j], i, j);
  }

  /** Adding a carry into limb k and passing the rest on leaves the total as it was. */
  lemma RippleValue(before: seq<u32>, carry: nat, k: nat, sum: u64)
    requires k < |before| && sum == before[k] + carry
    ensures Value(before[k := sum % B]) + Up(sum / B, k + 1) == Value(before) + Up(carry, k)
  {
    hide Up, Low;
    var limb: int := before[k];
    LowUpdate(before, k, sum % B, |before|);
    SplitWord(sum, k);
    UpAdd(limb, carry, k);
    UpAdd(sum % B, limb, k);
  }

  /** The body of multiply's outer loop: adds x * b at limb i, then ripples the carry upwards. The
      bound holds of every partial product, and keeps the ripple inside the array. */
  method AddRow(start: seq<u32>, x: u32, b: seq<u32>, i: nat) returns (result: seq<u32>)
    requires i + |b| <= |start|
    requires Value(start) + Up(x * Value(b), i) < Up(1, |start|)
    ensures |result| == |start|
    ensures Value(result) == Value(start) + Up(x * Value(b), i)
  {
    result := start;
    var carry: u32 := 0;
    UpLess(0, 0, i);
    for j := 0 to |b|
      invariant |result| == |start|
      invariant Value(result) + Up(carry, i + j) - Up(x * Low(b, j), i) == Value(start)
    {
      ColumnFits(x, b[j], result[i + j], carry);
      var prod: u64 := x * b[j] + result[i + j] + carry;
      ColumnValue(result, x, b, i, j, carry, prod);
      result := result[i + j := prod % B];
      carry := prod / B;
    }
    var k := i + |b|;
    while carry != 0
      invariant i + |b| <= k <= |start| == |result|
      invariant Value(result) + Up(carry, k) == Value(start) + Up(x * Value(b), i)
      decreases carry, |start| - k
    {
      if k == |start| { UpLess(carry, 1, k); }
      var sum: u64 := result[k] + carry;
      RippleValue(result, carry, k, sum);
      result := result[k := sum % B];
      carry := sum / B;
      k := k + 1;
    }
    UpLess(0, 0, k);
  }

  method Multiply(a: Big, b: Big) returns (r: Big)
    ensures Value(r) == Value(a) * Value(b)
  {
    if |a| == 0 || |b| == 0 { return []; }
    var n := |a| + |b|;
    var result: seq<u32> := Fill(n, 0);
    ZeroLow(result, n);
    for i := 0 to |a|
      invariant |result| == n
      invariant Value(result) == Low(a, i) * Value(b)
    {
      UpTimes(a[i], i, Value(b));
      MulDistributes(Low(a, i), Up(a[i], i), Value(b));
      PartialProductFits(a, b, i + 1);
      result := AddRow(result, a[i], b, i);
    }
    r := Trim(result);
  }

  /** A partial product stays below the weight one past the array. */
  lemma PartialProductFits(a: seq<u32>, b: seq<u32>, i: nat)
    requires i <= |a|
    ensures Low(a, i) * Value(b) < Up(1, |a| + |b|)
  {
    LowNonNegative(a, i);
    LowMonotone(a, i, |a|);
    LowBound(a, |a|);
    LowBound(b, |b|);
    UpIsPow(1, |a|);
    UpIsPow(1, |b|);
    UpIsPow(1, |a| + |b|);
    PowAdd(B, |a|, |b|);
    MulStrict(Low(a, i), Value(b), Up(1, |a|), Up(1, |b|));
  }

  // ---- bit_length, get_bit ----

  /** Pow(2, 32) is one limb. */
  lemma LimbIsPow2(i: nat)
    ensures Up(1, i) == Pow(2, 32 * i)
  {
    assert Pow(2, 8) == 0x100;
    PowAdd(2, 8, 8);
    PowAdd(2, 16, 16);
    PowPow(2, 32, i);
    UpIsPow(1, i);
  }

  lemma {:induction false} LowHorner(a: seq<u32>, n: nat)
    requires 0 < n && 0 < |a|
    ensures Low(a, n) == a[0] + B * Low(a[1..], n - 1)
  {
    if n > 1 {
      LowHorner(a, n - 1);
      assert Limb(a, n - 1) == Limb(a[1..], n - 2);
    } else {
      assert Low(a, 1) == Low(a, 0) + Up(Limb(a, 0), 0);
    }
  }

  /** Cutting the limbs at i splits the value at weight B^i. */
  lemma {:induction false} ValueSplit(a: seq<u32>, i: nat)
    requires i <= |a|
    ensures Value(a) == Low(a, i) + Up(Value(a[i..]), i)
  {
    if i == 0 {
      assert a[0..] == a;
    } else {
      ValueSplit(a[1..], i - 1);
      LowHorner(a, |a|);
      LowHorner(a, i);
      assert a[1..][i - 1..] == a[i..];
    }
  }

  /** Dropping whole limbs is dividing. */
  lemma DropLimbs(a: seq<u32>, i: nat)
    requires i <= |a|
    ensures Value(a) / Pow(2, 32 * i) == Value(a[i..])
  {
    ValueSplit(a, i);
    LowBound(a, i);
    LowNonNegative(a, i);
    UpTimes(1, i, Value(a[i..]));
    LimbIsPow2(i);
    DivModUnique(Value(a), Pow(2, 32 * i), Value(a[i..]), Low(a, i));
  }

  method BitLength(a: Big) returns (n: nat)
    ensures Value(a) / Pow(2, n) == 0
    ensures if n == 0 then Value(a) == 0 else Value(a) / Pow(2, n - 1) == 1
  {
    if |a| == 0 { return 0; }
    n := (|a| - 1) * 32;
    var top := a[|a| - 1];
    DropLimbs(a, |a| - 1);
    LowHorner(a[|a| - 1..], 1);
    while top != 0
      invariant Value(a) / Pow(2, n) == top
      invariant top == 0 ==> n > 0 && Value(a) / Pow(2, n - 1) == 1
      decreases top
    {
      DivDiv(Value(a), Pow(2, n), 2);
      n := n + 1;
      top := top / 2;
    }
  }

  /** Bit `bit` of a word is not disturbed by anything a limb higher. */
  lemma LowBitOfWord(x: nat, h: nat, bit: nat)
    requires bit < 32
    ensures ((x + B * h) / Pow(2, bit)) % 2 == (x / Pow(2, bit)) % 2
  {
    LimbIsPow2(1);
    PowAdd(2, bit, 32 - bit);
    assert Up(1, 1) == B && Pow(2, 32 - bit) == 2 * Pow(2, 31 - bit);
    hide *;
    var step, rest := Pow(2, bit), Pow(2, 31 - bit);
    assert B == step * (2 * rest);
    assert B * h == (2 * (rest * h)) * step by {
      MulAssociative(step, 2 * rest, h);
      MulAssociative(2, rest, h);
    }
    DivAddMultiple(x, 2 * (rest * h), step);
    ModMultiple(x / step, rest * h, 2);
  }

  method GetBit(a: Big, index: nat) returns (set_: bool)
    ensures set_ <==> (Value(a) / Pow(2, index)) % 2 == 1
  {
    var limb, bit := index / 32, index % 32;
    PowAdd(2, 32 * limb, bit);
    DivDiv(Value(a), Pow(2, 32 * limb), Pow(2, bit));
    if limb >= |a| {
      LowBound(a, |a|);
      UpMonotone(|a|, limb);
      LimbIsPow2(limb);
      DivModUnique(Value(a), Pow(2, 32 * limb), 0, Value(a));
      DivModUnique(0, Pow(2, bit), 0, 0);
      return false;
    }
    DropLimbs(a, limb);
    LowHorner(a[limb..], |a| - limb);
    LowNonNegative(a[limb..][1..], |a| - limb - 1);
    LowBitOfWord(a[limb], Low(a[limb..][1..], |a| - limb - 1), bit);
    return (a[limb] / Pow(2, bit)) % 2 == 1;
  }

  // ---- mod, mod_pow ----

  /** One step of binary long division: bring down bit idx, subtract at most once. */
  lemma LongDivisionStep(v: nat, idx: nat, r: nat, m: nat)
    requires m > 0 && r == (v / Pow(2, idx + 1)) % m
    ensures var r' := 2 * r + (v / Pow(2, idx)) % 2;
            (v / Pow(2, idx)) % m == (if r' >= m then r' - m else r')
  {
    DivDiv(v, Pow(2, idx), 2);
    var q := v / Pow(2, idx + 1);
    var r' := 2 * r + (v / Pow(2, idx)) % 2;
    var k := 2 * (q / m);
    assert q == m * (q / m) + r;
    MulAssociative(2, q / m, m);
    assert v / Pow(2, idx) == k * m + r';
    if r' >= m {
      MulDistributes(k, 1, m);
      DivModUnique(v / Pow(2, idx), m, k + 1, r' - m);
    } else {
      DivModUnique(v / Pow(2, idx), m, k, r');
    }
  }

  /** Long division bit by bit; a zero modulus yields zero. */
  method Mod(a: Big, m: Big) returns (remainder: Big)
    ensures Value(remainder) == if Value(m) == 0 then 0 else Value(a) % Value(m)
  {
    if |m| == 0 { return []; }
    NormalBounds(m);
    UpMonotone(0, |m| - 1);
    var c := Compare(a, m);
    if c < 0 {
      DivModUnique(Value(a), Value(m), 0, Value(a));
      return a;
    }
    remainder := [];
    var idx := BitLength(a);
    DivModUnique(0, Value(m), 0, 0);
    while idx > 0
      invariant Value(remainder) == (Value(a) / Pow(2, idx)) % Value(m)
    {
      idx := idx - 1;
      LongDivisionStep(Value(a), idx, Value(remainder), Value(m));
      remainder := ShiftLeftOneBit(remainder);
      var bit := GetBit(a, idx);
      if bit {
        var one := FromSmall(1);
        remainder := Add(remainder, one);
      }
      c := Compare(remainder, m);
      if c >= 0 { remainder := Subtract(remainder, m); }
    }
  }

  /** Reducing the base leaves a scaled power unchanged modulo m. */
  lemma {:induction false} ReduceBase(r: nat, x: nat, k: nat, m: nat)
    requires m > 0
    ensures (r * Pow(x % m, k)) % m == (r * Pow(x, k)) % m
    decreases k
  {
    if k > 0 {
      var y := x % m;
      ReduceBase(r * y, x, k - 1, m);
      MulAssociative(r, y, Pow(y, k - 1));
      MulAssociative(r, y, Pow(x, k - 1));
      // (r * y) * P and (r * x) * P agree modulo m
      ModMul(x, r * Pow(x, k - 1), m);
      assert (r * y) * Pow(x, k - 1) == y * (r * Pow(x, k - 1)) by { MulCommute3(r, y, Pow(x, k - 1)); }
      assert r * Pow(x, k) == x * (r * Pow(x, k - 1)) by { MulCommute3(r, x, Pow(x, k - 1)); }
    }
  }

  /** One step of right-to-left square-and-multiply. */
  lemma SquareAndMultiplyStep(r: nat, base: nat, e: nat, m: nat)
    requires m > 0
    ensures var r' := if e % 2 == 1 then (r * base) % m else r;
            (r' * Pow((base * base) % m, e / 2)) % m == (r * Pow(base, e)) % m
  {
    var k := e / 2;
    var p := Pow(base, 2 * k);
    var r' := if e % 2 == 1 then (r * base) % m else r;
    ReduceBase(r', base * base, k, m);
    PowSquare(base, k);
    if e % 2 == 1 {
      assert Pow(base, e) == base * p;
      ModMul(r * base, p, m);
      MulAssociative(r, base, p);
    }
  }

  /** What mod_pow returns for a non-zero modulus. */
  ghost function ModPowValue(base: nat, exp: nat, m: nat): nat
    requires m > 0
  {
    if exp == 0 then 1 else Pow(base, exp) % m
  }

  /** That is base^exp mod m for every base, exponent and non-zero modulus, save for one case. */
  lemma ModPowIsExact(base: nat, exp: nat, m: nat)
    requires m > 0
    ensures ModPowValue(base, exp, m) == Pow(base, exp) % m <==> !(m == 1 && exp == 0)
  {
    if exp == 0 {
      assert Pow(base, 0) == 1;
      if m > 1 { DivModUnique(1, m, 0, 1); }
    }
  }

  /** base^exp mod m by repeated squaring, least significant exponent bit first. An exponent of zero
      yields 1 whatever the (non-zero) modulus; a zero modulus yields 0. */
  method ModPow(base_in: Big, exp: Big, m: Big) returns (result: Big)
    ensures Value(m) == 0 ==> Value(result) == 0
    ensures Value(m) > 0 ==> Value(result) == ModPowValue(Value(base_in), Value(exp), Value(m))
    ensures Value(m) > 0 ==>
              (Value(result) == Pow(Value(base_in), Value(exp)) % Value(m)
               <==> !(Value(m) == 1 && Value(exp) == 0))
  {
    if |m| == 0 { return []; }
    NormalBounds(m);
    UpMonotone(0, |m| - 1);
    result := FromSmall(1);
    var base := Mod(base_in, m);
    var bits := BitLength(exp);
    ghost var e, goal := Value(exp), Pow(Value(base_in), Value(exp)) % Value(m);
    ReduceBase(1, Value(base_in), e, Value(m));
    var i := 0;
    while i < bits
      invariant 0 <= i <= bits
      invariant (Value(result) * Pow(Value(base), e)) % Value(m) == goal
      invariant e == Value(exp) / Pow(2, i)
      invariant bits == 0 ==> Value(result) == 1
      invariant 0 < bits == i ==> Value(result) < Value(m)
    {
      SquareAndMultiplyStep(Value(result), Value(base), e, Value(m));
      var set_ := GetBit(exp, i);
      if set_ {
        var product := Multiply(result, base);
        result := Mod(product, m);
      }
      var square := Multiply(base, base);
      base := Mod(square, m);
      DivDiv(Value(exp), Pow(2, i), 2);
      i := i + 1;
      e := e / 2;
    }
    if bits > 0 { DivModUnique(Value(result), Value(m), 0, Value(result)); }
    ModPowIsExact(Value(base_in), Value(exp), Value(m));
  }
}
