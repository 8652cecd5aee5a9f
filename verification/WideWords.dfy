/** 256-bit numbers of four words: `U256Muldiv` of `crates/library/src/math/u256.rs`, with its product and its shifts. */
module WideWords {
  import opened Common

  /** 2^64 and its powers. */
  const B: nat := TWO_64
  const B2: nat := TWO_128
  const B3: nat := 0x1_0000_0000_0000_0000_0000_0000_0000_0000_0000_0000_0000_0000
  const B4: nat := 0x1_0000_0000_0000_0000_0000_0000_0000_0000_0000_0000_0000_0000_0000_0000_0000_0000

  type Word = x: nat | x < B

  /** What a `u128` holds: assigning a larger sum or product to one is a panic, and proved impossible. */
  type Double = x: nat | x < B2

  /** Four words, lowest first. */
  type U256 = w: seq<Word> | |w| == 4 witness [0, 0, 0, 0]

  function Value(w: U256): nat {
    w[0] + B * w[1] + B2 * w[2] + B3 * w[3]
  }

  function New(h: Double, l: Double): (w: U256)
    ensures Value(w) == h * B2 + l
  {
    [l % B, l / B, h % B, h / B]
  }

  // ---------------------------------------------------------------- product

  lemma WordProduct(a: Word, b: Word)
    ensures a * b <= B2 - 2 * B + 1
  {
    MulAtMost(a, B - 1, b);
  }

  lemma SplitProduct(vh: nat, vl: nat, nh: nat, nl: nat)
    ensures (vh * B + vl) * (nh * B + nl) == vh * nh * B2 + (vl * nh + vh * nl) * B + vl * nl
  {
    var n := nh * B + nl;
    assert (vh * B + vl) * n == vh * B * n + vl * n;
    assert vh * B * n == vh * nh * B2 + vh * nl * B by {
      assert vh * (nh * B + nl) == vh * nh * B + vh * nl;
    }
    assert vl * n == vl * nh * B + vl * nl;
  }

  /** The sums of partial products fit 128 bits and carry as they should. */
  lemma Carries(ll: nat, lh: nat, hl: nat, hh: nat)
    requires ll <= B2 - 2 * B + 1 && lh <= B2 - 2 * B + 1 && hl <= B2 - 2 * B + 1 && hh <= B2 - 2 * B + 1
    ensures var c1 := ll / B + lh % B + hl % B;
            var c2 := hh + c1 / B + lh / B + hl / B;
            && c1 < B2 && c2 < B2
            && c2 * B2 + (c1 % B * B + ll % B) == hh * B2 + (lh + hl) * B + ll
  {
  }

  lemma WordPair(h: Word, l: Word)
    ensures h * B + l < B2 && (h * B + l) % B == l && (h * B + l) / B == h
  {
  }

  /** The exact product. No sum of partial products overflows 128 bits. */
  method MulU256(v: Double, n: Double) returns (r: U256)
    ensures Value(r) == v * n
  {
    var vl: Word, vh: Word, nl: Word, nh: Word := v % B, v / B, n % B, n / B;
    WordProduct(vl, nl);
    WordProduct(vl, nh);
    WordProduct(vh, nl);
    WordProduct(vh, nh);
    SplitProduct(vh, vl, nh, nl);
    var c0: Double, a1: Double, b0: Double, top: Double := vl * nl, vl * nh, vh * nl, vh * nh;
    r := AddPartials(c0, a1, b0, top);
  }

  /** Adds the partial products up, carrying into the next words. */
  method AddPartials(low: Double, a1: Double, b0: Double, top: Double) returns (r: U256)
    requires low <= B2 - 2 * B + 1 && a1 <= B2 - 2 * B + 1 && b0 <= B2 - 2 * B + 1 && top <= B2 - 2 * B + 1
    ensures Value(r) == top * B2 + (a1 + b0) * B + low
  {
    Carries(low, a1, b0, top);
    var c1: Double := low / B + a1 % B + b0 % B;
    WordPair(c1 % B, low % B);
    var c0: Double := c1 % B * B + low % B;
    c1 := top + c1 / B + a1 / B + b0 / B;
    r := New(c1, c0);
  }

  // ---------------------------------------------------------------- shifting left

  /** The bits of a word that a left shift keeps in it, and those it pushes into the next. */
  function Kept(x: Word, s: nat): (r: Word)
    requires s < 64
  {
    x * TwoTo(s) % B
  }

  function Pushed(x: Word, s: nat): (r: Word)
    requires 0 < s < 64
  {
    QuotientWithin(x, TwoTo(64 - s));
    FloorDiv(x, TwoTo(64 - s))
  }

  lemma QuotientWithin(x: nat, d: nat)
    requires d > 0
    ensures FloorDiv(x, d) <= x
  {
    MulAtMost(1, d, FloorDiv(x, d));
  }

  lemma PowersOfWord(s: nat)
    requires s <= 64
    ensures TwoTo(s) * TwoTo(64 - s) == B
  {
    hide TwoTo;
    TwoToLiterals();
    TwoToAdd(s, 64 - s);
  }

  /** The two parts are the product, and the kept part leaves room for what the word below pushes in. */
  lemma ShiftParts(x: Word, s: nat)
    requires 0 < s < 64
    ensures Kept(x, s) + B * Pushed(x, s) == x * TwoTo(s)
    ensures Kept(x, s) <= B - TwoTo(s) && Pushed(x, s) < TwoTo(s)
  {
    hide TwoTo;
    var p, c := TwoTo(s), TwoTo(64 - s);
    PowersOfWord(s);
    var q := FloorDiv(x, c);
    PushedIs(x, p, c, q);
  }

  lemma PushedIs(x: nat, p: nat, c: nat, q: nat)
    requires p > 0 && c > 0 && p * c == B && q * c <= x < (q + 1) * c && x < B
    ensures x * p % B == x * p - B * q && x * p - B * q <= B - p && q < p
  {
    var rest := x - q * c;
    assert x * p == B * q + rest * p by {
      assert (q * c + rest) * p == q * (p * c) + rest * p;
    }
    assert 0 <= rest * p <= (c - 1) * p == B - p by {
      MulAtMost(rest, c - 1, p);
    }
    DivUnique(x * p, B, q);
    MulCancelLess(q, p, c);
  }

  /** The words of a shift by less than a word. */
  function ShiftedBits(w: U256, s: nat): U256
    requires s < 64
  {
    if s == 0 then w
    else
      ShiftParts(w[0], s);
      ShiftParts(w[1], s);
      ShiftParts(w[2], s);
      ShiftParts(w[3], s);
      [Kept(w[0], s), Kept(w[1], s) + Pushed(w[0], s), Kept(w[2], s) + Pushed(w[1], s), Kept(w[3], s) + Pushed(w[2], s)]
  }

  /** They are the number times 2^s without the bits pushed out at the top. */
  lemma ShiftedBitsValue(w: U256, s: nat)
    requires 0 < s < 64
    ensures Value(ShiftedBits(w, s)) + B4 * Pushed(w[3], s) == Value(w) * TwoTo(s)
  {
    hide Kept, Pushed, TwoTo;
    ShiftParts(w[0], s);
    ShiftParts(w[1], s);
    ShiftParts(w[2], s);
    ShiftParts(w[3], s);
    ShiftedSum(w[0], w[1], w[2], w[3], TwoTo(s));
  }

  /** Or-ing the pushed bits in is adding them, since the kept part has none there. */
  method ShiftBitsLeft(w: U256, s: nat) returns (r: U256)
    requires s < 64
    ensures r == ShiftedBits(w, s)
  {
    hide Kept, Pushed, TwoTo;
    r := w;
    if s == 0 {
      return;
    }
    var i := 3;
    while i > 0
      invariant 0 <= i <= 3
      invariant forall k :: i < k < 4 ==> r[k] == Kept(w[k], s) + Pushed(w[k - 1], s)
      invariant forall k :: 0 <= k <= i ==> r[k] == w[k]
    {
      ShiftParts(w[i], s);
      ShiftParts(w[i - 1], s);
      r := r[i := Kept(r[i], s) + Pushed(r[i - 1], s)];
      i := i - 1;
    }
    r := r[0 := Kept(r[0], s)];
  }

  lemma ShiftedSum(a: nat, b: nat, c: nat, d: nat, p: nat)
    ensures (a + B * b + B2 * c + B3 * d) * p == a * p + B * (b * p) + B2 * (c * p) + B3 * (d * p)
  {
  }

  method ShiftWordLeft(w: U256) returns (r: U256)
    ensures r == [0, w[0], w[1], w[2]]
  {
    r := [0, 0, 0, 0];
    var i := 2;
    while i >= 0
      invariant -1 <= i <= 2 && r[0] == 0
      invariant forall k :: i + 1 < k <= 3 ==> r[k] == w[k - 1]
      invariant forall k :: 0 < k <= i + 1 ==> r[k] == 0
    {
      r := r[i + 1 := w[i]];
      i := i - 1;
    }
  }

  lemma ValueBound(w: U256)
    ensures Value(w) < B4
  {
  }

  /** What lies above 256 bits does not matter to a further factor. */
  lemma ModMul(x: nat, y: nat, m: nat, p: nat, t: nat)
    requires m > 0 && x == y + t * m
    ensures x * p % m == y * p % m
  {
    assert x * p == y * p + (t * p) * m;
    ModPlus(y * p, t * p, m);
  }

  lemma ModPlus(y: nat, t: nat, m: nat)
    requires m > 0
    ensures (y + t * m) % m == y % m
  {
    var q, r := y / m, y % m;
    assert (y + t * m) == (q + t) * m + r;
    DivUnique(y + t * m, m, q + t);
  }

  lemma TwoToWord(s: nat)
    requires s >= 64
    ensures TwoTo(s) == B * TwoTo(s - 64)
  {
    hide TwoTo;
    TwoToAdd(64, s - 64);
    TwoToLiterals();
  }

  /** Shifting by any amount multiplies by the power, modulo 2^256. */
  method ShiftLeft(w: U256, shiftAmount: nat) returns (r: U256)
    ensures Value(r) == Value(w) * TwoTo(shiftAmount) % B4
    ensures shiftAmount < 64 ==> r == ShiftedBits(w, shiftAmount)
  {
    hide TwoTo, Value, ShiftedBits;
    if shiftAmount >= 256 {
      AllPushedOut(w, shiftAmount);
      return [0, 0, 0, 0];
    }
    var result: U256, left: nat := w, shiftAmount;
    while left >= 64
      invariant left <= shiftAmount && (shiftAmount < 64 ==> result == w && left == shiftAmount)
      invariant Value(result) * TwoTo(left) % B4 == Value(w) * TwoTo(shiftAmount) % B4
    {
      var next := ShiftWordLeft(result);
      WordLeft(result, next, left);
      result, left := next, left - 64;
    }
    r := ShiftBitsLeft(result, left);
    BitsLeft(result, left);
  }

  lemma WordLeft(w: U256, r: U256, s: nat)
    requires r == [0, w[0], w[1], w[2]] && s >= 64
    ensures Value(r) * TwoTo(s - 64) % B4 == Value(w) * TwoTo(s) % B4
  {
    hide TwoTo;
    var x, p := Value(w), TwoTo(s - 64);
    TwoToWord(s);
    assert x * B == Value(r) + w[3] * B4;
    ModMul(x * B, Value(r), B4, p, w[3]);
    MulAssociate(x, B, p);
  }

  lemma BitsLeft(w: U256, s: nat)
    requires s < 64
    ensures Value(ShiftedBits(w, s)) == Value(w) * TwoTo(s) % B4
  {
    hide TwoTo, Value, Kept, Pushed;
    var r := ShiftedBits(w, s);
    ValueBound(r);
    SmallMod(Value(r));
    if s == 0 {
      NotShifted(Value(w));
    } else {
      ShiftedBitsValue(w, s);
      ModPlus(Value(r), Pushed(w[3], s), B4);
    }
  }

  lemma SmallMod(x: nat)
    requires x < B4
    ensures x % B4 == x
  {
  }

  lemma NotShifted(v: nat)
    ensures v * TwoTo(0) == v && v / TwoTo(0) == v
  {
  }

  lemma AllPushedOut(w: U256, s: nat)
    requires s >= 256
    ensures Value([0, 0, 0, 0]) == Value(w) * TwoTo(s) % B4
  {
    hide TwoTo;
    var p := TwoTo(s - 256);
    TwoToWord(s);
    TwoToWord(s - 64);
    TwoToWord(s - 128);
    TwoToWord(s - 192);
    assert TwoTo(s) == B4 * p;
    assert Value(w) * (B4 * p) == 0 + (Value(w) * p) * B4;
    ModPlus(0, Value(w) * p, B4);
  }

  // ---------------------------------------------------------------- shifting right

  /** What a right shift leaves of a word, and the bits it drops. */
  function Halved(x: Word, s: nat): (r: Word)
    requires s < 64
  {
    QuotientWithin(x, TwoTo(s));
    FloorDiv(x, TwoTo(s))
  }

  function Dropped(x: Word, s: nat): nat
    requires s < 64
  {
    x - Halved(x, s) * TwoTo(s)
  }

  lemma HalvedParts(x: Word, s: nat)
    requires 0 < s < 64
    ensures 0 <= Dropped(x, s) < TwoTo(s) && x == Halved(x, s) * TwoTo(s) + Dropped(x, s)
    ensures Kept(x, 64 - s) == Dropped(x, s) * TwoTo(64 - s)
    ensures Halved(x, s) < TwoTo(64 - s) && Kept(x, 64 - s) * TwoTo(s) == Dropped(x, s) * B
    ensures Kept(x, 64 - s) <= B - TwoTo(64 - s)
  {
    hide TwoTo;
    var p, c := TwoTo(s), TwoTo(64 - s);
    PowersOfWord(s);
    var q := FloorDiv(x, p);
    assert (q + 1) * p == q * p + p;
    assert c * p == B;
    PushedIs(x, c, p, q);
    assert (x - q * p) * c == x * c - q * (p * c);
    MulAssociate(x - q * p, c, p);
  }

  /** Or-ing in the bits of the word above is adding them. */
  method ShiftBitsRight(w: U256, s: nat) returns (r: U256)
    requires s < 64
    ensures Value(r) == Value(w) / TwoTo(s)
  {
    hide Kept, Halved, Dropped, TwoTo;
    r := w;
    if s == 0 {
      NotShifted(Value(w));
      return;
    }
    HalvedParts(w[0], s);
    HalvedParts(w[1], s);
    HalvedParts(w[2], s);
    HalvedParts(w[3], s);
    var i := 0;
    while i < 3
      invariant 0 <= i <= 3
      invariant forall k :: 0 <= k < i ==> r[k] == Halved(w[k], s) + Kept(w[k + 1], 64 - s)
      invariant forall k :: i <= k < 4 ==> r[k] == w[k]
    {
      HalvedParts(w[i], s);
      HalvedParts(w[i + 1], s);
      r := r[i := Halved(r[i], s) + Kept(r[i + 1], 64 - s)];
      i := i + 1;
    }
    r := r[3 := Halved(r[3], s)];
    ShiftedSum(r[0], r[1], r[2], r[3], TwoTo(s));
    SumOfHalves(w, r, s);
  }

  lemma AddTimes(a: nat, b: nat, p: nat)
    ensures (a + b) * p == a * p + b * p
  {
  }

  lemma SumOfHalves(w: U256, r: U256, s: nat)
    requires 0 < s < 64
    requires forall k :: 0 <= k < 3 ==> r[k] == Halved(w[k], s) + Kept(w[k + 1], 64 - s)
    requires r[3] == Halved(w[3], s)
    ensures Value(r) == Value(w) / TwoTo(s)
  {
    hide Kept, Halved, Dropped, TwoTo, Value;
    HalvedParts(w[0], s);
    HalvedParts(w[1], s);
    HalvedParts(w[2], s);
    HalvedParts(w[3], s);
    WordTimesPower(w[0], w[1], s);
    WordTimesPower(w[1], w[2], s);
    WordTimesPower(w[2], w[3], s);
    var t0, t1, t2, t3 := r[0] * TwoTo(s), r[1] * TwoTo(s), r[2] * TwoTo(s), r[3] * TwoTo(s);
    HalvesAdd(w, t0, t1, t2, t3, Dropped(w[0], s), Dropped(w[1], s), Dropped(w[2], s), Dropped(w[3], s));
    ValueTimes(r, TwoTo(s));
    QuotientOf(Value(w), Value(r), TwoTo(s), Dropped(w[0], s));
  }

  lemma ValueTimes(r: U256, p: nat)
    ensures Value(r) * p == r[0] * p + B * (r[1] * p) + B2 * (r[2] * p) + B3 * (r[3] * p)
  {
    ShiftedSum(r[0], r[1], r[2], r[3], p);
  }

  lemma QuotientOf(n: nat, q: nat, p: nat, rest: nat)
    requires rest < p && n == q * p + rest
    ensures q == n / p
  {
    OneMore(q, p);
    DivUnique(n, p, q);
  }

  lemma WordTimesPower(x: Word, above: Word, s: nat)
    requires 0 < s < 64
    ensures (Halved(x, s) + Kept(above, 64 - s)) * TwoTo(s) == x - Dropped(x, s) + Dropped(above, s) * B
  {
    hide Kept, Halved, Dropped, TwoTo;
    HalvedParts(x, s);
    HalvedParts(above, s);
    AddTimes(Halved(x, s), Kept(above, 64 - s), TwoTo(s));
  }

  lemma HalvesAdd(w: U256, t0: int, t1: int, t2: int, t3: int, d0: nat, d1: nat, d2: nat, d3: nat)
    requires t0 == w[0] - d0 + d1 * B && t1 == w[1] - d1 + d2 * B && t2 == w[2] - d2 + d3 * B && t3 == w[3] - d3
    ensures t0 + B * t1 + B2 * t2 + B3 * t3 + d0 == Value(w)
  {
  }

  lemma OneMore(x: nat, p: nat)
    ensures (x + 1) * p == x * p + p
  {
  }

  method ShiftWordRight(w: U256) returns (r: U256)
    ensures r == [w[1], w[2], w[3], 0]
  {
    r := [0, 0, 0, 0];
    var i := 0;
    while i < 3
      invariant 0 <= i <= 3
      invariant forall k :: 0 <= k < i ==> r[k] == w[k + 1]
      invariant forall k :: i <= k < 4 ==> r[k] == 0
    {
      r := r[i := w[i + 1]];
      i := i + 1;
    }
  }

  /** Shifting by any amount divides by the power. */
  method ShiftRight(w: U256, shiftAmount: nat) returns (r: U256)
    ensures Value(r) == Value(w) / TwoTo(shiftAmount)
  {
    hide TwoTo, Value;
    if shiftAmount >= 256 {
      AllDropped(w, shiftAmount);
      return [0, 0, 0, 0];
    }
    var result: U256, left: nat := w, shiftAmount;
    while left >= 64
      invariant left <= shiftAmount
      invariant Value(result) / TwoTo(left) == Value(w) / TwoTo(shiftAmount)
    {
      var next := ShiftWordRight(result);
      WordRight(result, next, left);
      result, left := next, left - 64;
    }
    r := ShiftBitsRight(result, left);
  }

  lemma WordRight(w: U256, r: U256, s: nat)
    requires r == [w[1], w[2], w[3], 0] && s >= 64
    ensures Value(r) / TwoTo(s - 64) == Value(w) / TwoTo(s)
  {
    hide TwoTo;
    TwoToWord(s);
    DivStages(Value(w), Value(r), TwoTo(s - 64));
  }

  lemma DivStages(x: nat, y: nat, p: nat)
    requires p > 0 && y * B <= x < (y + 1) * B
    ensures x / (B * p) == y / p
  {
    var q := FloorDiv(y, p);
    MulAtMost(q * p, y, B);
    MulAtMost(y + 1, (q + 1) * p, B);
    assert q * (B * p) == q * p * B && (q + 1) * (B * p) == (q + 1) * p * B;
    DivUnique(x, B * p, q);
  }

  lemma AllDropped(w: U256, s: nat)
    requires s >= 256
    ensures Value([0, 0, 0, 0]) == Value(w) / TwoTo(s)
  {
    hide TwoTo;
    var p := TwoTo(s - 256);
    TwoToWord(s);
    TwoToWord(s - 64);
    TwoToWord(s - 128);
    TwoToWord(s - 192);
    assert TwoTo(s) == B4 * p;
    MulAtMost(1, p, B4);
    ValueBound(w);
    DivUnique(Value(w), B4 * p, 0);
  }
}
