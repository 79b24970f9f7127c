/** Multiplication in GF(2^8) as the TLS client computes it, and the columns of AES. */
module TlsAesField {

  function Plus(a: bv8, b: bv8): bv8 {
    a ^ b
  }

  function Xtime(v: bv8): bv8 {
    Plus(v << 1, ((v >> 7) & 1) * 0x1B)
  }

  /** Shift-and-add multiplication: the sum of the doublings of a that b selects. */
  function Mul(a: bv8, b: bv8): bv8
    decreases b, a
  {
    if b == 0 then 0 else Plus(if b & 1 == 1 then a else 0, Mul(Xtime(a), b >> 1))
  }

  method MulLoop(a: bv8, b: bv8) returns (result: bv8)
    ensures result == Mul(a, b)
  {
    result := 0;
    var x, y := a, b;
    PlusZero(Mul(a, b));
    while y != 0
      invariant Plus(result, Mul(x, y)) == Mul(a, b)
      decreases y
    {
      MulStep(x, y);
      PlusAssociates(result, x, Mul(Xtime(x), y >> 1));
      PlusZero(Mul(Xtime(x), y >> 1));
      if y & 1 == 1 { result := result ^ x; }
      x := Xtime(x);
      y := y >> 1;
    }
    PlusZero(result);
  }

  // ----- Addition -----

  lemma PlusZero(a: bv8)
    ensures Plus(a, 0) == a == Plus(0, a)
  {
  }

  lemma PlusCommutes(a: bv8, b: bv8)
    ensures Plus(a, b) == Plus(b, a)
  {
  }

  lemma PlusAssociates(a: bv8, b: bv8, c: bv8)
    ensures Plus(Plus(a, b), c) == Plus(a, Plus(b, c))
  {
  }

  lemma Exchange(a: bv8, b: bv8, c: bv8, d: bv8)
    ensures Plus(Plus(a, b), Plus(c, d)) == Plus(Plus(a, c), Plus(b, d))
  {
    PlusAssociates(a, b, Plus(c, d));
    PlusAssociates(b, c, d);
    PlusCommutes(b, c);
    PlusAssociates(c, b, d);
    PlusAssociates(a, c, Plus(b, d));
  }

  // ----- Multiplication distributes over addition on both sides -----

  lemma MulStep(a: bv8, b: bv8)
    ensures Mul(a, b) == Plus(if b & 1 == 1 then a else 0, Mul(Xtime(a), b >> 1))
  {
    PlusZero(0);
  }

  lemma XtimePlus(a: bv8, b: bv8)
    ensures Xtime(Plus(a, b)) == Plus(Xtime(a), Xtime(b))
  {
  }

  lemma {:induction false} MulPlus(a: bv8, b: bv8, k: bv8)
    ensures Mul(Plus(a, b), k) == Plus(Mul(a, k), Mul(b, k))
    decreases k
  {
    PlusZero(0);
    if k != 0 {
      XtimePlus(a, b);
      MulPlus(Xtime(a), Xtime(b), k >> 1);
      Exchange(if k & 1 == 1 then a else 0, if k & 1 == 1 then b else 0, Mul(Xtime(a), k >> 1), Mul(Xtime(b), k >> 1));
    }
  }

  lemma PlusBits(i: bv8, j: bv8)
    ensures Plus(i, j) >> 1 == Plus(i >> 1, j >> 1) && Plus(i, j) & 1 == Plus(i & 1, j & 1)
  {
  }

  lemma Selected(a: bv8, i: bv8, j: bv8)
    ensures Plus(if i & 1 == 1 then a else 0, if j & 1 == 1 then a else 0) == if Plus(i, j) & 1 == 1 then a else 0
  {
  }

  ghost predicate Fits(i: bv8, n: nat) {
    if n == 0 then i == 0 else Fits(i >> 1, n - 1)
  }

  lemma {:induction false} MulSumBelow(a: bv8, i: bv8, j: bv8, n: nat)
    requires Fits(i, n) && Fits(j, n)
    ensures Plus(Mul(a, i), Mul(a, j)) == Mul(a, Plus(i, j))
    decreases n
  {
    PlusZero(0);
    if n > 0 {
      MulSumBelow(Xtime(a), i >> 1, j >> 1, n - 1);
      PlusBits(i, j);
      Selected(a, i, j);
      MulStep(a, i);
      MulStep(a, j);
      MulStep(a, Plus(i, j));
      Exchange(if i & 1 == 1 then a else 0, Mul(Xtime(a), i >> 1), if j & 1 == 1 then a else 0, Mul(Xtime(a), j >> 1));
    }
  }

  lemma AllFit(i: bv8)
    ensures Fits(i, 8)
  {
    var i4 := i >> 1 >> 1 >> 1 >> 1;
    assert Fits(i4 >> 1 >> 1 >> 1 >> 1, 0);
    assert Fits(i4 >> 1 >> 1 >> 1, 1);
    assert Fits(i4 >> 1 >> 1, 2);
    assert Fits(i4 >> 1, 3);
    assert Fits(i4, 4);
    assert Fits(i >> 1 >> 1 >> 1, 5);
    assert Fits(i >> 1 >> 1, 6);
    assert Fits(i >> 1, 7);
  }

  lemma MulSum(a: bv8, i: bv8, j: bv8)
    ensures Plus(Mul(a, i), Mul(a, j)) == Mul(a, Plus(i, j))
  {
    AllFit(i);
    AllFit(j);
    MulSumBelow(a, i, j, 8);
  }

  // ----- Products with the constants of the column transforms -----

  lemma MulByOne(a: bv8)
    ensures Mul(a, 1) == a
  {
    MulStep(a, 1);
    PlusZero(a);
    assert Mul(Xtime(a), 0) == 0;
  }

  lemma MulTwice(a: bv8, j: bv8)
    requires (j << 1) >> 1 == j && (j << 1) & 1 == 0
    ensures Mul(Mul(a, 2), j) == Mul(a, j << 1)
  {
    MulStep(a, 2);
    MulByOne(Xtime(a));
    PlusZero(Xtime(a));
    MulStep(a, j << 1);
    PlusZero(Mul(Xtime(a), j));
  }

  lemma MulThrice(a: bv8, j: bv8)
    requires (j << 1) >> 1 == j && (j << 1) & 1 == 0
    ensures Mul(Mul(a, 3), j) == Mul(a, Plus(j, j << 1))
  {
    MulSum(a, 1, 2);
    assert Plus(1, 2) == 3;
    MulByOne(a);
    MulPlus(a, Mul(a, 2), j);
    MulTwice(a, j);
    MulSum(a, j, j << 1);
  }

  function Sum(a: bv8, b: bv8, c: bv8, d: bv8): bv8 {
    Plus(Plus(a, b), Plus(c, d))
  }

  lemma MulSumOfFour(a: bv8, i: bv8, j: bv8, k: bv8, l: bv8)
    ensures Sum(Mul(a, i), Mul(a, j), Mul(a, k), Mul(a, l)) == Mul(a, Sum(i, j, k, l))
  {
    MulSum(a, i, j);
    MulSum(a, k, l);
    MulSum(a, Plus(i, j), Plus(k, l));
  }

  /** The entries of the product of the two column matrices: one on the diagonal, zero elsewhere. */
  lemma Diagonal(a: bv8)
    ensures Sum(Mul(Mul(a, 2), 14), Mul(a, 11), Mul(a, 13), Mul(Mul(a, 3), 9)) == a
  {
    MulTwice(a, 14);
    MulThrice(a, 9);
    assert Plus(9, 18) == 27;
    MulSumOfFour(a, 28, 11, 13, 27);
    assert Sum(28, 11, 13, 27) == 1;
    MulByOne(a);
  }

  lemma OffDiagonal1(a: bv8)
    ensures Sum(Mul(Mul(a, 3), 14), Mul(Mul(a, 2), 11), Mul(a, 13), Mul(a, 9)) == 0
  {
    MulThrice(a, 14);
    assert Plus(14, 28) == 18;
    MulTwice(a, 11);
    MulSumOfFour(a, 18, 22, 13, 9);
    assert Sum(18, 22, 13, 9) == 0;
  }

  lemma OffDiagonal2(a: bv8)
    ensures Sum(Mul(a, 14), Mul(Mul(a, 3), 11), Mul(Mul(a, 2), 13), Mul(a, 9)) == 0
  {
    MulThrice(a, 11);
    assert Plus(11, 22) == 29;
    MulTwice(a, 13);
    MulSumOfFour(a, 14, 29, 26, 9);
    assert Sum(14, 29, 26, 9) == 0;
  }

  lemma OffDiagonal3(a: bv8)
    ensures Sum(Mul(a, 14), Mul(a, 11), Mul(Mul(a, 3), 13), Mul(Mul(a, 2), 9)) == 0
  {
    MulThrice(a, 13);
    assert Plus(13, 26) == 23;
    MulTwice(a, 9);
    MulSumOfFour(a, 14, 11, 23, 18);
    assert Sum(14, 11, 23, 18) == 0;
  }

  // ----- A column mixed and unmixed -----

  function Mix(p: bv8, q: bv8, r: bv8, s: bv8): bv8 {
    Sum(Mul(p, 2), Mul(q, 3), r, s)
  }

  function InvMix(p: bv8, q: bv8, r: bv8, s: bv8): bv8 {
    Sum(Mul(p, 14), Mul(q, 11), Mul(r, 13), Mul(s, 9))
  }

  lemma Spread(k: bv8, a: bv8, b: bv8, c: bv8, d: bv8)
    ensures Mul(Sum(a, b, c, d), k) == Sum(Mul(a, k), Mul(b, k), Mul(c, k), Mul(d, k))
  {
    MulPlus(Plus(a, b), Plus(c, d), k);
    MulPlus(a, b, k);
    MulPlus(c, d, k);
  }

  lemma SumPlus(a: bv8, b: bv8, c: bv8, d: bv8, p: bv8, q: bv8, r: bv8, s: bv8)
    ensures Plus(Sum(a, b, c, d), Sum(p, q, r, s)) == Sum(Plus(a, p), Plus(b, q), Plus(c, r), Plus(d, s))
  {
    Exchange(Plus(a, b), Plus(c, d), Plus(p, q), Plus(r, s));
    Exchange(a, b, p, q);
    Exchange(c, d, r, s);
  }

  /** A four-by-four table sums to the same by rows and by columns. */
  lemma Transposed(p0: bv8, p1: bv8, p2: bv8, p3: bv8, q0: bv8, q1: bv8, q2: bv8, q3: bv8,
                   r0: bv8, r1: bv8, r2: bv8, r3: bv8, s0: bv8, s1: bv8, s2: bv8, s3: bv8)
    ensures Sum(Sum(p0, p1, p2, p3), Sum(q0, q1, q2, q3), Sum(r0, r1, r2, r3), Sum(s0, s1, s2, s3))
         == Sum(Sum(p0, q0, r0, s0), Sum(p1, q1, r1, s1), Sum(p2, q2, r2, s2), Sum(p3, q3, r3, s3))
  {
    SumPlus(p0, p1, p2, p3, q0, q1, q2, q3);
    SumPlus(r0, r1, r2, r3, s0, s1, s2, s3);
    SumPlus(Plus(p0, q0), Plus(p1, q1), Plus(p2, q2), Plus(p3, q3), Plus(r0, s0), Plus(r1, s1), Plus(r2, s2), Plus(r3, s3));
  }

  lemma SumRotates(a: bv8, b: bv8, c: bv8, d: bv8)
    ensures Sum(a, b, c, d) == Sum(b, c, d, a)
  {
    Exchange(a, b, c, d);
    PlusCommutes(Plus(a, b), Plus(c, d));
    PlusCommutes(d, a);
    PlusAssociates(b, c, Plus(d, a));
    PlusAssociates(c, d, a);
    PlusAssociates(a, b, Plus(c, d));
    PlusAssociates(b, Plus(c, d), a);
    PlusCommutes(a, Plus(b, Plus(c, d)));
  }

  lemma Contributions(a: bv8, b: bv8, c: bv8, d: bv8)
    ensures InvMix(Sum(Mul(a, 2), Mul(b, 3), c, d), Sum(a, Mul(b, 2), Mul(c, 3), d),
                   Sum(a, b, Mul(c, 2), Mul(d, 3)), Sum(Mul(a, 3), b, c, Mul(d, 2))) == a
  {
    Spread(14, Mul(a, 2), Mul(b, 3), c, d);
    Spread(11, a, Mul(b, 2), Mul(c, 3), d);
    Spread(13, a, b, Mul(c, 2), Mul(d, 3));
    Spread(9, Mul(a, 3), b, c, Mul(d, 2));
    Transposed(Mul(Mul(a, 2), 14), Mul(Mul(b, 3), 14), Mul(c, 14), Mul(d, 14),
               Mul(a, 11), Mul(Mul(b, 2), 11), Mul(Mul(c, 3), 11), Mul(d, 11),
               Mul(a, 13), Mul(b, 13), Mul(Mul(c, 2), 13), Mul(Mul(d, 3), 13),
               Mul(Mul(a, 3), 9), Mul(b, 9), Mul(c, 9), Mul(Mul(d, 2), 9));
    Diagonal(a);
    OffDiagonal1(b);
    OffDiagonal2(c);
    OffDiagonal3(d);
    PlusZero(a);
    PlusZero(0);
  }

  /** The inverse coefficients recover the first of four cyclically mixed bytes. */
  lemma Unmixed(a: bv8, b: bv8, c: bv8, d: bv8)
    ensures InvMix(Mix(a, b, c, d), Mix(b, c, d, a), Mix(c, d, a, b), Mix(d, a, b, c)) == a
  {
    SumRotates(a, Mul(b, 2), Mul(c, 3), d);
    SumRotates(a, b, Mul(c, 2), Mul(d, 3));
    SumRotates(b, Mul(c, 2), Mul(d, 3), a);
    SumRotates(Mul(d, 2), Mul(a, 3), b, c);
    Contributions(a, b, c, d);
  }
}
