/** Mixed-radix arithmetic behind the block-sparse addressing of IQTData.

    A tuple of digits d[0..r) over radices n[0..r) (digit i ranges over [0, n[i]))
    is encoded as one integer. getBlock writes the encoding in Horner form,
    d[0] + n[0]*(d[1] + n[1]*(d[2] + ...)), while getElt accumulates it with running
    strides, sum of d[i] * (n[0]*...*n[i-1]). This module defines both forms, proves
    they agree, bounds them, and gives the decoding they invert. */
module MixedRadix {

  /** Product of the radices, accumulated left to right as the running strides are. */
  function Prod(s: seq<nat>): nat
  {
    if |s| == 0 then 1 else Prod(s[..|s| - 1]) * s[|s| - 1]
  }

  /** Every digit lies below its radix. */
  predicate InRange(d: seq<nat>, n: seq<nat>)
  {
    |d| == |n| && forall i :: 0 <= i < |d| ==> d[i] < n[i]
  }

  /** Every radix is positive. */
  predicate Positive(n: seq<nat>)
  {
    forall i :: 0 <= i < |n| ==> n[i] > 0
  }

  /** Horner form: d[0] + n[0]*(d[1] + n[1]*(...)); the last radix is never multiplied in. */
  function Horner(d: seq<nat>, n: seq<nat>): nat
    requires |d| <= |n|
  {
    if |d| == 0 then 0 else d[0] + n[0] * Horner(d[1..], n[1..])
  }

  /** Stride form: the sum over i of d[i] * Prod(n[..i]), built from the left. */
  function Strided(d: seq<nat>, n: seq<nat>): nat
    requires |d| <= |n|
  {
    if |d| == 0 then 0 else Strided(d[..|d| - 1], n) + d[|d| - 1] * Prod(n[..|d| - 1])
  }

  /** The digits of x over the radices n, least significant first. */
  function Decode(x: nat, n: seq<nat>): (d: seq<nat>)
    requires Positive(n)
    ensures |d| == |n|
    ensures forall i :: 0 <= i < |d| ==> d[i] < n[i]
    decreases |n|
  {
    if |n| == 0 then [] else [x % n[0]] + Decode(x / n[0], n[1..])
  }

  /** The product can also be peeled from the front. */
  lemma {:induction false} ProdCons(n: seq<nat>)
    requires |n| > 0
    ensures Prod(n) == n[0] * Prod(n[1..])
  {
    if |n| > 1 {
      var init := n[..|n| - 1];
      ProdCons(init);
      assert init[1..] == n[1..][..|n[1..]| - 1];
      assert init[0] == n[0];
      calc {
        Prod(n);
        Prod(init) * n[|n| - 1];
        (n[0] * Prod(init[1..])) * n[|n| - 1];
        n[0] * (Prod(init[1..]) * n[|n| - 1]);
        n[0] * (Prod(n[1..][..|n[1..]| - 1]) * n[1..][|n[1..]| - 1]);
        n[0] * Prod(n[1..]);
      }
    } else {
      assert n[1..] == [];
      assert n[..0] == [];
    }
  }

  /** Appending a most-significant digit to the Horner form adds digit times stride. */
  lemma {:induction false} HornerSnoc(d: seq<nat>, x: nat, n: seq<nat>)
    requires |d| + 1 <= |n|
    ensures Horner(d + [x], n) == Horner(d, n) + x * Prod(n[..|d|])
  {
    if |d| == 0 {
      assert d + [x] == [x];
      assert n[..0] == [];
    } else {
      var tail := d[1..];
      assert (d + [x])[1..] == tail + [x];
      HornerSnoc(tail, x, n[1..]);
      var p := Prod(n[1..][..|tail|]);
      ProdCons(n[..|d|]);
      assert n[..|d|][1..] == n[1..][..|tail|];
      assert Prod(n[..|d|]) == n[0] * p;
      var h := Horner(tail, n[1..]);
      calc {
        Horner(d + [x], n);
        d[0] + n[0] * Horner(tail + [x], n[1..]);
        d[0] + n[0] * (h + x * p);
        d[0] + n[0] * h + x * (n[0] * p);
        Horner(d, n) + x * Prod(n[..|d|]);
      }
    }
  }

  /** The running-stride form of getElt and the Horner form of getBlock agree. */
  lemma {:induction false} StridedIsHorner(d: seq<nat>, n: seq<nat>)
    requires |d| <= |n|
    ensures Strided(d, n) == Horner(d, n)
  {
    if |d| > 0 {
      var init := d[..|d| - 1];
      StridedIsHorner(init, n);
      HornerSnoc(init, d[|d| - 1], n);
      assert init + [d[|d| - 1]] == d;
    }
  }

  /** Digits in range keep the stride form below the product of their radices. */
  lemma {:induction false} StridedBound(d: seq<nat>, n: seq<nat>)
    requires |d| <= |n|
    requires forall i :: 0 <= i < |d| ==> d[i] < n[i]
    ensures Strided(d, n) < Prod(n[..|d|])
  {
    if |d| == 0 {
      assert n[..0] == [];
    } else {
      var k := |d| - 1;
      var init := d[..k];
      StridedBound(init, n);
      var p := Prod(n[..k]);
      assert n[..k + 1][..k] == n[..k];
      assert Prod(n[..k + 1]) == p * n[k];
      assert d[k] + 1 <= n[k];
      calc {
        Strided(d, n);
        Strided(init, n) + d[k] * p;
        < p + d[k] * p;
        == (d[k] + 1) * p;
        <= { MulLeMonotone(d[k] + 1, n[k], p); }
        n[k] * p;
      }
    }
  }

  /** One step of the running-stride loop: digit i joins the sum, radix i the stride. */
  lemma StrideStep(d: seq<nat>, n: seq<nat>, i: nat)
    requires i < |d| <= |n|
    ensures Strided(d[..i + 1], n) == Strided(d[..i], n) + d[i] * Prod(n[..i])
    ensures Prod(n[..i + 1]) == Prod(n[..i]) * n[i]
  {
    assert d[..i + 1][..i] == d[..i];
    assert n[..i + 1][..i] == n[..i];
  }

  lemma MulLeMonotone(a: nat, b: nat, c: nat)
    requires a <= b
    ensures a * c <= b * c
  {
  }

  /** Division by m undoes q*m + r for a remainder in range. */
  lemma DivModOfSum(r: nat, m: nat, q: nat)
    requires r < m
    ensures (r + m * q) % m == r && (r + m * q) / m == q
  {
    var x := r + m * q;
    var q', r' := x / m, x % m;
    assert x == m * q' + r';
    if q' < q {
      MulLeMonotone(q' + 1, q, m);
      assert false;
    } else if q' > q {
      MulLeMonotone(q + 1, q', m);
      assert false;
    }
  }

  /** Decoding the Horner form returns the digits: the encoding is injective on in-range tuples. */
  lemma {:induction false} DecodeHorner(d: seq<nat>, n: seq<nat>)
    requires InRange(d, n) && Positive(n)
    ensures Decode(Horner(d, n), n) == d
  {
    if |d| > 0 {
      var h := Horner(d[1..], n[1..]);
      DivModOfSum(d[0], n[0], h);
      DecodeHorner(d[1..], n[1..]);
      assert [d[0]] + d[1..] == d;
    }
  }

  /** A composite index of in-range digits lies below the product of all radices. */
  lemma HornerBound(d: seq<nat>, n: seq<nat>)
    requires InRange(d, n)
    ensures Horner(d, n) < Prod(n)
  {
    StridedIsHorner(d, n);
    StridedBound(d, n);
    assert n[..|d|] == n;
  }
}
