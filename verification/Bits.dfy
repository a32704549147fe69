/** Bit strings, most significant bit first. */
module Bits {
  import opened Division

  type Bits = seq<bool>

  function Pow2(n: nat): (p: nat)
    ensures p > 0
  {
    if n == 0 then 1 else 2 * Pow2(n - 1)
  }

  /** The low `n` bits of `v`. */
  function ToBits(v: nat, n: nat): (b: Bits)
    ensures |b| == n
  {
    if n == 0 then [] else ToBits(v / 2, n - 1) + [v % 2 == 1]
  }

  function FromBits(b: Bits): nat {
    if b == [] then 0 else 2 * FromBits(b[..|b| - 1]) + (if b[|b| - 1] then 1 else 0)
  }

  function Zeros(n: nat): Bits {
    seq(n, _ => false)
  }

  lemma {:induction false} FromBitsBound(b: Bits)
    ensures FromBits(b) < Pow2(|b|)
  {
    if b != [] {
      FromBitsBound(b[..|b| - 1]);
    }
  }

  lemma {:induction false} ToFromBits(b: Bits)
    ensures ToBits(FromBits(b), |b|) == b
  {
    if b != [] {
      ToFromBits(b[..|b| - 1]);
    }
  }

  lemma {:induction false} FromToBits(v: nat, n: nat)
    requires v < Pow2(n)
    ensures FromBits(ToBits(v, n)) == v
  {
    if n > 0 {
      FromToBits(v / 2, n - 1);
      assert ToBits(v, n)[..n - 1] == ToBits(v / 2, n - 1);
    }
  }

  /** `v >> n`: each position halves. */
  function ShiftRight(v: nat, n: nat): nat {
    if n == 0 then v else ShiftRight(v / 2, n - 1)
  }

  /** A right shift drops the low bits. */
  lemma {:induction false} ToBitsSplit(v: nat, high: nat, low: nat)
    ensures ToBits(v, high + low) == ToBits(ShiftRight(v, low), high) + ToBits(v, low)
  {
    if low > 0 {
      ToBitsSplit(v / 2, high, low - 1);
    }
  }

  lemma ModTwice(v: nat, p: nat)
    requires p > 0
    ensures v % (2 * p) == 2 * (v / 2 % p) + v % 2
  {
    var q, r := v / 2 / p, v / 2 % p;
    assert v / 2 == p * q + r;
    assert v == (2 * p) * q + (2 * r + v % 2);
    DivModUnique(v, 2 * p, q, 2 * r + v % 2);
  }

  /** Bits from position `m` on do not show in the low `n <= m` bits. */
  lemma {:induction false} ToBitsOfMod(v: nat, m: nat, n: nat)
    requires n <= m
    ensures ToBits(v % Pow2(m), n) == ToBits(v, n)
  {
    if n > 0 {
      var rest := v / 2 % Pow2(m - 1);
      ModTwice(v, Pow2(m - 1));
      var low := v % Pow2(m);
      assert low == 2 * rest + v % 2;
      assert low / 2 == rest && low % 2 == v % 2;
      ToBitsOfMod(v / 2, m - 1, n - 1);
    }
  }

  /** The low bits, read as a number, are the remainder. */
  lemma LowBits(v: nat, n: nat)
    ensures FromBits(ToBits(v, n)) == v % Pow2(n)
  {
    ToBitsOfMod(v, n, n);
    FromToBits(v % Pow2(n), n);
  }

  lemma {:induction false} FromBitsZero(b: Bits)
    ensures FromBits(b) == 0 <==> b == Zeros(|b|)
  {
    if b != [] {
      var front := b[..|b| - 1];
      FromBitsZero(front);
      assert b == front + [b[|b| - 1]];
      assert Zeros(|b|) == Zeros(|front|) + [false];
    }
  }

  // ---------------------------------------------------------------------
  // Sequences of numbers of `n` bits each, written one after the other.

  function Spread(vs: seq<nat>, n: nat): Bits {
    if vs == [] then [] else ToBits(vs[0], n) + Spread(vs[1..], n)
  }

  /** The whole groups of `n` bits at the start of a bit string, as numbers. */
  function Groups(b: Bits, n: nat): seq<nat>
    requires n > 0
    decreases |b|
  {
    if |b| < n then [] else [FromBits(b[..n])] + Groups(b[n..], n)
  }

  /** The bits that do not fill a group. */
  function Remainder(b: Bits, n: nat): (r: Bits)
    requires n > 0
    ensures |r| < n
    decreases |b|
  {
    if |b| < n then b else Remainder(b[n..], n)
  }

  lemma {:induction false} SpreadGroups(b: Bits, n: nat)
    requires n > 0
    ensures Spread(Groups(b, n), n) + Remainder(b, n) == b
    ensures forall i :: 0 <= i < |Groups(b, n)| ==> Groups(b, n)[i] < Pow2(n)
    decreases |b|
  {
    if |b| >= n {
      SpreadGroups(b[n..], n);
      SpreadFirst(b[..n], Groups(b[n..], n), Remainder(b[n..], n), b[n..]);
      Cut(b, n);
      FromBitsBound(b[..n]);
    }
  }

  lemma Cut(b: Bits, n: nat)
    requires n <= |b|
    ensures b[..n] + b[n..] == b
  {
  }

  lemma SpreadFirst(head: Bits, vs: seq<nat>, rest: Bits, tail: Bits)
    requires Spread(vs, |head|) + rest == tail
    ensures Spread([FromBits(head)] + vs, |head|) + rest == head + tail
  {
    ToFromBits(head);
    assert ([FromBits(head)] + vs)[1..] == vs;
    Regroup(head, Spread(vs, |head|), rest);
  }

  lemma Regroup(a: Bits, b: Bits, c: Bits)
    ensures a + b + c == a + (b + c)
  {
  }

  lemma {:induction false} GroupsSpread(vs: seq<nat>, rest: Bits, n: nat)
    requires |rest| < n
    requires forall i :: 0 <= i < |vs| ==> vs[i] < Pow2(n)
    ensures Groups(Spread(vs, n) + rest, n) == vs
    ensures Remainder(Spread(vs, n) + rest, n) == rest
  {
    var b := Spread(vs, n) + rest;
    if vs != [] {
      GroupsSpread(vs[1..], rest, n);
      assert b[..n] == ToBits(vs[0], n);
      assert b[n..] == Spread(vs[1..], n) + rest;
      FromToBits(vs[0], n);
    } else {
      assert b == rest;
    }
  }

  lemma {:induction false} SpreadAppend(vs: seq<nat>, v: nat, n: nat)
    ensures Spread(vs + [v], n) == Spread(vs, n) + ToBits(v, n)
  {
    if vs != [] {
      SpreadAppend(vs[1..], v, n);
      assert (vs + [v])[1..] == vs[1..] + [v];
    }
  }

  /** Lengths, for the group sizes in use. */
  lemma {:induction false} SpreadLength(vs: seq<nat>, n: nat)
    requires n == 5 || n == 8
    ensures |Spread(vs, n)| == n * |vs|
  {
    if vs != [] {
      SpreadLength(vs[1..], n);
    }
  }

  lemma {:induction false} RemainderLength(b: Bits, n: nat)
    requires n == 5 || n == 8
    ensures |Remainder(b, n)| == |b| % n
    decreases |b|
  {
    if |b| >= n {
      RemainderLength(b[n..], n);
    }
  }
}
