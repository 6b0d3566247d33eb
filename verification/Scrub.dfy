/** Sampling blobs for a scrub: a stride that is coprime to the number of blobs visits each at most once. */
module Scrub {
  import opened Common

  datatype Mode = Full | Sampled

  // ----- Euclid -----

  function Gcd(a: nat, b: nat): nat
    decreases b
  {
    if b == 0 then a else Gcd(b, a % b)
  }

  /** The greatest common divisor is a combination of its arguments. */
  lemma {:induction false} Bezout(a: nat, b: nat) returns (x: int, y: int)
    ensures a * x + b * y == Gcd(a, b)
    decreases b
  {
    if b == 0 {
      x, y := 1, 0;
    } else {
      var u, v := Bezout(b, a % b);
      x, y := v, u - (a / b) * v;
      calc {
        a * x + b * y;
        a * v + b * (u - (a / b) * v);
        { Distribute(b, u, (a / b) * v); MulSwap(b, a / b, v); }
        a * v + b * u - (b * (a / b)) * v;
        { assert a == b * (a / b) + a % b; }
        (b * (a / b) + a % b) * v + b * u - (b * (a / b)) * v;
        b * u + (a % b) * v;
      }
    }
  }

  lemma Distribute(a: int, b: int, c: int)
    ensures a * (b - c) == a * b - a * c
  {
  }

  lemma MulSwap(a: int, b: int, c: int)
    ensures a * (b * c) == (a * b) * c
  {
  }

  /** It divides both arguments. */
  lemma {:induction false} GcdDivides(a: nat, b: nat) returns (p: nat, q: nat)
    ensures a == Gcd(a, b) * p && b == Gcd(a, b) * q
    decreases b
  {
    if b == 0 {
      p, q := 1, 0;
    } else {
      var u, v := GcdDivides(b, a % b);
      p, q := u * (a / b) + v, u;
      Combine(Gcd(b, a % b), u, v, a, b);
    }
  }

  lemma Combine(g: nat, u: nat, v: nat, a: nat, b: nat)
    requires b > 0 && b == g * u && a % b == g * v
    ensures a == g * (u * (a / b) + v)
  {
  }

  /** And every common divisor divides it. */
  lemma GcdGreatest(a: nat, b: nat, d: nat, p: int, q: int) returns (k: int)
    requires a == d * p && b == d * q
    ensures Gcd(a, b) == d * k
  {
    var x, y := Bezout(a, b);
    k := p * x + q * y;
    MulSwap(d, p, x);
    MulSwap(d, q, y);
  }

  method GreatestCommonDivisor(left: nat, right: nat) returns (g: nat)
    ensures g == Gcd(left, right)
  {
    var a, b := left, right;
    while b != 0
      invariant Gcd(a, b) == Gcd(left, right)
      decreases b
    {
      a, b := b, a % b;
    }
    g := a;
  }

  lemma OneIsCoprime(n: nat)
    requires n > 0
    ensures Gcd(1, n) == 1
  {
  }

  /** A multiple is at least as far from zero as its factor. */
  lemma Times(n: nat, z: int)
    ensures z >= 1 ==> n * z >= n
    ensures z == 0 ==> n * z == 0
    ensures z <= -1 ==> n * z + n <= 0
  {
  }

  // ----- Strides -----

  /** The position after `k` strides. */
  function Position(start: nat, step: nat, k: nat, n: nat): nat
    requires n > 0
  {
    (start + k * step) % n
  }

  lemma ModAdd(a: nat, s: nat, n: nat)
    requires n > 0
    ensures (a % n + s) % n == (a + s) % n
  {
    var q, r: nat := a / n, (a % n + s) % n;
    var t := (a % n + s) / n;
    assert a % n + s == n * t + r;
    assert a + s == n * (q + t) + r by {
      assert a == n * q + a % n;
    }
    ModUnique(a + s, n, q + t, r);
  }

  lemma ModUnique(a: int, n: nat, q: int, r: nat)
    requires n > 0 && a == n * q + r && r < n
    ensures a % n == r
  {
    var d := a / n - q;
    assert n * d == r - a % n by {
      assert a == n * (a / n) + a % n;
      Distribute(n, a / n, q);
    }
    Times(n, d);
  }

  lemma NextPosition(start: nat, step: nat, k: nat, n: nat)
    requires n > 0
    ensures (Position(start, step, k, n) + step) % n == Position(start, step, k + 1, n)
  {
    var a := start + k * step;
    Gap(start, step, k, k + 1);
    assert start + (k + 1) * step == a + step;
    ModAdd(a, step, n);
  }

  lemma SmallMultiple(n: nat, z: int, m: nat)
    requires m < n && m == n * z
    ensures m == 0
  {
  }

  /** If `step` and `n` combine to 1, then `n` divides any `m` whose multiple by `step` it divides. */
  lemma Cancel(step: int, x: int, n: int, y: int, m: int, q: int)
    requires step * x + n * y == 1 && m * step == n * q
    ensures m == n * (q * x + m * y)
  {
  }

  /** A coprime stride does not come back to its start in fewer than `n` steps. */
  lemma CoprimeMultiple(step: nat, n: nat, m: nat, q: int)
    requires Gcd(step, n) == 1 && m < n && m * step == n * q
    ensures m == 0
  {
    var x, y := Bezout(step, n);
    Cancel(step, x, n, y, m, q);
    SmallMultiple(n, q * x + m * y, m);
  }

  lemma SameRemainder(a: nat, b: nat, n: nat) returns (q: int)
    requires n > 0 && a % n == b % n
    ensures b - a == n * q
  {
    q := b / n - a / n;
    assert a == n * (a / n) + a % n && b == n * (b / n) + b % n;
    Distribute(n, b / n, a / n);
  }

  lemma Gap(start: int, step: int, i: int, j: int)
    ensures (start + j * step) - (start + i * step) == (j - i) * step
  {
  }

  lemma StrideGap(start: nat, step: nat, n: nat, i: nat, j: nat) returns (q: int)
    requires n > 0 && Position(start, step, i, n) == Position(start, step, j, n)
    ensures (j - i) * step == n * q
  {
    var a, b := start + i * step, start + j * step;
    q := SameRemainder(a, b, n);
    Gap(start, step, i, j);
  }

  /** Positions of different strides below `n` differ. */
  lemma PositionsDistinct(start: nat, step: nat, n: nat, i: nat, j: nat)
    requires Gcd(step, n) == 1 && i <= j < n && Position(start, step, i, n) == Position(start, step, j, n)
    ensures i == j
  {
    var q := StrideGap(start, step, n, i, j);
    CoprimeMultiple(step, n, j - i, q);
  }

  /** Solving `k * step == d` up to multiples of `n`. */
  lemma Solve(step: int, x: int, n: int, y: int, d: int, c: int, k: int)
    requires step * x + n * y == 1 && d * x == n * c + k
    ensures k * step == d - n * (d * y + c * step)
  {
  }

  /** Among `n` strides one reaches any given position. */
  lemma PositionReached(start: nat, step: nat, n: nat, target: nat) returns (k: nat)
    requires Gcd(step, n) == 1 && target < n
    ensures k < n && Position(start, step, k, n) == target
  {
    var x, y := Bezout(step, n);
    var d := target - start;
    var c;
    c, k := (d * x) / n, (d * x) % n;
    Solve(step, x, n, y, d, c, k);
    var e := d * y + c * step;
    Distribute(n, 0, e);
    ModUnique(start + k * step, n, -e, target);
  }

  ghost predicate Visited(start: nat, step: nat, n: nat, target: nat)
    requires n > 0
  {
    exists k :: 0 <= k < n && Position(start, step, k, n) == target
  }

  /** `n` coprime strides visit every position exactly once. */
  lemma StrideVisitsAll(start: nat, step: nat, n: nat)
    requires n > 0 && Gcd(step, n) == 1
    ensures forall target :: 0 <= target < n ==> Visited(start, step, n, target)
    ensures forall i, j :: 0 <= i < j < n ==> Position(start, step, i, n) != Position(start, step, j, n)
  {
    forall target | 0 <= target < n ensures Visited(start, step, n, target) {
      var k := PositionReached(start, step, n, target);
    }
    forall i, j | 0 <= i < j < n ensures Position(start, step, i, n) != Position(start, step, j, n) {
      if Position(start, step, i, n) == Position(start, step, j, n) {
        PositionsDistinct(start, step, n, i, j);
      }
    }
  }

  // ----- Selection -----

  /** Where the search for a stride starts. */
  function FirstStep(n: nat): (step: nat)
    requires n > 0
    ensures 1 <= step && (step < n || step == 1)
  {
    if 97 % n == 0 then 1 else 97 % n
  }

  /** The stride just below the number of blobs is coprime to it, so the search never wraps around. */
  lemma LastIsCoprime(n: nat)
    requires n >= 2
    ensures Gcd(n - 1, n) == 1
  {
    var g := Gcd(n - 1, n);
    var a, b := GcdDivides(n - 1, n);
    Distribute(g, b, a);
    assert g * (b - a) == 1;
    UnitFactor(g, b - a);
  }

  lemma UnitFactor(g: nat, z: int)
    requires g * z == 1
    ensures g == 1
  {
    Times(g, z);
  }

  method NextStep(step: nat, n: nat) returns (next: nat)
    requires 1 <= step < n
    ensures next == if step + 1 < n then step + 1 else 1
  {
    ModUnique(step + 1, n, if step + 1 < n then 0 else 1, if step + 1 < n then step + 1 else 0);
    next := (step + 1) % n;
    if next == 0 {
      next := 1;
    }
  }

  /** The search for a coprime stride: the first one from 97 on, counted up to the number of blobs. */
  method CoprimeStep(n: nat) returns (step: nat)
    requires n > 0
    ensures Gcd(step, n) == 1 && FirstStep(n) <= step && (step < n || step == 1)
    ensures forall k :: FirstStep(n) <= k < step ==> Gcd(k, n) != 1
  {
    OneIsCoprime(n);
    step := 97 % n;
    if step == 0 {
      step := 1;
    }
    var g := GreatestCommonDivisor(step, n);
    while g != 1
      invariant FirstStep(n) <= step && (step < n || step == 1) && g == Gcd(step, n)
      invariant forall k :: FirstStep(n) <= k < step ==> Gcd(k, n) != 1
      decreases n - step
    {
      LastIsCoprime(n);
      step := NextStep(step, n);
      g := GreatestCommonDivisor(step, n);
    }
  }

  /**
    `select_hashes_for_mode`: a sample holds exactly as many entries as asked for, at distinct
    positions that start where the seed says and are one stride apart; asked for all, it is all.
   */
  method SelectHashes(hashes: seq<string>, sampleBlobs: nat, mode: Mode, seed: nat)
    returns (out: seq<string>, ghost positions: seq<nat>, ghost step: nat)
    ensures mode.Full? || hashes == [] ==> out == []
    ensures mode.Sampled? ==> |out| == Min(sampleBlobs, |hashes|)
    ensures |positions| == |out| && forall k :: 0 <= k < |out| ==>
              positions[k] < |hashes| && out[k] == hashes[positions[k]]
    ensures forall i, j :: 0 <= i < j < |positions| ==> positions[i] != positions[j]
    ensures mode.Sampled? && sampleBlobs >= |hashes| ==> out == hashes
    ensures mode.Sampled? && 0 < sampleBlobs < |hashes| ==>
              && positions[0] == seed % |hashes|
              && 97 % |hashes| <= step < |hashes| && Gcd(step, |hashes|) == 1
              && (forall k :: 0 < k < step && 97 % |hashes| <= k ==> Gcd(k, |hashes|) != 1)
              && forall k :: 0 <= k < |positions| - 1 ==> positions[k + 1] == (positions[k] + step) % |hashes|
  {
    step := 1;
    if mode.Full? || hashes == [] {
      return [], [], 1;
    }
    var n := |hashes|;
    var max := Min(sampleBlobs, n);
    if max == n {
      return hashes, seq(n, k => k), 1;
    }
    var start := seed % n;
    var stride := CoprimeStep(n);
    step := stride;
    ghost var path := StridePath(start, stride, n);
    out := Sample(hashes, start, stride, max, path);
    positions := path[..max];
  }

  /** The positions the sampling loop runs through, all different. */
  lemma StridePath(start: nat, step: nat, n: nat) returns (path: seq<nat>)
    requires start < n && Gcd(step, n) == 1
    ensures |path| == n && path[0] == start
    ensures forall k :: 0 <= k < n ==> path[k] < n
    ensures forall k :: 0 <= k < n - 1 ==> path[k + 1] == (path[k] + step) % n
    ensures forall i, j :: 0 <= i < j < n ==> path[i] != path[j]
  {
    path := seq(n, k requires 0 <= k < n => Position(start, step, k, n));
    ModUnique(start, n, 0, start);
    assert Position(start, step, 0, n) == start;
    forall k | 0 <= k < n - 1 ensures path[k + 1] == (path[k] + step) % n {
      NextPosition(start, step, k, n);
    }
    StrideVisitsAll(start, step, n);
  }

  method Sample(hashes: seq<string>, start: nat, step: nat, max: nat, ghost path: seq<nat>) returns (out: seq<string>)
    requires max < |hashes| == |path| && path[0] == start
    requires forall k :: 0 <= k < |path| ==> path[k] < |hashes|
    requires forall k :: 0 <= k < |path| - 1 ==> path[k + 1] == (path[k] + step) % |hashes|
    ensures |out| == max && forall k :: 0 <= k < max ==> out[k] == hashes[path[k]]
  {
    out := [];
    var idx := start;
    while |out| < max
      invariant |out| <= max && idx == path[|out|]
      invariant forall k :: 0 <= k < |out| ==> out[k] == hashes[path[k]]
      decreases max - |out|
    {
      out := out + [hashes[idx]];
      idx := (idx + step) % |hashes|;
    }
  }
}
