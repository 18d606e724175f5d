/** `get_palette_hex`: a list of exactly `n` colours. It is cut from the base
    palette when that is long enough; otherwise the base palette is repeated past
    `n`, cut to `n` and shuffled by a fixed-seed permutation. Colours are opaque
    values and the permutation is a parameter. */
module Palette {
  import opened Wrappers

  /** `list(range(n))`. */
  function Indices(n: nat): (r: seq<nat>)
    ensures |r| == n
    ensures forall i | 0 <= i < n :: r[i] == i
  {
    seq(n, i requires 0 <= i < n => i)
  }

  /** `np.random.permutation(n)`: the numbers below `n`, each once. */
  predicate IsPermutation(perm: seq<nat>, n: nat) {
    |perm| == n && multiset(perm) == multiset(Indices(n))
  }

  predicate Below(idx: seq<nat>, m: nat) {
    forall i | 0 <= i < |idx| :: idx[i] < m
  }

  lemma PermutationBelow(perm: seq<nat>, n: nat)
    requires IsPermutation(perm, n)
    ensures Below(perm, n)
  {
    forall i | 0 <= i < |perm|
      ensures perm[i] < n
    {
      assert perm[i] in multiset(perm);
      assert perm[i] in Indices(n);
    }
  }

  /** `[pal[i] for i in idx]`. */
  function Gather<C>(pal: seq<C>, idx: seq<nat>): (r: seq<C>)
    requires Below(idx, |pal|)
    ensures |r| == |idx|
    ensures forall i | 0 <= i < |idx| :: r[i] == pal[idx[i]]
  {
    seq(|idx|, i requires 0 <= i < |idx| => pal[idx[i]])
  }

  /** Reading through two index lists with the same multiset of positions
      yields the same multiset of colours. */
  lemma {:induction false} GatherPermuted<C>(pal: seq<C>, a: seq<nat>, b: seq<nat>)
    requires Below(a, |pal|) && Below(b, |pal|)
    requires multiset(a) == multiset(b)
    ensures multiset(Gather(pal, a)) == multiset(Gather(pal, b))
    decreases |a|
  {
    if a == [] {
      assert |b| == |multiset(b)| == 0;
    } else {
      var x := a[0];
      var k := Locate(b, x);
      var b1, b2 := b[..k], b[k + 1..];
      assert b == b1 + [x] + b2;
      assert a == [] + [x] + a[1..];
      MultisetRemove(x, a[1..], b1, b2);
      GatherSplit(pal, b1, x, b2);
      GatherSplit(pal, [], x, a[1..]);
      assert [] + a[1..] == a[1..];
      GatherPermuted(pal, a[1..], b1 + b2);
    }
  }

  /** A position of a value the multiset of `b` holds. */
  lemma Locate(b: seq<nat>, x: nat) returns (k: nat)
    requires x in multiset(b)
    ensures k < |b| && b[k] == x
  {
    k :| 0 <= k < |b| && b[k] == x;
  }

  /** Taking one index out of the list takes its colour out of the gathered list. */
  lemma GatherSplit<C>(pal: seq<C>, b1: seq<nat>, x: nat, b2: seq<nat>)
    requires Below(b1 + [x] + b2, |pal|)
    ensures x < |pal| && Below(b1 + b2, |pal|)
    ensures multiset(Gather(pal, b1 + [x] + b2)) == multiset(Gather(pal, b1 + b2)) + multiset{pal[x]}
  {
    BelowParts(b1, x, b2, |pal|);
    GatherConcat(pal, b1 + [x], b2);
    GatherConcat(pal, b1, [x]);
    GatherConcat(pal, b1, b2);
    var g1, g2 := Gather(pal, b1), Gather(pal, b2);
    assert Gather(pal, [x]) == [pal[x]];
    assert multiset(g1 + [pal[x]] + g2) == multiset(g1 + g2) + multiset{pal[x]};
  }

  lemma BelowParts(b1: seq<nat>, x: nat, b2: seq<nat>, m: nat)
    requires Below(b1 + [x] + b2, m)
    ensures Below(b1, m) && x < m && Below(b2, m) && Below(b1 + b2, m)
  {
    var b := b1 + [x] + b2;
    assert forall i | 0 <= i < |b1| :: b1[i] == b[i];
    assert forall i | 0 <= i < |b2| :: b2[i] == b[|b1| + 1 + i];
    assert x == b[|b1|];
  }

  lemma GatherConcat<C>(pal: seq<C>, a: seq<nat>, b: seq<nat>)
    requires Below(a, |pal|) && Below(b, |pal|)
    ensures Below(a + b, |pal|)
    ensures Gather(pal, a + b) == Gather(pal, a) + Gather(pal, b)
  {
    assert forall i | 0 <= i < |a + b| :: (a + b)[i] == if i < |a| then a[i] else b[i - |a|];
  }

  lemma MultisetRemove<T>(x: T, a: seq<T>, b1: seq<T>, b2: seq<T>)
    requires multiset([x] + a) == multiset(b1 + [x] + b2)
    ensures multiset(a) == multiset(b1 + b2)
  {
    calc {
      multiset(a);
      multiset([x] + a) - multiset{x};
      multiset(b1 + [x] + b2) - multiset{x};
      multiset(b1 + b2);
    }
  }

  /** `base * k`. */
  function Repeat<C>(base: seq<C>, k: nat): (r: seq<C>)
    ensures |r| == k * |base|
  {
    if k == 0 then [] else base + Repeat(base, k - 1)
  }

  lemma {:induction false} RepeatAt<C>(base: seq<C>, k: nat, i: nat)
    requires i < |Repeat(base, k)|
    ensures |base| > 0 && Repeat(base, k)[i] == base[i % |base|]
    decreases k
  {
    var b := |base|;
    RepeatNonEmpty(base, k);
    if i >= b {
      RepeatStep(base, k, i);
      RepeatAt(base, k - 1, i - b);
      ModShift(i - b, b);
    } else {
      ModSmall(i, b);
    }
  }

  /** Past the first copy, `base * k` continues as `base * (k - 1)`. */
  lemma RepeatStep<C>(base: seq<C>, k: nat, i: nat)
    requires 0 < k && |base| <= i < |Repeat(base, k)|
    ensures i - |base| < |Repeat(base, k - 1)| && Repeat(base, k)[i] == Repeat(base, k - 1)[i - |base|]
  {
    var rest := Repeat(base, k - 1);
    assert Repeat(base, k) == base + rest;
    MulPred(k, |base|);
  }

  lemma ModSmall(i: nat, b: nat)
    requires i < b
    ensures i % b == i
  {
  }

  lemma RepeatNonEmpty<C>(base: seq<C>, k: nat)
    requires 0 < |Repeat(base, k)|
    ensures 0 < k && 0 < |base|
  {
  }

  lemma MulPred(k: nat, b: nat)
    requires 0 < k
    ensures (k - 1) * b == k * b - b
  {
  }

  lemma {:induction false} MulMono(x: int, y: int, b: nat)
    ensures x <= y ==> x * b <= y * b
    decreases if x < y then y - x else 0
  {
    if x < y {
      MulMono(x, y - 1, b);
      assert (y - 1) * b + b == y * b;
    }
  }

  /** Adding the divisor leaves the remainder alone. */
  lemma ModShift(j: nat, b: nat)
    requires b > 0
    ensures (j + b) % b == j % b
  {
    var q0, r0 := j / b, j % b;
    var q1, r1 := (j + b) / b, (j + b) % b;
    assert j == q0 * b + r0;
    assert j + b == q1 * b + r1;
    MulMono(q1, q0, b);
    MulMono(q0 + 2, q1, b);
    assert (q0 + 2) * b == q0 * b + 2 * b;
    assert q1 == q0 + 1;
    assert q1 * b == q0 * b + b;
  }

  /** The base palette cycled to length `n`. */
  function Cycle<C>(base: seq<C>, n: nat): (r: seq<C>)
    requires |base| > 0
    ensures |r| == n
    ensures forall i | 0 <= i < n :: r[i] == base[i % |base|]
  {
    seq(n, i requires 0 <= i < n => base[i % |base|])
  }

  /** `get_palette_hex(n)` with `base` the named seaborn palette and `perm`
      standing for `np.random.permutation(n)` after `np.random.seed(42)`. With
      an empty base and `n > 0` the `//` raises, which is the `None`. */
  function GetPalette<C>(n: nat, base: seq<C>, perm: seq<nat>): (r: Option<seq<C>>)
    requires |base| < n ==> IsPermutation(perm, n)
    ensures r.None? <==> |base| == 0 && n > 0
    ensures r.Some? ==> |r.value| == n
    ensures n <= |base| ==> r == Some(base[..n])
    ensures 0 < |base| < n ==> forall i | 0 <= i < n :: r.value[i] == base[perm[i] % |base|]
  {
    if n <= |base| then Some(base[..n])
    else if |base| == 0 then None
    else
      var b := |base|;
      var repeats := n / b + 1;
      assert repeats * b == (n / b) * b + b;
      var pal := Repeat(base, repeats)[..n];
      PermutationBelow(perm, n);
      forall i | 0 <= i < n
        ensures pal[perm[i]] == base[perm[i] % b]
      {
        RepeatAt(base, repeats, perm[i]);
      }
      Some(Gather(pal, perm))
  }

  /** A palette longer than the base is a reordering of the base cycled to
      length `n`: each colour appears as often as in the cycled list. */
  lemma ShuffledCycle<C>(n: nat, base: seq<C>, perm: seq<nat>)
    requires 0 < |base| < n && IsPermutation(perm, n)
    ensures multiset(GetPalette(n, base, perm).value) == multiset(Cycle(base, n))
  {
    var cyc := Cycle(base, n);
    var r := GetPalette(n, base, perm).value;
    PermutationBelow(perm, n);
    assert r == Gather(cyc, perm);
    GatherPermuted(cyc, perm, Indices(n));
    assert Gather(cyc, Indices(n)) == cyc;
  }

  /** A permutation of `0..n-1` hits every number below `n`. */
  lemma Preimage(perm: seq<nat>, n: nat, c: nat) returns (i: nat)
    requires IsPermutation(perm, n) && c < n
    ensures i < n && perm[i] == c
  {
    assert Indices(n)[c] == c;
    assert c in multiset(Indices(n));
    i :| 0 <= i < |perm| && perm[i] == c;
  }

  /** Every base colour shows up in a palette longer than the base. */
  lemma EveryColourUsed<C>(n: nat, base: seq<C>, perm: seq<nat>, c: nat)
    requires 0 < |base| < n && IsPermutation(perm, n) && c < |base|
    ensures base[c] in GetPalette(n, base, perm).value
  {
    var i := Preimage(perm, n, c);
    ModSmall(c, |base|);
    assert GetPalette(n, base, perm).value[i] == base[c];
  }
}
