/** Reading a list cyclically: the counting facts behind round-robin selection. */
module Cyclic {
  import opened Net
  import opened Arith

  function Next(r: nat, n: nat): nat {
    if r + 1 == n then 0 else r + 1
  }

  /** `m` consecutive elements read cyclically from slot `r`. */
  function Cycle<T>(x: seq<T>, r: nat, m: nat): (s: seq<T>)
    requires r < |x|
    ensures |s| == m
    decreases m
  {
    if m == 0 then [] else [x[r]] + Cycle(x, Next(r, |x|), m - 1)
  }

  /** The elements that `m` consecutive values of an ever-growing counter select. */
  function Reads<T>(x: seq<T>, c: nat, m: nat): (s: seq<T>)
    requires x != []
    decreases m
  {
    if m == 0 then [] else [x[c % |x|]] + Reads(x, c + 1, m - 1)
  }

  lemma {:induction false} ReadsLength<T>(x: seq<T>, c: nat, m: nat)
    requires x != []
    ensures |Reads(x, c, m)| == m
    decreases m
  {
    if m > 0 {
      ReadsLength(x, c + 1, m - 1);
    }
  }

  lemma {:induction false} ReadsAreCycle<T>(x: seq<T>, c: nat, m: nat, r: nat)
    requires x != [] && r == c % |x|
    ensures Reads(x, c, m) == Cycle(x, r, m)
    decreases m
  {
    if m > 0 {
      var r' := Next(r, |x|);
      assert r' == (c + 1) % |x| by { ModNext(c, |x|); }
      ReadsAreCycle(x, c + 1, m - 1, r');
    }
  }

  /** Up to the end of the list a cycle is a slice. */
  lemma {:induction false} CycleSlice<T>(x: seq<T>, r: nat, m: nat)
    requires r < |x| && r + m <= |x|
    ensures Cycle(x, r, m) == x[r..r + m]
    decreases m
  {
    if m > 1 {
      CycleSlice(x, r + 1, m - 1);
    }
  }

  /** Slot reached after `m` reads, at most one turn. */
  function Advance(r: nat, m: nat, n: nat): nat {
    if r + m < n then r + m else r + m - n
  }

  lemma {:induction false} CycleConcat<T>(x: seq<T>, r: nat, m: nat, k: nat)
    requires r < |x| && m <= |x|
    ensures Cycle(x, r, m + k) == Cycle(x, r, m) + Cycle(x, Advance(r, m, |x|), k)
    decreases m
  {
    if m > 0 {
      CycleConcat(x, Next(r, |x|), m - 1, k);
      assert Advance(Next(r, |x|), m - 1, |x|) == Advance(r, m, |x|);
    }
  }

  /** One full turn from any slot visits the list exactly once. */
  lemma FullTurn<T>(x: seq<T>, r: nat)
    requires r < |x|
    ensures multiset(Cycle(x, r, |x|)) == multiset(x)
  {
    var a := |x| - r;
    CycleConcat(x, r, a, r);
    CycleSlice(x, r, a);
    CycleSlice(x, 0, r);
    assert Cycle(x, r, |x|) == x[r..] + x[..r];
    Rotated(x, r);
  }

  lemma Rotated<T>(x: seq<T>, r: nat)
    requires r <= |x|
    ensures multiset(x[r..] + x[..r]) == multiset(x)
  {
    assert x == x[..r] + x[r..];
  }

  /** How often an incomplete turn of `extra` out of `n` slots may hit one of `w` slots. */
  predicate ShareOfRest(hits: int, w: nat, extra: nat, n: nat) {
    Max(0, w - (n - extra)) <= hits <= Min(w, extra)
  }

  /** Of any `m` consecutive reads every full turn holds `k` as often as the list does, and the
      incomplete turn as often as its length admits. */
  lemma ReadShare<T>(x: seq<T>, c: nat, m: nat, k: T)
    requires x != []
    ensures var n, w := multiset(Reads(x, c, m))[k], multiset(x)[k];
            ShareOfRest(n - (m / |x|) * w, w, m % |x|, |x|)
  {
    ReadsAreCycle(x, c, m, c % |x|);
    CycleShare(x, c % |x|, m, k);
  }

  lemma CycleShare<T>(x: seq<T>, r: nat, m: nat, k: T)
    requires r < |x|
    ensures var n, w := multiset(Cycle(x, r, m))[k], multiset(x)[k];
            ShareOfRest(n - (m / |x|) * w, w, m % |x|, |x|)
  {
    var q := m / |x|;
    TimesIsProduct(q, |x|);
    TimesIsProduct(q, multiset(x)[k]);
    assert m == Times(q, |x|) + m % |x|;
    SharePerTurn(x, r, q, m % |x|, k);
    HitsAreCounts(x, r, m, k);
    HitsAreCounts(x, r, |x|, k);
    FullTurn(x, r);
  }

  /** Occurrences of `k` among `m` consecutive reads. */
  ghost function Hits<T>(x: seq<T>, r: nat, m: nat, k: T): nat
    requires r < |x|
    decreases m
  {
    if m == 0 then 0 else (if x[r] == k then 1 else 0) + Hits(x, Next(r, |x|), m - 1, k)
  }

  lemma {:induction false} HitsAreCounts<T>(x: seq<T>, r: nat, m: nat, k: T)
    requires r < |x|
    ensures Hits(x, r, m, k) == multiset(Cycle(x, r, m))[k]
    decreases m
  {
    if m > 0 {
      HitsAreCounts(x, Next(r, |x|), m - 1, k);
    }
  }

  lemma {:induction false} HitsBound<T>(x: seq<T>, r: nat, m: nat, k: T)
    requires r < |x|
    ensures Hits(x, r, m, k) <= m
    decreases m
  {
    if m > 0 {
      HitsBound(x, Next(r, |x|), m - 1, k);
    }
  }

  lemma {:induction false} HitsSplit<T>(x: seq<T>, r: nat, m: nat, n: nat, k: T)
    requires r < |x| && m <= |x|
    ensures Hits(x, r, m + n, k) == Hits(x, r, m, k) + Hits(x, Advance(r, m, |x|), n, k)
    decreases m
  {
    if m > 0 {
      HitsSplit(x, Next(r, |x|), m - 1, n, k);
      assert Advance(Next(r, |x|), m - 1, |x|) == Advance(r, m, |x|);
    }
  }

  lemma {:induction false} SharePerTurn<T>(x: seq<T>, r: nat, turns: nat, extra: nat, k: T)
    requires r < |x| && extra < |x|
    ensures var n, w := Hits(x, r, Times(turns, |x|) + extra, k), Hits(x, r, |x|, k);
            ShareOfRest(n - Times(turns, w), w, extra, |x|)
    decreases turns
  {
    if turns == 0 {
      HitsSplit(x, r, extra, |x| - extra, k);
      HitsBound(x, r, extra, k);
      HitsBound(x, Advance(r, extra, |x|), |x| - extra, k);
    } else {
      HitsSplit(x, r, |x|, Times(turns - 1, |x|) + extra, k);
      SharePerTurn(x, r, turns - 1, extra, k);
    }
  }
}
