/** Weight tables and their listing as pairs of a signed literal and a weight. */
module Weights {

  /** Entry `i` is for variable `i + 1`: the weight of false, then of true. */
  type Table<T> = seq<(T, T)>

  /** Every literal of the table with its weight, positive first. */
  function ToDimacsPairs<T>(w: Table<T>): seq<(int, T)> {
    if w == [] then []
    else
      var n := |w|;
      ToDimacsPairs(w[..n - 1]) + [(n, w[n - 1].1), (-n, w[n - 1].0)]
  }

  /** One pair entered; a literal that names no variable of the table is dropped. */
  function EnterPair<T>(w: Table<T>, lit: int, value: T): (r: Table<T>)
    ensures |r| == |w|
  {
    if 1 <= lit <= |w| then w[lit - 1 := (w[lit - 1].0, value)]
    else if 1 <= -lit <= |w| then w[-lit - 1 := (value, w[-lit - 1].1)]
    else w
  }

  function EnterPairs<T>(w: Table<T>, pairs: seq<(int, T)>): (r: Table<T>)
    ensures |r| == |w|
    decreases |pairs|
  {
    if pairs == [] then w else EnterPairs(EnterPair(w, pairs[0].0, pairs[0].1), pairs[1..])
  }

  /** Built from pairs; literals left out get the neutral weight. */
  function FromDimacsPairs<T>(pairs: seq<(int, T)>, n: nat, one: T): (r: Table<T>)
    ensures |r| == n
  {
    EnterPairs(seq(n, _ => (one, one)), pairs)
  }

  lemma {:induction false} EnterPairsConcat<T>(w: Table<T>, a: seq<(int, T)>, b: seq<(int, T)>)
    ensures EnterPairs(w, a + b) == EnterPairs(EnterPairs(w, a), b)
    decreases |a|
  {
    if a == [] {
      assert a + b == b;
    } else {
      assert (a + b)[0] == a[0] && (a + b)[1..] == a[1..] + b;
      EnterPairsConcat(EnterPair(w, a[0].0, a[0].1), a[1..], b);
    }
  }

  /** Entering the pairs of `w` overwrites the first `|w|` entries of a table and no other. */
  lemma {:induction false} EnterAllPairs<T>(base: Table<T>, w: Table<T>)
    requires |w| <= |base|
    ensures EnterPairs(base, ToDimacsPairs(w)) == w + base[|w|..]
  {
    hide EnterPairs;
    if w == [] {
      EnterNothing(base);
    } else {
      var n := |w|;
      EnterAllPairs(base, w[..n - 1]);
      var mid := w[..n - 1] + base[n - 1..];
      EnterPairsConcat(base, ToDimacsPairs(w[..n - 1]), [(n, w[n - 1].1), (-n, w[n - 1].0)]);
      EnterBoth(mid, n, w[n - 1].1, w[n - 1].0);
      NextEntry(base, w);
    }
  }

  lemma EnterNothing<T>(base: Table<T>)
    ensures EnterPairs(base, []) == base && [] + base[0..] == base
  {
  }

  lemma NextEntry<T>(base: Table<T>, w: Table<T>)
    requires 0 < |w| <= |base|
    ensures (w[..|w| - 1] + base[|w| - 1..])[|w| - 1 := w[|w| - 1]] == w + base[|w|..]
  {
  }

  lemma EnterBoth<T>(w: Table<T>, n: int, wp: T, wn: T)
    requires 1 <= n <= |w|
    ensures EnterPairs(w, [(n, wp), (-n, wn)]) == w[n - 1 := (wn, wp)]
  {
    var pairs: seq<(int, T)> := [(n, wp), (-n, wn)];
    var rest: seq<(int, T)> := [(-n, wn)];
    var first := EnterPair(w, n, wp);
    assert pairs[1..] == rest && |rest[1..]| == 0;
    assert EnterPairs(first, rest) == EnterPairs(EnterPair(first, -n, wn), rest[1..]);
  }

  /** A table survives being listed and read back. */
  lemma PairsRoundTrip<T>(w: Table<T>, one: T)
    ensures FromDimacsPairs(ToDimacsPairs(w), |w|, one) == w
  {
    EnterAllPairs(seq(|w|, _ => (one, one)), w);
  }
}
