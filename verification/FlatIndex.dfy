/** A list of keyed values stored flat, by counting sort: count, prefix sum, fill, shift back. */
module FlatIndex {

  /** A value filed under a key. */
  type Item = (nat, nat)

  ghost predicate KeysBelow(items: seq<Item>, numKeys: nat) {
    forall i :: 0 <= i < |items| ==> items[i].0 < numKeys
  }

  /** All values with this key, first to last. */
  function ValuesOf(items: seq<Item>, key: nat): seq<nat> {
    if items == [] then []
    else ValuesOf(items[..|items| - 1], key) + (if items[|items| - 1].0 == key then [items[|items| - 1].1] else [])
  }

  lemma {:induction false} ValuesMembers(items: seq<Item>, key: nat)
    ensures forall w: nat :: w in ValuesOf(items, key) <==> (key, w) in items
  {
    if items != [] {
      var front, last := items[..|items| - 1], items[|items| - 1];
      ValuesMembers(front, key);
      assert items == front + [last];
    }
  }

  ghost function CountOf(items: seq<Item>, key: nat): nat {
    |ValuesOf(items, key)|
  }

  /** Where a key's values start: after those of every smaller key. */
  ghost function StartOf(items: seq<Item>, key: nat): nat {
    if key == 0 then 0 else StartOf(items, key - 1) + CountOf(items, key - 1)
  }

  lemma {:induction false} StartsGrow(items: seq<Item>, a: nat, b: nat)
    requires a <= b
    ensures StartOf(items, a) <= StartOf(items, b)
    ensures a < b ==> StartOf(items, a) + CountOf(items, a) <= StartOf(items, b)
  {
    if a < b { StartsGrow(items, a, b - 1); }
  }

  lemma CountNext(items: seq<Item>, i: nat, key: nat)
    requires i < |items|
    ensures ValuesOf(items[..i + 1], key)
         == ValuesOf(items[..i], key) + (if items[i].0 == key then [items[i].1] else [])
  {
    assert items[..i + 1][..i] == items[..i];
  }

  lemma {:induction false} PrefixCount(items: seq<Item>, i: nat, key: nat)
    requires i <= |items|
    ensures CountOf(items[..i], key) <= CountOf(items, key)
    decreases |items| - i
  {
    if i < |items| {
      CountNext(items, i, key);
      PrefixCount(items, i + 1, key);
    } else {
      assert items[..i] == items;
    }
  }

  /** After counting the first `i` items into the slot after their key. */
  ghost predicate Counted(starts: seq<nat>, items: seq<Item>, numKeys: nat, i: nat)
    requires i <= |items|
  {
    && |starts| == numKeys + 1 && starts[0] == 0
    && forall k: nat :: k < numKeys ==> CountedKey(starts, items, k, i)
  }

  ghost predicate CountedKey(starts: seq<nat>, items: seq<Item>, k: nat, i: nat)
    requires i <= |items|
  {
    k + 1 < |starts| && starts[k + 1] == CountOf(items[..i], k)
  }

  /** After summing the first `j` slots. */
  ghost predicate Summed(starts: seq<nat>, items: seq<Item>, numKeys: nat, j: nat) {
    && |starts| == numKeys + 1
    && (forall k: nat :: k < j && k <= numKeys ==> starts[k] == StartOf(items, k))
    && (forall k: nat :: j <= k <= numKeys ==> starts[k] == (if k == 0 then 0 else CountOf(items, k - 1)))
  }

  /** After filling in the first `i` items. */
  ghost predicate Filled(starts: seq<nat>, flat: seq<nat>, items: seq<Item>, numKeys: nat, i: nat)
    requires i <= |items|
  {
    && |starts| == numKeys + 1
    && |flat| == StartOf(items, numKeys)
    && forall k: nat :: k < numKeys ==> FilledKey(starts[k], flat, items, k, i)
  }

  ghost predicate FilledKey(start: nat, flat: seq<nat>, items: seq<Item>, k: nat, i: nat)
    requires i <= |items|
  {
    var lo := StartOf(items, k);
    && start == lo + CountOf(items[..i], k) <= |flat|
    && flat[lo..start] == ValuesOf(items[..i], k)
  }

  /** One item placed: its own range grows by it, every other range is elsewhere. */
  lemma FillStep(starts: seq<nat>, flat: seq<nat>, items: seq<Item>, numKeys: nat, i: nat)
    requires KeysBelow(items, numKeys) && i < |items| && Filled(starts, flat, items, numKeys, i)
    ensures starts[items[i].0] < |flat|
    ensures Filled(starts[items[i].0 := starts[items[i].0] + 1], flat[starts[items[i].0] := items[i].1], items, numKeys,
                   i + 1)
  {
    hide FilledKey, StartOf, ValuesOf;
    var (key, value) := items[i];
    var at := starts[key];
    assert FilledKey(starts[key], flat, items, key, i);
    FillOwn(at, flat, items, numKeys, i);
    var starts', flat' := starts[key := at + 1], flat[at := value];
    forall k: nat | k < numKeys ensures FilledKey(starts'[k], flat', items, k, i + 1) {
      assert FilledKey(starts[k], flat, items, k, i);
      if k != key { FillElsewhere(starts[k], flat, items, k, i, key, at, value); }
    }
  }

  lemma FillOwn(at: nat, flat: seq<nat>, items: seq<Item>, numKeys: nat, i: nat)
    requires i < |items| && items[i].0 < numKeys && |flat| == StartOf(items, numKeys)
    requires FilledKey(at, flat, items, items[i].0, i)
    ensures at == StartOf(items, items[i].0) + CountOf(items[..i], items[i].0) < |flat|
    ensures FilledKey(at + 1, flat[at := items[i].1], items, items[i].0, i + 1)
  {
    hide StartOf, ValuesOf;
    var (key, value) := items[i];
    CountNext(items, i, key);
    PrefixCount(items, i + 1, key);
    StartsGrow(items, key, numKeys);
    var lo := StartOf(items, key);
    assert flat[at := value][lo..at + 1] == flat[lo..at] + [value];
  }

  lemma FillElsewhere(start: nat, flat: seq<nat>, items: seq<Item>, k: nat, i: nat, key: nat, at: nat, value: nat)
    requires i < |items| && items[i] == (key, value) && k != key
    requires FilledKey(start, flat, items, k, i)
    requires at == StartOf(items, key) + CountOf(items[..i], key) < |flat|
    ensures FilledKey(start, flat[at := value], items, k, i + 1)
  {
    CountNext(items, i, k);
    CountNext(items, i, key);
    PrefixCount(items, i, k);
    PrefixCount(items, i + 1, key);
    var lo := StartOf(items, k);
    if k < key { StartsGrow(items, k, key); } else { StartsGrow(items, key, k); }
    assert at < lo || start <= at;
    assert flat[at := value][lo..start] == flat[lo..start];
  }

  /** Each key's values stand in `flat[starts[k]..starts[k + 1]]`, in order. */
  ghost predicate IsIndex(starts: seq<nat>, flat: seq<nat>, items: seq<Item>, numKeys: nat) {
    |starts| == numKeys + 1 && forall k: nat :: k < numKeys ==> KeySlice(starts, flat, items, k)
  }

  ghost predicate KeySlice(starts: seq<nat>, flat: seq<nat>, items: seq<Item>, k: nat) {
    && k + 1 < |starts|
    && starts[k] <= starts[k + 1] <= |flat|
    && flat[starts[k]..starts[k + 1]] == ValuesOf(items, k)
  }

  lemma ShiftedIsIndex(starts: seq<nat>, flat: seq<nat>, items: seq<Item>, numKeys: nat, shifted: seq<nat>)
    requires KeysBelow(items, numKeys) && Filled(starts, flat, items, numKeys, |items|)
    requires |shifted| == numKeys + 1 && shifted[0] == 0
    requires forall k: nat :: k < numKeys ==> shifted[k + 1] == starts[k]
    ensures IsIndex(shifted, flat, items, numKeys)
  {
    assert items[..|items|] == items;
    forall k: nat | k < numKeys ensures KeySlice(shifted, flat, items, k) {
      assert FilledKey(starts[k], flat, items, k, |items|);
      if k > 0 { assert FilledKey(starts[k - 1], flat, items, k - 1, |items|); }
      assert shifted[k] == StartOf(items, k);
    }
  }

  lemma CountStep(starts: seq<nat>, items: seq<Item>, numKeys: nat, i: nat)
    requires i < |items| && items[i].0 < numKeys && Counted(starts, items, numKeys, i)
    ensures Counted(starts[items[i].0 + 1 := starts[items[i].0 + 1] + 1], items, numKeys, i + 1)
  {
    var starts' := starts[items[i].0 + 1 := starts[items[i].0 + 1] + 1];
    var next := i + 1;
    forall k: nat | k < numKeys ensures CountedKey(starts', items, k, next) {
      CountNext(items, i, k);
      assert CountedKey(starts, items, k, i);
    }
  }

  /** One slot higher than the key, so that the sums below become starts. */
  method CountKeys(items: seq<Item>, numKeys: nat) returns (starts: array<nat>)
    requires KeysBelow(items, numKeys)
    ensures fresh(starts) && Summed(starts[..], items, numKeys, 0)
  {
    starts := new nat[numKeys + 1](_ => 0);
    for i := 0 to |items|
      invariant Counted(starts[..], items, numKeys, i)
    {
      ghost var s := starts[..];
      assert items[i].0 < numKeys;
      CountStep(s, items, numKeys, i);
      starts[items[i].0 + 1] := starts[items[i].0 + 1] + 1;
      assert starts[..] == s[items[i].0 + 1 := s[items[i].0 + 1] + 1];
    }
    assert items[..|items|] == items;
    forall k: nat | 0 < k <= numKeys ensures starts[..][k] == CountOf(items, k - 1) {
      assert CountedKey(starts[..], items, k - 1, |items|);
    }
  }

  /** Every slot becomes the total of the ones before. */
  method SumStarts(starts: array<nat>, ghost items: seq<Item>, numKeys: nat)
    requires Summed(starts[..], items, numKeys, 0)
    modifies starts
    ensures Summed(starts[..], items, numKeys, numKeys + 1)
  {
    var sum := 0;
    for j := 0 to numKeys + 1
      invariant Summed(starts[..], items, numKeys, j)
      invariant sum == (if j == 0 then 0 else StartOf(items, j - 1))
    {
      ghost var s := starts[..];
      sum := sum + starts[j];
      starts[j] := sum;
      assert starts[..] == s[j := sum];
    }
  }

  lemma NothingFilled(starts: seq<nat>, flat: seq<nat>, items: seq<Item>, numKeys: nat)
    requires Summed(starts, items, numKeys, numKeys + 1) && |flat| == StartOf(items, numKeys)
    ensures Filled(starts, flat, items, numKeys, 0)
  {
    assert items[..0] == [];
    forall k: nat | k < numKeys ensures FilledKey(starts[k], flat, items, k, 0) {
      StartsGrow(items, k, numKeys);
    }
  }

  /** Put each value at its key's start, which advances past it. */
  method Fill(starts: array<nat>, flat: array<nat>, items: seq<Item>, numKeys: nat)
    requires starts != flat && KeysBelow(items, numKeys) && Filled(starts[..], flat[..], items, numKeys, 0)
    modifies starts, flat
    ensures Filled(starts[..], flat[..], items, numKeys, |items|)
  {
    for i := 0 to |items|
      invariant Filled(starts[..], flat[..], items, numKeys, i)
    {
      ghost var s, f := starts[..], flat[..];
      FillStep(s, f, items, numKeys, i);
      var (key, value) := items[i];
      flat[starts[key]] := value;
      starts[key] := starts[key] + 1;
      assert starts[..] == s[key := s[key] + 1] && flat[..] == f[s[key] := value];
    }
  }

  /** One shift puts the starts back. */
  method ShiftBack(starts: array<nat>, numKeys: nat)
    requires starts.Length == numKeys + 1
    modifies starts
    ensures starts[0] == 0 && forall k: nat :: k < numKeys ==> starts[k + 1] == old(starts[k])
  {
    var j := numKeys;
    while j > 0
      invariant j <= numKeys
      invariant forall k: nat :: j <= k < numKeys ==> starts[k + 1] == old(starts[k])
      invariant forall k: nat :: k <= j ==> starts[k] == old(starts[k])
    {
      starts[j] := starts[j - 1];
      j := j - 1;
    }
    starts[0] := 0;
  }

  /** The index of a keyed list. */
  method Build(items: seq<Item>, numKeys: nat) returns (starts: array<nat>, flat: array<nat>)
    requires KeysBelow(items, numKeys)
    ensures fresh(starts) && fresh(flat)
    ensures IsIndex(starts[..], flat[..], items, numKeys)
  {
    starts := CountKeys(items, numKeys);
    SumStarts(starts, items, numKeys);
    flat := new nat[starts[numKeys]](_ => 0);
    NothingFilled(starts[..], flat[..], items, numKeys);
    Fill(starts, flat, items, numKeys);
    ghost var filled := starts[..];
    ShiftBack(starts, numKeys);
    ShiftedIsIndex(filled, flat[..], items, numKeys, starts[..]);
  }
}
