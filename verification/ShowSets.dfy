/** Show sets as ascending lists, searched and edited in place, and the flags a formula gets from one. */
module ShowSets {
  import opened Cnf
  import opened Sequences

  /** Variable numbers, ascending and deduplicated. */
  type ShowSet = s: seq<VarId> | Increasing(s) witness []

  /** Flags by variable index; past the last flag nothing is shown. */
  type ShowMask = seq<bool>

  predicate IsShow(show: ShowMask, v: VarId) {
    Idx(v) < |show| && show[Idx(v)]
  }

  /** Any list of variables, made ascending and free of repeats. */
  function FromVars(vars: seq<VarId>): (s: ShowSet)
    ensures forall v :: v in s <==> v in vars
  {
    SortedVarsMeaning(vars);
    SortedVars(vars)
  }

  /** Canonicalizing a set that is canonical already changes nothing. */
  lemma FromVarsOfSet(s: ShowSet)
    ensures FromVars(s) == s
  {
    SortedVarsUnique(s, s);
  }

  /** The flags of the shown variables among the first `numVars`; any shown beyond those have none. */
  method Mask(s: ShowSet, numVars: nat) returns (mask: ShowMask)
    ensures |mask| == numVars
    ensures forall v: VarId :: IsShow(mask, v) <==> v in s && v <= numVars
  {
    mask := seq(numVars, _ => false);
    for k := 0 to |s|
      invariant |mask| == numVars
      invariant forall i: nat :: i < numVars ==> (mask[i] <==> i + 1 in s[..k])
    {
      assert s[..k + 1] == s[..k] + [s[k]];
      if Idx(s[k]) < numVars { mask := mask[Idx(s[k]) := true]; }
    }
    assert s[..|s|] == s;
  }

  /** The flags under local names, `outer[i]` going by the name `i + 1`. */
  method Restrict(mask: ShowMask, outer: seq<VarId>) returns (s: ShowSet)
    requires |outer| <= MAX_VAR
    ensures forall v: VarId :: v in s <==> Idx(v) < |outer| && IsShow(mask, outer[Idx(v)])
  {
    var list: seq<VarId> := [];
    for i := 0 to |outer|
      invariant Increasing(list)
      invariant forall v: VarId :: v in list <==> Idx(v) < i && IsShow(mask, outer[Idx(v)])
    {
      assert forall k :: 0 <= k < |list| ==> list[k] in list;
      if IsShow(mask, outer[i]) { list := list + [FromIdx(i)]; }
    }
    s := list;
  }

  // ---- changing a set in place ----

  /** Where `v` stands in the set, or where it would go. */
  method Search(s: ShowSet, v: VarId) returns (found: bool, at: nat)
    ensures at <= |s| && (found <==> v in s) && (found ==> at < |s| && s[at] == v)
    ensures forall i :: 0 <= i < at ==> s[i] < v
    ensures forall i :: at <= i < |s| && !found ==> v < s[i]
  {
    at := 0;
    var end: nat := |s|;
    while at < end
      invariant at <= end <= |s|
      invariant forall i :: 0 <= i < at ==> s[i] < v
      invariant forall i :: end <= i < |s| ==> v <= s[i]
    {
      var mid := (at + end) / 2;
      if s[mid] < v { at := mid + 1; } else { end := mid; }
    }
    found := at < |s| && s[at] == v;
  }

  lemma InsertedKeeps(s: ShowSet, v: VarId, at: nat)
    requires at <= |s| && forall i :: 0 <= i < at ==> s[i] < v
    requires forall i :: at <= i < |s| ==> v < s[i]
    ensures Increasing(s[..at] + [v] + s[at..])
    ensures forall w :: w in s[..at] + [v] + s[at..] <==> w in s || w == v
  {
    assert s == s[..at] + s[at..];
  }

  lemma RemovedKeeps(s: ShowSet, at: nat)
    requires at < |s|
    ensures Increasing(s[..at] + s[at + 1..])
    ensures forall w :: w in s[..at] + s[at + 1..] <==> w in s && w != s[at]
  {
    assert s == s[..at] + [s[at]] + s[at + 1..];
  }

  class ShownVars {
    var vars: ShowSet

    constructor (vars: ShowSet)
      ensures this.vars == vars
    {
      this.vars := vars;
    }

    method Contains(v: VarId) returns (r: bool)
      ensures r <==> v in vars
    {
      var at;
      r, at := Search(vars, v);
    }

    /** The set with `v` in it, as if made anew from all its variables. */
    method Insert(v: VarId)
      modifies this
      ensures vars == FromVars(old(vars) + [v])
    {
      var found, at := Search(vars, v);
      if !found {
        InsertedKeeps(vars, v, at);
        vars := vars[..at] + [v] + vars[at..];
      }
      SortedVarsUnique(old(vars) + [v], vars);
    }

    method Remove(v: VarId)
      modifies this
      ensures forall w :: w in vars <==> w in old(vars) && w != v
      ensures v !in old(vars) ==> vars == old(vars)
    {
      var found, at := Search(vars, v);
      if found {
        RemovedKeeps(vars, at);
        vars := vars[..at] + vars[at + 1..];
      }
    }
  }
}
