/**
 * `check_os_env`: split the declared names into those the environment sets and
 * those it does not, walking them in sorted order. The process environment
 * (`os.environ`) is passed in as a map from name to value; only its keys matter.
 */
module Comparator {
  import opened Ordering

  /** What a correct split of `vars` against `env` looks like: two ascending lists,
      the set names and the unset names. */
  predicate IsSortedPartition(vars: set<string>, env: map<string, string>,
                              present: seq<string>, missing: seq<string>)
  {
    && StrictlySorted(present) && Elems(present) == vars * env.Keys
    && StrictlySorted(missing) && Elems(missing) == vars - env.Keys
  }

  method CheckOsEnv(vars: set<string>, env: map<string, string>)
    returns (present: seq<string>, missing: seq<string>)
    ensures IsSortedPartition(vars, env, present, missing)
  {
    var names := SortedOf(vars);
    missing := [];
    present := [];
    for i := 0 to |names|
      invariant StrictlySorted(present) && Elems(present) == Elems(names[..i]) * env.Keys
      invariant StrictlySorted(missing) && Elems(missing) == Elems(names[..i]) * (vars - env.Keys)
    {
      var name := names[i];
      assert name in Elems(names);
      FilterStep(names, i, present, env.Keys);
      FilterStep(names, i, missing, vars - env.Keys);
      if name in env {
        present := present + [name];
      } else {
        missing := missing + [name];
      }
    }
    assert names[..|names|] == names;
  }

  /** One step of the loop: the name at `i` goes to the list that wants it, which stays ascending. */
  lemma FilterStep(names: seq<string>, i: nat, kept: seq<string>, wanted: set<string>)
    requires StrictlySorted(names) && i < |names|
    requires StrictlySorted(kept) && Elems(kept) == Elems(names[..i]) * wanted
    ensures names[i] in wanted ==>
      StrictlySorted(kept + [names[i]]) && Elems(kept + [names[i]]) == Elems(names[..i + 1]) * wanted
    ensures names[i] !in wanted ==> Elems(kept) == Elems(names[..i + 1]) * wanted
  {
    PrefixBelow(names, i);
    if names[i] in wanted {
      AppendSorted(kept, names[i]);
    }
  }

  /** Every declared name lands in exactly one list, so the two lengths add up to the number of names. */
  lemma PartitionCovers(vars: set<string>, env: map<string, string>,
                        present: seq<string>, missing: seq<string>)
    requires IsSortedPartition(vars, env, present, missing)
    ensures Elems(present) + Elems(missing) == vars
    ensures Elems(present) !! Elems(missing)
    ensures |present| + |missing| == |vars|
  {
    SortedDistinct(present);
    SortedDistinct(missing);
    assert vars == (vars * env.Keys) + (vars - env.Keys);
  }

  /** The split is fully determined by its inputs: running it again gives the same lists. */
  lemma PartitionUnique(vars: set<string>, env: map<string, string>,
                        present1: seq<string>, missing1: seq<string>,
                        present2: seq<string>, missing2: seq<string>)
    requires IsSortedPartition(vars, env, present1, missing1)
    requires IsSortedPartition(vars, env, present2, missing2)
    ensures present1 == present2 && missing1 == missing2
  {
    SortedUnique(present1, present2);
    SortedUnique(missing1, missing2);
  }

  /**
   * Only presence matters: two environments with the same names give the same split.
   * It holds by construction, since `IsSortedPartition` reads only `env.Keys`.
   */
  lemma PartitionIgnoresValues(vars: set<string>, env1: map<string, string>, env2: map<string, string>,
                               present: seq<string>, missing: seq<string>)
    requires env1.Keys == env2.Keys
    requires IsSortedPartition(vars, env1, present, missing)
    ensures IsSortedPartition(vars, env2, present, missing)
  {
  }
}
