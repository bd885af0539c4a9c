/** Removal of the dependencies on a module that is about to be removed. */
module Pruning {
  import opened Entities

  /** `a` is `b` with some elements left out, the rest in their original order. */
  ghost predicate IsSubsequence<T>(a: seq<T>, b: seq<T>)
    decreases |b|
  {
    || a == []
    || (&& b != []
        && ((a[0] == b[0] && IsSubsequence(a[1..], b[1..])) || IsSubsequence(a, b[1..])))
  }

  /** No entry of `deps` is a build-configuration reference into `m`. */
  predicate FreeOf(deps: seq<DependencyEntry>, m: ModuleId) {
    forall i :: 0 <= i < |deps| ==> !deps[i].References(m)
  }

  /** The dependency list left after dropping every build-configuration
      entry that points into `m`. */
  function PruneDependencies(deps: seq<DependencyEntry>, m: ModuleId): (r: seq<DependencyEntry>)
    ensures FreeOf(r, m)
    ensures |r| <= |deps|
    decreases |deps|
  {
    if deps == [] then []
    else if deps[0].References(m) then PruneDependencies(deps[1..], m)
    else [deps[0]] + PruneDependencies(deps[1..], m)
  }

  /** Exactly the entries pointing into `m` go; every other entry survives
      with its multiplicity. */
  lemma {:induction false} PruneContents(deps: seq<DependencyEntry>, m: ModuleId)
    ensures forall e :: e in PruneDependencies(deps, m) <==> e in deps && !e.References(m)
    ensures forall e :: multiset(PruneDependencies(deps, m))[e] ==
              if e.References(m) then 0 else multiset(deps)[e]
    decreases |deps|
  {
    if deps != [] {
      PruneContents(deps[1..], m);
      assert deps == [deps[0]] + deps[1..];
    }
  }

  /** The survivors keep their relative order. */
  lemma {:induction false} PruneIsSubsequence(deps: seq<DependencyEntry>, m: ModuleId)
    ensures IsSubsequence(PruneDependencies(deps, m), deps)
    decreases |deps|
  {
    if deps != [] {
      PruneIsSubsequence(deps[1..], m);
      var rest := PruneDependencies(deps[1..], m);
      if !deps[0].References(m) {
        assert ([deps[0]] + rest)[1..] == rest;
      }
    }
  }

  /** One step of the scan: the head survives unless it points into `m`. */
  lemma PruneCons(h: DependencyEntry, t: seq<DependencyEntry>, m: ModuleId)
    ensures PruneDependencies([h] + t, m) ==
              (if h.References(m) then [] else [h]) + PruneDependencies(t, m)
  {
    assert ([h] + t)[0] == h && ([h] + t)[1..] == t;
  }

  /** Pruning distributes over concatenation: what survives of `a + b` is
      what survives of `a` followed by what survives of `b`. */
  lemma {:induction false} PruneAppend(a: seq<DependencyEntry>, b: seq<DependencyEntry>, m: ModuleId)
    ensures PruneDependencies(a + b, m) == PruneDependencies(a, m) + PruneDependencies(b, m)
    decreases |a|
  {
    if a == [] {
      assert a + b == b;
    } else {
      var h, t := a[0], a[1..];
      assert a == [h] + t && a + b == [h] + (t + b);
      PruneCons(h, t + b, m);
      PruneCons(h, t, m);
      PruneAppend(t, b, m);
    }
  }

  /** A list that references no entry of `m` is left exactly as it is. */
  lemma {:induction false} PruneFreeIsIdentity(deps: seq<DependencyEntry>, m: ModuleId)
    requires FreeOf(deps, m)
    ensures PruneDependencies(deps, m) == deps
    decreases |deps|
  {
    if deps != [] {
      assert FreeOf(deps[1..], m) by {
        forall i | 0 <= i < |deps[1..]| ensures !deps[1..][i].References(m) {
          assert deps[1..][i] == deps[i + 1];
        }
      }
      PruneFreeIsIdentity(deps[1..], m);
    }
  }

  /** Pruning twice for the same module is pruning once. */
  lemma {:induction false} PruneIdempotent(deps: seq<DependencyEntry>, m: ModuleId)
    ensures PruneDependencies(PruneDependencies(deps, m), m) == PruneDependencies(deps, m)
  {
    PruneFreeIsIdentity(PruneDependencies(deps, m), m);
  }

  /** Removal keeps the survivors' relative order: `[a, b, c]` with only `b`
      pointing into `m` becomes `[a, c]`. */
  lemma PruneKeepsOrder(a: DependencyEntry, b: DependencyEntry, c: DependencyEntry, m: ModuleId)
    requires !a.References(m) && b.References(m) && !c.References(m)
    ensures PruneDependencies([a, b, c], m) == [a, c]
  {
    assert [a, b, c] == [a] + ([b] + [c]);
    PruneCons(c, [], m);
    PruneCons(b, [c], m);
    PruneCons(a, [b] + [c], m);
  }
}
