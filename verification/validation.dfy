/** Validation of a configuration collection: a left-to-right fold into an
    insertion-ordered map keyed by configuration name, whose values, in key
    order, are the validated configurations. */
module Validation {
  import opened Entities
  import opened Occurrences

  /** An insertion-ordered map from names to configurations: `keys` is the
      iteration order, `entries` the content. */
  datatype LinkedMap = LinkedMap(keys: seq<string>, entries: map<string, BuildConfiguration>)
  {
    /** Every key is listed exactly once, and only keys are listed. */
    ghost predicate WellFormed() {
      && (forall i, j :: 0 <= i < j < |keys| ==> keys[i] != keys[j])
      && (forall n :: n in entries <==> n in keys)
    }
  }

  const EmptyMap: LinkedMap := LinkedMap([], map[])

  /** Insertion into an insertion-ordered map: a key already present keeps
      its place in the iteration order and only its value is replaced; a new
      key is placed last. Seen through the values, the configuration replaces
      the one of the same name in place, or is appended. */
  function Put(lm: LinkedMap, c: BuildConfiguration): (r: LinkedMap)
    requires lm.WellFormed()
    ensures r.WellFormed()
    ensures c.name in r.entries && r.entries[c.name] == c
    ensures forall n :: n != c.name ==> (n in r.entries <==> n in lm.entries)
    ensures forall n :: n != c.name && n in lm.entries ==> r.entries[n] == lm.entries[n]
    ensures c.name in lm.entries ==> r.keys == lm.keys
    ensures c.name !in lm.entries ==> r.keys == lm.keys + [c.name]
    ensures c.name in lm.entries ==>
              |Values(r)| == |Values(lm)| &&
              forall i :: 0 <= i < |lm.keys| ==>
                Values(r)[i] == if lm.keys[i] == c.name then c else Values(lm)[i]
    ensures c.name !in lm.entries ==> Values(r) == Values(lm) + [c]
  {
    if c.name in lm.entries then LinkedMap(lm.keys, lm.entries[c.name := c])
    else LinkedMap(lm.keys + [c.name], lm.entries[c.name := c])
  }

  /** The values of `lm`, in iteration order. */
  function Values(lm: LinkedMap): (vs: seq<BuildConfiguration>)
    requires lm.WellFormed()
    ensures |vs| == |lm.keys|
    ensures forall i :: 0 <= i < |vs| ==> vs[i] == lm.entries[lm.keys[i]]
  {
    seq(|lm.keys|, i requires 0 <= i < |lm.keys| => lm.entries[lm.keys[i]])
  }

  /** The map after inserting every configuration of `cs`, in order. */
  function Fold(cs: seq<BuildConfiguration>): (lm: LinkedMap)
    ensures lm.WellFormed()
    ensures |lm.keys| <= |cs|
    decreases |cs|
  {
    if cs == [] then EmptyMap else Put(Fold(cs[..|cs| - 1]), cs[|cs| - 1])
  }

  /** The keys of `lm` are exactly the names in `ns`. */
  ghost predicate Covers(lm: LinkedMap, ns: seq<string>) {
    forall n :: n in lm.entries <==> n in ns
  }

  /** Every key of `lm` is bound to the last configuration of `cs` with that name. */
  ghost predicate LastWins(lm: LinkedMap, cs: seq<BuildConfiguration>) {
    forall n :: n in lm.entries ==>
      n in NamesOf(cs) && lm.entries[n] == cs[LastIndex(NamesOf(cs), n)]
  }

  /** `keys` lists names of `ns` in the order of their first occurrence in `ns`. */
  ghost predicate FirstSeenOrder(keys: seq<string>, ns: seq<string>) {
    forall i, j :: 0 <= i < j < |keys| ==>
      keys[i] in ns && keys[j] in ns && FirstIndex(ns, keys[i]) < FirstIndex(ns, keys[j])
  }

  lemma PutCovers(lm: LinkedMap, ns: seq<string>, c: BuildConfiguration)
    requires lm.WellFormed() && Covers(lm, ns)
    ensures Covers(Put(lm, c), ns + [c.name])
  {
  }

  lemma PutLastWins(lm: LinkedMap, pre: seq<BuildConfiguration>, c: BuildConfiguration)
    requires lm.WellFormed() && LastWins(lm, pre)
    ensures LastWins(Put(lm, c), pre + [c])
  {
    var cs, ns := pre + [c], NamesOf(pre);
    NamesOfSnoc(pre, c);
    SnocFresh(ns, c.name);
    var r := Put(lm, c);
    forall n | n in r.entries
      ensures n in NamesOf(cs) && r.entries[n] == cs[LastIndex(NamesOf(cs), n)]
    {
      if n != c.name {
        SnocIndices(ns, c.name, n);
        assert cs[LastIndex(ns, n)] == pre[LastIndex(ns, n)];
      }
    }
  }

  lemma PutFirstSeenOrder(lm: LinkedMap, ns: seq<string>, c: BuildConfiguration)
    requires lm.WellFormed() && Covers(lm, ns) && FirstSeenOrder(lm.keys, ns)
    ensures FirstSeenOrder(Put(lm, c).keys, ns + [c.name])
  {
    var keys, ns' := Put(lm, c).keys, ns + [c.name];
    forall i, j | 0 <= i < j < |keys|
      ensures keys[i] in ns' && keys[j] in ns' && FirstIndex(ns', keys[i]) < FirstIndex(ns', keys[j])
    {
      assert keys[i] == lm.keys[i] && keys[i] in lm.entries;
      SnocIndices(ns, c.name, keys[i]);
      if j < |lm.keys| {
        assert keys[j] == lm.keys[j] && keys[j] in lm.entries;
        SnocIndices(ns, c.name, keys[j]);
      } else {
        assert keys[j] == c.name && c.name !in ns;
        SnocFresh(ns, c.name);
      }
    }
  }

  /** The fold keeps one key per input name, in first-occurrence order, each
      bound to the last input of that name. */
  lemma {:induction false} FoldInvariant(cs: seq<BuildConfiguration>)
    ensures Covers(Fold(cs), NamesOf(cs))
    ensures LastWins(Fold(cs), cs)
    ensures FirstSeenOrder(Fold(cs).keys, NamesOf(cs))
    decreases |cs|
  {
    if cs != [] {
      var pre, c := cs[..|cs| - 1], cs[|cs| - 1];
      assert cs == pre + [c];
      FoldInvariant(pre);
      NamesOfSnoc(pre, c);
      PutCovers(Fold(pre), NamesOf(pre), c);
      PutLastWins(Fold(pre), pre, c);
      PutFirstSeenOrder(Fold(pre), NamesOf(pre), c);
    }
  }

  /** `r` and `cs` hold the same set of names. */
  ghost predicate SameNames(r: seq<BuildConfiguration>, cs: seq<BuildConfiguration>) {
    forall n :: n in NamesOf(r) <==> n in NamesOf(cs)
  }

  /** Each configuration of `r` is the last configuration of `cs` with its name. */
  ghost predicate KeepsLast(r: seq<BuildConfiguration>, cs: seq<BuildConfiguration>) {
    forall i :: 0 <= i < |r| ==>
      r[i].name in NamesOf(cs) && r[i] == cs[LastIndex(NamesOf(cs), r[i].name)]
  }

  /** What validation promises about its result `r` for the input `cs`:
      every input name, and no other, exactly once; under each name the LAST
      input with that name; names in the order of their FIRST occurrence. */
  ghost predicate IsValidationOf(cs: seq<BuildConfiguration>, r: seq<BuildConfiguration>) {
    && DistinctNames(r)
    && SameNames(r, cs)
    && KeepsLast(r, cs)
    && FirstSeenOrder(NamesOf(r), NamesOf(cs))
  }

  /** A well-formed map satisfying the fold invariant for `cs` lists a
      validation of `cs`. */
  lemma ValuesAreValidation(lm: LinkedMap, cs: seq<BuildConfiguration>)
    requires lm.WellFormed() && Covers(lm, NamesOf(cs)) && LastWins(lm, cs)
    requires FirstSeenOrder(lm.keys, NamesOf(cs))
    ensures IsValidationOf(cs, Values(lm))
  {
    var r := Values(lm);
    forall i | 0 <= i < |r|
      ensures r[i].name == lm.keys[i]
      ensures r[i].name in NamesOf(cs) && r[i] == cs[LastIndex(NamesOf(cs), r[i].name)]
    {
      assert lm.keys[i] in lm.entries;
    }
    assert NamesOf(r) == lm.keys;
  }

  /** Validation of a configuration collection (the source's
      getValidatedConfigurations): duplicates collapse onto the slot of their
      first occurrence and carry the value of their last; empty names are
      diagnosed by the source but kept. The full promise is `ValidatedIsValidation`. */
  function Validated(cs: seq<BuildConfiguration>): (r: seq<BuildConfiguration>)
    ensures |r| <= |cs|
    ensures |r| == 0 <==> |cs| == 0
    ensures DistinctNames(r)
  {
    FoldInvariant(cs);
    ValuesAreValidation(Fold(cs), cs);
    assert |cs| > 0 ==> cs[0].name in NamesOf(cs);
    Values(Fold(cs))
  }

  /** The validated collection keeps every input name exactly once, under it
      the last input of that name, at the slot of its first occurrence. */
  lemma ValidatedIsValidation(cs: seq<BuildConfiguration>)
    ensures IsValidationOf(cs, Validated(cs))
  {
    FoldInvariant(cs);
    ValuesAreValidation(Fold(cs), cs);
  }

  lemma FirstSeenOrderTail(a: seq<string>, ns: seq<string>)
    requires a != [] && FirstSeenOrder(a, ns)
    ensures FirstSeenOrder(a[1..], ns)
    ensures a[0] !in a[1..]
  {
    var t := a[1..];
    forall i, j | 0 <= i < j < |t|
      ensures t[i] in ns && t[j] in ns && FirstIndex(ns, t[i]) < FirstIndex(ns, t[j])
    {
      assert t[i] == a[i + 1] && t[j] == a[j + 1];
    }
  }

  lemma HeadIsMember(b: seq<string>)
    requires b != []
    ensures b[0] in b
  {
  }

  /** Of two sequences in first-occurrence order with the same names, the
      heads agree. */
  lemma FirstSeenOrderHeads(a: seq<string>, b: seq<string>, ns: seq<string>)
    requires a != [] && b != []
    requires a[0] in b && b[0] in a
    requires FirstSeenOrder(a, ns) && FirstSeenOrder(b, ns)
    ensures a[0] == b[0]
  {
    var k :| 0 <= k < |b| && b[k] == a[0];
    var m :| 0 <= m < |a| && a[m] == b[0];
  }

  /** Two name sequences that are both in first-occurrence order of `ns` and
      hold the same names are equal. */
  lemma {:induction false} FirstSeenOrderUnique(a: seq<string>, b: seq<string>, ns: seq<string>)
    requires forall n :: n in a <==> n in b
    requires FirstSeenOrder(a, ns) && FirstSeenOrder(b, ns)
    ensures a == b
    decreases |a|
  {
    if a == [] {
      if b != [] {
        HeadIsMember(b);
        assert false;
      }
    } else {
      assert a[0] in a && b != [] && b[0] in b;
      FirstSeenOrderHeads(a, b, ns);
      FirstSeenOrderTail(a, ns);
      FirstSeenOrderTail(b, ns);
      var ta, tb := a[1..], b[1..];
      assert a == [a[0]] + ta && b == [b[0]] + tb;
      forall n ensures n in ta <==> n in tb {
        assert n in ta <==> n in a && n != a[0];
        assert n in tb <==> n in b && n != b[0];
      }
      FirstSeenOrderUnique(ta, tb, ns);
    }
  }

  /** The validation promise pins the result down completely: validation is
      the ONLY sequence it admits. */
  lemma {:induction false} ValidationCharacterized(cs: seq<BuildConfiguration>, r: seq<BuildConfiguration>)
    ensures IsValidationOf(cs, r) <==> r == Validated(cs)
  {
    ValidatedIsValidation(cs);
    if IsValidationOf(cs, r) {
      var v := Validated(cs);
      forall n | n in NamesOf(r) ensures n in NamesOf(cs) {
        var i :| 0 <= i < |r| && NamesOf(r)[i] == n;
      }
      assert forall n :: n in NamesOf(r) <==> n in NamesOf(v);
      FirstSeenOrderUnique(NamesOf(r), NamesOf(v), NamesOf(cs));
      assert |r| == |NamesOf(r)| == |NamesOf(v)| == |v|;
      forall i | 0 <= i < |r| ensures r[i] == v[i] {
        assert NamesOf(r)[i] == NamesOf(v)[i];
      }
    }
  }

  /** A collection whose names are already distinct passes validation unchanged. */
  lemma {:induction false} ValidatedIdentity(cs: seq<BuildConfiguration>)
    requires DistinctNames(cs)
    ensures Validated(cs) == cs
  {
    var ns := NamesOf(cs);
    forall i | 0 <= i < |cs|
      ensures cs[i].name in ns && LastIndex(ns, cs[i].name) == i && FirstIndex(ns, cs[i].name) == i
    {
      assert ns[i] == cs[i].name;
      UniqueOccurrence(ns, i);
    }
    assert FirstSeenOrder(NamesOf(cs), ns);
    ValidationCharacterized(cs, cs);
  }

  /** Validation is idempotent. */
  lemma {:induction false} ValidatedIdempotent(cs: seq<BuildConfiguration>)
    ensures Validated(Validated(cs)) == Validated(cs)
  {
    ValidatedIdentity(Validated(cs));
  }

  lemma ExampleIndices(x: string, y: string)
    requires x != y
    ensures FirstIndex([x, y, x], x) == 0 && FirstIndex([x, y, x], y) == 1
    ensures LastIndex([x, y, x], x) == 2 && LastIndex([x, y, x], y) == 1
  {
    assert [x, y, x][..2] == [x, y] && [x, y][..1] == [x];
  }

  lemma ExampleIsValidation(x1: BuildConfiguration, y: BuildConfiguration, x2: BuildConfiguration)
    requires x1.name == x2.name != y.name
    ensures IsValidationOf([x1, y, x2], [x2, y])
  {
    var cs, r := [x1, y, x2], [x2, y];
    var ns := NamesOf(cs);
    assert ns == [x2.name, y.name, x2.name];
    assert NamesOf(r) == [x2.name, y.name];
    ExampleIndices(x2.name, y.name);
    assert KeepsLast(r, cs) by {
      assert r[0] == cs[2] && r[1] == cs[1];
    }
    assert FirstSeenOrder(NamesOf(r), ns);
  }

  /** Last wins at the first-seen slot: validating `[x1, y, x2]`, where `x1`
      and `x2` share a name, gives `[x2, y]`. */
  lemma LastWinsAtFirstSlot(x1: BuildConfiguration, y: BuildConfiguration, x2: BuildConfiguration)
    requires x1.name == x2.name != y.name
    ensures Validated([x1, y, x2]) == [x2, y]
  {
    ExampleIsValidation(x1, y, x2);
    ValidationCharacterized([x1, y, x2], [x2, y]);
  }
}
