/** The nesting grouper: one pass over the configuration paths that builds an
    insertion-ordered dictionary from each topmost configuration to the
    configurations nested under it (`gather_nested_configuration_mapping`). */
module Grouping {
  import opened Paths

  /** One dictionary entry: a topmost configuration and the list it subsumes. */
  datatype Group = Group(topmost: string, nested: seq<string>)

  /** A Python dict from topmost path to nested list, as its entries in insertion order. */
  type Mapping = seq<Group>

  /** `k in d`. */
  predicate IsKey(m: Mapping, k: string)
  {
    exists i :: 0 <= i < |m| && m[i].topmost == k
  }

  predicate DistinctKeys(m: Mapping)
  {
    forall i, j :: 0 <= i < j < |m| ==> m[i].topmost != m[j].topmost
  }

  /** Every path the mapping holds, group by group: the key, then its list. */
  function Flat(m: Mapping): seq<string>
  {
    if m == [] then [] else [m[0].topmost] + m[0].nested + Flat(m[1..])
  }

  /** The directory key of every nested path extends its group's directory key. */
  predicate Nests(m: Mapping)
  {
    forall i, q :: 0 <= i < |m| && q in m[i].nested ==> Dir(m[i].topmost) <= Dir(q)
  }

  /** Position of key `k`, or `|m|` when `k` is not a key. */
  function IndexOf(m: Mapping, k: string): (i: nat)
    ensures i <= |m|
    ensures i < |m| ==> m[i].topmost == k
    ensures forall j :: 0 <= j < i ==> m[j].topmost != k
    ensures i < |m| <==> IsKey(m, k)
    decreases |m|
  {
    if m == [] then 0 else if m[0].topmost == k then 0 else 1 + IndexOf(m[1..], k)
  }

  /** `d[k] = v`: overwrites the value in place when `k` is a key, and appends a
      new last entry otherwise. */
  function Store(m: Mapping, k: string, v: seq<string>): (r: Mapping)
    ensures IsKey(m, k) ==> |r| == |m| && forall j :: 0 <= j < |m| ==> r[j].topmost == m[j].topmost
    ensures !IsKey(m, k) ==> r == m + [Group(k, v)]
    ensures forall j :: 0 <= j < |m| && m[j].topmost != k ==> r[j] == m[j]
    ensures IsKey(m, k) ==> r[IndexOf(m, k)] == Group(k, v)
    ensures DistinctKeys(m) ==> DistinctKeys(r)
  {
    var i := IndexOf(m, k);
    if i == |m| then m + [Group(k, v)] else m[i := Group(k, v)]
  }

  /** `del d[k]` for a key `k`: the entry goes, the others keep their order. */
  function Delete(m: Mapping, k: string): (r: Mapping)
    requires IsKey(m, k)
    ensures |r| == |m| - 1
    ensures forall j :: 0 <= j < |r| ==> r[j] == m[if j < IndexOf(m, k) then j else j + 1]
    ensures forall j :: 0 <= j < |m| && m[j].topmost != k ==> m[j] in r
    ensures DistinctKeys(m) ==> !IsKey(r, k)
    ensures DistinctKeys(m) ==> DistinctKeys(r)
  {
    var i := IndexOf(m, k);
    m[..i] + m[i + 1..]
  }

  /** One of the two directory keys is a string prefix of the other. */
  predicate Related(topmost: string, path: string)
  {
    Dir(topmost) <= Dir(path) || Dir(path) <= Dir(topmost)
  }

  /** Index of the first key, in insertion order, that passes either prefix test;
      `|m|` when none does. */
  function FirstRelated(m: Mapping, p: string): (i: nat)
    ensures i <= |m|
    ensures i < |m| ==> Related(m[i].topmost, p)
    ensures forall j :: 0 <= j < i ==> !Related(m[j].topmost, p)
    decreases |m|
  {
    if m == [] then 0
    else if Related(m[0].topmost, p) then 0
    else 1 + FirstRelated(m[1..], p)
  }

  /** What one iteration of the outer loop does to the mapping for path `p`. */
  function Insert(m: Mapping, p: string): Mapping
  {
    var i := FirstRelated(m, p);
    if i == |m| then Store(m, p, [])
    else if Dir(m[i].topmost) <= Dir(p) then m[i := Group(m[i].topmost, m[i].nested + [p])]
    else Delete(Store(m, p, m[i].nested + [m[i].topmost]), m[i].topmost)
  }

  /** The mapping built from `paths`, one path after the other. */
  function Gather(paths: seq<string>): Mapping
    decreases |paths|
  {
    if paths == [] then [] else Insert(Gather(paths[..|paths| - 1]), paths[|paths| - 1])
  }

  /** `gather_nested_configuration_mapping`. */
  method GatherNestedConfigurationMapping(configurations: seq<string>) returns (nestedConfigurations: Mapping)
    ensures nestedConfigurations == Gather(configurations)
    ensures DistinctKeys(nestedConfigurations)
    ensures Nests(nestedConfigurations)
    ensures |nestedConfigurations| <= |configurations|
    ensures Distinct(configurations) ==> multiset(Flat(nestedConfigurations)) == multiset(configurations)
  {
    nestedConfigurations := [];
    for k := 0 to |configurations|
      invariant nestedConfigurations == Gather(configurations[..k])
    {
      GatherStep(configurations, k);
      nestedConfigurations := InsertConfiguration(nestedConfigurations, configurations[k]);
    }
    assert configurations[..|configurations|] == configurations;
    GatherKeysDistinct(configurations);
    GatherNests(configurations);
    GatherSize(configurations);
    if Distinct(configurations) {
      GatherPartition(configurations);
    }
  }

  /** One pass of the outer loop of `gather_nested_configuration_mapping`: the
      first path becomes a key, any other is scanned against the keys in
      insertion order until one passes a prefix test. */
  method InsertConfiguration(before: Mapping, configuration: string) returns (nestedConfigurations: Mapping)
    ensures nestedConfigurations == Insert(before, configuration)
  {
    nestedConfigurations := before;
    if |nestedConfigurations| == 0 {
      nestedConfigurations := Store(nestedConfigurations, configuration, []);
      return;
    }
    var inserted := false;
    var j := 0;
    while j < |nestedConfigurations|
      invariant j <= |nestedConfigurations|
      invariant nestedConfigurations == before && !inserted
      invariant forall t :: 0 <= t < j ==> !Related(before[t].topmost, configuration)
    {
      var topmostConfiguration := nestedConfigurations[j].topmost;
      var existing := Dir(topmostConfiguration);
      var current := Dir(configuration);
      if existing <= current {
        assert FirstRelated(before, configuration) == j;
        nestedConfigurations := nestedConfigurations[j := Group(topmostConfiguration, nestedConfigurations[j].nested + [configuration])];
        inserted := true;
        break;
      } else if current <= existing {
        assert FirstRelated(before, configuration) == j;
        nestedConfigurations := Store(nestedConfigurations, configuration, nestedConfigurations[j].nested + [topmostConfiguration]);
        nestedConfigurations := Delete(nestedConfigurations, topmostConfiguration);
        inserted := true;
        break;
      }
      j := j + 1;
    }
    if !inserted {
      assert FirstRelated(before, configuration) == |before|;
      nestedConfigurations := Store(nestedConfigurations, configuration, []);
    }
  }

  // ---------------------------------------------------------------------------
  // One step

  lemma {:induction false} FlatConcat(a: Mapping, b: Mapping)
    ensures Flat(a + b) == Flat(a) + Flat(b)
    decreases |a|
  {
    if a == [] {
      assert a + b == b;
    } else {
      assert (a + b)[0] == a[0] && (a + b)[1..] == a[1..] + b;
      FlatConcat(a[1..], b);
    }
  }

  /** Every path a group holds is held by the mapping. */
  lemma {:induction false} FlatMember(m: Mapping, g: Group)
    requires g in m
    ensures g.topmost in Flat(m)
    ensures forall q :: q in g.nested ==> q in Flat(m)
    decreases |m|
  {
    if m[0] != g {
      FlatMember(m[1..], g);
    }
  }

  lemma {:induction false} FlatAround(m: Mapping, i: nat)
    requires i < |m|
    ensures Flat(m) == Flat(m[..i]) + ([m[i].topmost] + m[i].nested) + Flat(m[i + 1..])
    decreases i
  {
    if i == 0 {
      assert m[..0] == [];
    } else {
      var rest := m[1..];
      FlatAround(rest, i - 1);
      assert m[..i][0] == m[0] && m[..i][1..] == rest[..i - 1];
      assert rest[i - 1] == m[i] && rest[i..] == m[i + 1..];
    }
  }

  /** Moving group `i` to the end under key `p`, with its old key appended to its
      list, adds `p` and loses nothing. */
  lemma FlatRerooted(m: Mapping, p: string, i: nat)
    requires i < |m|
    ensures multiset(Flat(m[..i] + m[i + 1..] + [Group(p, m[i].nested + [m[i].topmost])]))
         == multiset(Flat(m)) + multiset{p}
  {
    FlatAround(m, i);
    FlatConcat(m[..i], m[i + 1..]);
    FlatConcat(m[..i] + m[i + 1..], [Group(p, m[i].nested + [m[i].topmost])]);
  }

  /** A path related to no key becomes the last key, with an empty list. */
  lemma InsertNewKey(m: Mapping, p: string)
    requires FirstRelated(m, p) == |m|
    ensures Insert(m, p) == m + [Group(p, [])]
    ensures multiset(Flat(Insert(m, p))) == multiset(Flat(m)) + multiset{p}
  {
    assert !IsKey(m, p) by {
      if IsKey(m, p) {
        var j :| 0 <= j < |m| && m[j].topmost == p;
        assert Related(m[j].topmost, p);
      }
    }
    FlatConcat(m, [Group(p, [])]);
  }

  /** A path whose directory key extends that of the first related key joins the
      end of that key's list; every other group stays as it was, in place. */
  lemma InsertAppend(m: Mapping, p: string, i: nat)
    requires i == FirstRelated(m, p) && i < |m| && Dir(m[i].topmost) <= Dir(p)
    ensures |Insert(m, p)| == |m|
    ensures Insert(m, p)[i] == Group(m[i].topmost, m[i].nested + [p])
    ensures forall j :: 0 <= j < |m| && j != i ==> Insert(m, p)[j] == m[j]
    ensures multiset(Flat(Insert(m, p))) == multiset(Flat(m)) + multiset{p}
  {
    var r := Insert(m, p);
    FlatAround(m, i);
    FlatAround(r, i);
    assert r[..i] == m[..i] && r[i + 1..] == m[i + 1..];
  }

  /** The position of the key of entry `i` is `i` when no earlier entry carries it. */
  lemma IndexOfFirst(m: Mapping, i: nat)
    requires i < |m|
    requires forall j :: 0 <= j < i ==> m[j].topmost != m[i].topmost
    ensures IndexOf(m, m[i].topmost) == i
  {
  }

  /** A path whose directory key is a proper prefix of that of the first related
      key takes over its group: the new entry, holding the old list followed by the
      old key, goes last; the old key's entry is gone; the other groups keep their
      order. */
  lemma InsertReroot(m: Mapping, p: string, i: nat)
    requires DistinctKeys(m) && !IsKey(m, p)
    requires i == FirstRelated(m, p) && i < |m| && !(Dir(m[i].topmost) <= Dir(p))
    ensures Insert(m, p) == m[..i] + m[i + 1..] + [Group(p, m[i].nested + [m[i].topmost])]
    ensures multiset(Flat(Insert(m, p))) == multiset(Flat(m)) + multiset{p}
  {
    assert Insert(m, p) == Delete(Store(m, p, m[i].nested + [m[i].topmost]), m[i].topmost);
    StoreThenDelete(m, p, i);
    FlatRerooted(m, p, i);
  }

  /** Storing group `i`'s list plus key under a new key `p`, then deleting the
      old key, moves the group to the end under `p`. */
  lemma StoreThenDelete(m: Mapping, p: string, i: nat)
    requires DistinctKeys(m) && !IsKey(m, p) && i < |m|
    ensures Delete(Store(m, p, m[i].nested + [m[i].topmost]), m[i].topmost)
         == m[..i] + m[i + 1..] + [Group(p, m[i].nested + [m[i].topmost])]
  {
    var t := m[i].topmost;
    var g := Group(p, m[i].nested + [t]);
    var s := m + [g];
    assert Store(m, p, g.nested) == s;
    IndexOfFirst(s, i);
    assert Delete(s, t) == s[..i] + s[i + 1..];
    DropBeforeLast(m, g, i);
  }

  /** Cutting an entry out of a mapping with one more entry at its end. */
  lemma DropBeforeLast(m: Mapping, g: Group, i: nat)
    requires i < |m|
    ensures (m + [g])[..i] + (m + [g])[i + 1..] == m[..i] + m[i + 1..] + [g]
  {
    var s := m + [g];
    assert s[..i] == m[..i];
    assert s[i + 1..] == m[i + 1..] + [g];
  }

  /** The mapping gains an entry exactly when no key is related to the path;
      otherwise its size does not grow. */
  lemma InsertGrowsIffUnrelated(m: Mapping, p: string)
    ensures FirstRelated(m, p) == |m| <==> Insert(m, p) == m + [Group(p, [])]
    ensures FirstRelated(m, p) < |m| ==> |Insert(m, p)| <= |m|
    ensures |Insert(m, p)| <= |m| + 1
  {
    var i := FirstRelated(m, p);
    if i == |m| {
      assert !IsKey(m, p) by {
        if IsKey(m, p) {
          var j :| 0 <= j < |m| && m[j].topmost == p;
          assert Related(m[j].topmost, p);
        }
      }
    }
  }

  /** For a path that is not yet a key, re-rooting and appending keep the number
      of groups, a new key adds one. */
  lemma InsertCount(m: Mapping, p: string)
    requires DistinctKeys(m) && !IsKey(m, p)
    ensures |Insert(m, p)| == if FirstRelated(m, p) == |m| then |m| + 1 else |m|
  {
    var i := FirstRelated(m, p);
    if i == |m| {
      InsertNewKey(m, p);
    } else if !(Dir(m[i].topmost) <= Dir(p)) {
      InsertReroot(m, p, i);
    }
  }

  lemma InsertKeepsKeysDistinct(m: Mapping, p: string)
    requires DistinctKeys(m)
    ensures DistinctKeys(Insert(m, p))
  {
    var i := FirstRelated(m, p);
    if i < |m| && Dir(m[i].topmost) <= Dir(p) {
      var r := Insert(m, p);
      assert forall j :: 0 <= j < |m| ==> r[j].topmost == m[j].topmost;
    }
  }

  lemma PrefixTransitive(a: string, b: string, c: string)
    requires a <= b && b <= c
    ensures a <= c
  {
    assert c[..|b|][..|a|] == c[..|a|];
  }

  /** Storing a list under a key whose directory key starts every listed path's
      keeps the nesting. */
  lemma StoreKeepsNests(m: Mapping, p: string, v: seq<string>)
    requires Nests(m)
    requires forall q :: q in v ==> Dir(p) <= Dir(q)
    ensures Nests(Store(m, p, v))
  {
    var s := Store(m, p, v);
    forall j, q | 0 <= j < |s| && q in s[j].nested
      ensures Dir(s[j].topmost) <= Dir(q)
    {
      if j == |m| || s[j] != m[j] {
        assert s[j] == Group(p, v);
      }
    }
  }

  /** Deleting a key keeps the nesting of the other groups. */
  lemma DeleteKeepsNests(s: Mapping, t: string)
    requires Nests(s) && IsKey(s, t)
    ensures Nests(Delete(s, t))
  {
    var k := IndexOf(s, t);
    var r := Delete(s, t);
    assert r == s[..k] + s[k + 1..];
    forall j, q | 0 <= j < |r| && q in r[j].nested
      ensures Dir(r[j].topmost) <= Dir(q)
    {
      if j < k {
        assert r[j] == s[j];
      } else {
        assert r[j] == s[j + 1];
      }
    }
  }

  lemma InsertKeepsNests(m: Mapping, p: string)
    requires DistinctKeys(m) && Nests(m)
    ensures Nests(Insert(m, p))
  {
    var i := FirstRelated(m, p);
    if i == |m| {
      StoreKeepsNests(m, p, []);
    } else if Dir(m[i].topmost) <= Dir(p) {
      var r := Insert(m, p);
      assert r == m[i := Group(m[i].topmost, m[i].nested + [p])];
      forall j, q | 0 <= j < |r| && q in r[j].nested
        ensures Dir(r[j].topmost) <= Dir(q)
      {
        if j != i {
          assert r[j] == m[j];
        }
      }
    } else {
      var t := m[i].topmost;
      var v := m[i].nested + [t];
      forall q | q in v
        ensures Dir(p) <= Dir(q)
      {
        if q != t {
          PrefixTransitive(Dir(p), Dir(t), Dir(q));
        }
      }
      StoreKeepsNests(m, p, v);
      var s := Store(m, p, v);
      assert IsKey(s, t) by {
        assert s[i].topmost == t;
      }
      DeleteKeepsNests(s, t);
    }
  }

  /** For a path that is neither a key nor inside a list, the step adds exactly
      that path to what the mapping holds: nothing is lost or duplicated. */
  lemma InsertPartition(m: Mapping, p: string)
    requires DistinctKeys(m) && p !in Flat(m)
    ensures multiset(Flat(Insert(m, p))) == multiset(Flat(m)) + multiset{p}
  {
    assert !IsKey(m, p) by {
      if IsKey(m, p) {
        var j :| 0 <= j < |m| && m[j].topmost == p;
        FlatAround(m, j);
      }
    }
    var i := FirstRelated(m, p);
    if i == |m| {
      InsertNewKey(m, p);
    } else if Dir(m[i].topmost) <= Dir(p) {
      InsertAppend(m, p, i);
    } else {
      InsertReroot(m, p, i);
    }
  }

  // ---------------------------------------------------------------------------
  // The whole pass

  lemma GatherStep(paths: seq<string>, k: nat)
    requires k < |paths|
    ensures Gather(paths[..k + 1]) == Insert(Gather(paths[..k]), paths[k])
  {
    assert paths[..k + 1][..k] == paths[..k];
  }

  lemma {:induction false} GatherKeysDistinct(paths: seq<string>)
    ensures DistinctKeys(Gather(paths))
    decreases |paths|
  {
    if paths != [] {
      GatherKeysDistinct(paths[..|paths| - 1]);
      InsertKeepsKeysDistinct(Gather(paths[..|paths| - 1]), paths[|paths| - 1]);
    }
  }

  /** Every nested path's directory key starts with its group's directory key. */
  lemma {:induction false} GatherNests(paths: seq<string>)
    ensures Nests(Gather(paths))
    decreases |paths|
  {
    if paths != [] {
      GatherNests(paths[..|paths| - 1]);
      GatherKeysDistinct(paths[..|paths| - 1]);
      InsertKeepsNests(Gather(paths[..|paths| - 1]), paths[|paths| - 1]);
    }
  }

  /** There are never more groups than paths. */
  lemma {:induction false} GatherSize(paths: seq<string>)
    ensures |Gather(paths)| <= |paths|
    decreases |paths|
  {
    if paths != [] {
      GatherSize(paths[..|paths| - 1]);
      InsertGrowsIffUnrelated(Gather(paths[..|paths| - 1]), paths[|paths| - 1]);
    }
  }

  /** For distinct paths, the keys and the lists together hold exactly the input. */
  lemma {:induction false} GatherPartition(paths: seq<string>)
    requires Distinct(paths)
    ensures multiset(Flat(Gather(paths))) == multiset(paths)
    decreases |paths|
  {
    if paths != [] {
      var front, p := paths[..|paths| - 1], paths[|paths| - 1];
      assert paths == front + [p];
      GatherPartition(front);
      GatherKeysDistinct(front);
      assert p !in front;
      assert p !in multiset(Flat(Gather(front)));
      InsertPartition(Gather(front), p);
    }
  }

  /** The first path becomes the only key, and the second is inserted into that. */
  lemma GatherSecond(a: string, b: string)
    ensures Gather([a]) == [Group(a, [])]
    ensures Gather([a, b]) == Insert([Group(a, [])], b)
  {
    var ps := [a, b];
    assert ps[..0] == [] && ps[..1] == [a] && ps[..2] == ps;
    GatherStep(ps, 0);
    InsertNewKey([], a);
    GatherStep(ps, 1);
  }

  /** A second path whose directory key extends the first's joins its list. */
  lemma GatherNestedPair(a: string, b: string)
    requires Dir(a) <= Dir(b)
    ensures Gather([a, b]) == [Group(a, [b])]
  {
    GatherSecond(a, b);
    var m1 := [Group(a, [])];
    assert FirstRelated(m1, b) == 0 by {
      assert Related(m1[0].topmost, b);
    }
    InsertAppend(m1, b, 0);
    assert [] + [b] == [b];
  }

  /** A path nested under the first and a third path unrelated to the first
      give two groups: `{a: [b], c: []}`. */
  lemma GatherNestedThenUnrelated(a: string, b: string, c: string)
    requires Dir(a) <= Dir(b) && !Related(a, c)
    ensures Gather([a, b, c]) == [Group(a, [b]), Group(c, [])]
  {
    var ps := [a, b, c];
    assert ps[..2] == [a, b];
    GatherNestedPair(a, b);
    GatherStep(ps, 2);
    InsertNewKey([Group(a, [b])], c);
  }

  /** Configurations in `a`, `a/b` and `c` group as `{a: [a/b], c: []}`. */
  lemma GatherExample()
    ensures Gather(["a" + Suffix, "a/b" + Suffix, "c" + Suffix])
         == [Group("a" + Suffix, ["a/b" + Suffix]), Group("c" + Suffix, [])]
  {
    DirOfConfigurationPath("a");
    DirOfConfigurationPath("a/b");
    DirOfConfigurationPath("c");
    GatherNestedThenUnrelated("a" + Suffix, "a/b" + Suffix, "c" + Suffix);
  }

  /** A second path whose directory key is a proper prefix of the first's takes
      over the first's group. */
  lemma GatherReroot(a: string, b: string)
    requires Dir(b) <= Dir(a) && !(Dir(a) <= Dir(b)) && a != b
    ensures Gather([a, b]) == [Group(b, [a])]
  {
    GatherSecond(a, b);
    var m1 := [Group(a, [])];
    assert !IsKey(m1, b);
    assert FirstRelated(m1, b) == 0 by {
      assert Related(m1[0].topmost, b);
    }
    InsertReroot(m1, b, 0);
    assert m1[..0] + m1[1..] == [];
    assert [] + [a] == [a];
  }

  /** Re-rooting happens on sorted input: `a-x` sorts before `a` once the
      configuration file name is appended, since `-` comes before `/`, and the
      configuration of `a` then takes over the group of `a-x`. */
  lemma GatherRerootExample()
    ensures Sorted(["a-x" + Suffix, "a" + Suffix])
    ensures Gather(["a-x" + Suffix, "a" + Suffix]) == [Group("a" + Suffix, ["a-x" + Suffix])]
  {
    var ax, a := "a-x" + Suffix, "a" + Suffix;
    assert ax[1..] == "-x" + Suffix && a[1..] == Suffix;
    assert LexLe(ax, a);
    DirOfConfigurationPath("a-x");
    DirOfConfigurationPath("a");
    assert "a" <= "a-x";
    GatherReroot(ax, a);
  }

  /** Two paths unrelated by prefix give two groups with empty lists. */
  lemma GatherUnrelatedPair(j: string, k: string)
    requires !Related(j, k)
    ensures Gather([j, k]) == [Group(j, []), Group(k, [])]
  {
    GatherSecond(j, k);
    var m1 := [Group(j, [])];
    assert FirstRelated(m1, k) == 1;
    InsertNewKey(m1, k);
  }

  /** Re-rooting the first of two keys moves it, as the new key's list, behind
      the second. */
  lemma RerootFirstOfTwo(j: string, k: string, v: seq<string>, a: string)
    requires j != k
    requires Dir(a) <= Dir(j) && !(Dir(j) <= Dir(a)) && a != j && a != k
    ensures Insert([Group(j, []), Group(k, v)], a) == [Group(k, v), Group(a, [j])]
  {
    var m := [Group(j, []), Group(k, v)];
    TwoKeysRerootable(j, k, v, a);
    InsertReroot(m, a, 0);
    RerootedTwo(j, k, v, a);
  }

  /** The sequence `InsertReroot` gives for the first of two keys. */
  lemma RerootedTwo(j: string, k: string, v: seq<string>, a: string)
    ensures var m := [Group(j, []), Group(k, v)];
      m[..0] + m[1..] + [Group(a, m[0].nested + [m[0].topmost])] == [Group(k, v), Group(a, [j])]
  {
    var m := [Group(j, []), Group(k, v)];
    assert m[..0] + m[1..] == [Group(k, v)];
    assert m[0].nested + [m[0].topmost] == [j];
  }

  /** The two-key mapping meets the conditions of `InsertReroot` at its first key. */
  lemma TwoKeysRerootable(j: string, k: string, v: seq<string>, a: string)
    requires j != k
    requires Dir(a) <= Dir(j) && !(Dir(j) <= Dir(a)) && a != j && a != k
    ensures var m := [Group(j, []), Group(k, v)];
      DistinctKeys(m) && !IsKey(m, a) && FirstRelated(m, a) == 0
  {
    var m := [Group(j, []), Group(k, v)];
    assert Related(m[0].topmost, a);
  }

  /** A path that re-roots the first key it is related to leaves alone a later
      key it is also related to: `j` and `k` stay unrelated keys, `a` takes over
      the group of `j`, and `k` keeps a group of its own. */
  lemma GatherShielded(j: string, k: string, a: string)
    requires !Related(j, k)
    requires Dir(a) <= Dir(j) && !(Dir(j) <= Dir(a)) && a != j && a != k
    ensures Gather([j, k, a]) == [Group(k, []), Group(a, [j])]
  {
    var ps := [j, k, a];
    assert ps[..2] == [j, k] && ps[..3] == ps;
    GatherUnrelatedPair(j, k);
    GatherStep(ps, 2);
    assert Related(j, j);
    RerootFirstOfTwo(j, k, [], a);
  }

  /** `a/.hidden` with the file name appended sorts before `a` with it: they
      first differ at `h` and `p`. */
  lemma HiddenBeforeParent()
    ensures LexLe("a/.hidden" + Suffix, "a" + Suffix)
  {
    var ah, a := "a/.hidden" + Suffix, "a" + Suffix;
    var x, y := ah[3..], a[3..];
    assert x[0] == 'h' && y[0] == 'p';
    assert LexLe(x, y);
    assert ah[2..][1..] == x && a[2..][1..] == y;
    assert LexLe(ah[2..], a[2..]);
    assert ah[1..][1..] == ah[2..] && a[1..][1..] == a[2..];
    assert LexLe(ah[1..], a[1..]);
  }

  /** `a-b`, `a/.hidden` and `a`, each with the configuration file name
      appended, are in sorted order: `-` comes before `/`, and `h` before `p`. */
  lemma ShieldedPathsSorted()
    ensures Sorted(["a-b" + Suffix, "a/.hidden" + Suffix, "a" + Suffix])
  {
    var ab, ah := "a-b" + Suffix, "a/.hidden" + Suffix;
    assert ab[1] == '-' && ah[1] == '/';
    assert LexLe(ab[1..], ah[1..]);
    assert LexLe(ab, ah);
    HiddenBeforeParent();
  }

  /** On sorted input, the configuration of a directory `a/.hidden` nested in
      `a` can remain a topmost configuration beside that of `a`: `a-b` sorts
      first and `a` takes over its group, while `a/.hidden`, unrelated to `a-b`
      by prefix, keeps a group of its own. */
  lemma GatherShieldedExample()
    ensures Sorted(["a-b" + Suffix, "a/.hidden" + Suffix, "a" + Suffix])
    ensures Dir("a" + Suffix) < Dir("a/.hidden" + Suffix)
    ensures Gather(["a-b" + Suffix, "a/.hidden" + Suffix, "a" + Suffix])
         == [Group("a/.hidden" + Suffix, []), Group("a" + Suffix, ["a-b" + Suffix])]
  {
    ShieldedPathsSorted();
    DirOfConfigurationPath("a-b");
    DirOfConfigurationPath("a/.hidden");
    DirOfConfigurationPath("a");
    assert "a" <= "a-b" && "a" < "a/.hidden";
    var x, y := "a-b", "a/.hidden";
    assert x[1] != y[1] && !(x <= y) && !(y <= x);
    GatherShielded("a-b" + Suffix, "a/.hidden" + Suffix, "a" + Suffix);
  }

  /** A fourth path can re-root the shielded key: `b` takes over the group of
      `k`, while `a` keeps the group of `j`. */
  lemma GatherEscape(j: string, k: string, a: string, b: string)
    requires !Related(j, k)
    requires Dir(a) <= Dir(j) && !(Dir(j) <= Dir(a)) && a != j && a != k
    requires Dir(b) <= Dir(k) && !(Dir(k) <= Dir(b)) && b != k && b != a
    ensures Gather([j, k, a, b]) == [Group(a, [j]), Group(b, [k])]
  {
    var ps := [j, k, a, b];
    assert ps[..3] == [j, k, a] && ps[..4] == ps;
    GatherShielded(j, k, a);
    GatherStep(ps, 3);
    RerootFirstOfTwo(k, a, [j], b);
  }

  /** How the paths of the escape example are spelled from the directory `a`,
      the stem `/.pyre_configuration` and the file name's `.local`. */
  lemma EscapeSpelling()
    ensures Suffix == "/.pyre_configuration" + ".local"
    ensures "a/.pyre_configuration" == "a" + "/.pyre_configuration"
    ensures "a/.pyre_configuration-z" == "a/.pyre_configuration" + "-z"
  {
  }

  lemma SortedFour(p1: string, p2: string, p3: string, p4: string)
    requires LexLe(p1, p2) && LexLe(p2, p3) && LexLe(p3, p4)
    ensures Sorted([p1, p2, p3, p4])
  {
  }

  /** `a-b`, `a/.pyre_configuration-z`, `a` and `a/.pyre_configuration`, each
      with the configuration file name appended, are in sorted order: they differ
      first at `-` against `/`, then at `-` against `.`, then at `.` against `/`. */
  lemma EscapePathsSorted()
    ensures Sorted(["a-b" + Suffix, "a/.pyre_configuration-z" + Suffix, "a" + Suffix, "a/.pyre_configuration" + Suffix])
  {
    EscapeFirstSorted();
    EscapeSecondSorted();
    EscapeThirdSorted();
    SortedFour("a-b" + Suffix, "a/.pyre_configuration-z" + Suffix, "a" + Suffix, "a/.pyre_configuration" + Suffix);
  }

  lemma EscapeFirstSorted()
    ensures LexLe("a-b" + Suffix, "a/.pyre_configuration-z" + Suffix)
  {
    var u, w := "-b" + Suffix, "/.pyre_configuration-z" + Suffix;
    assert "a-b" + Suffix == "a" + u && "a/.pyre_configuration-z" + Suffix == "a" + w;
    assert LexLe(u, w);
    LexLeAfterCommonPrefix("a", u, w);
  }

  lemma EscapeSecondSorted()
    ensures LexLe("a/.pyre_configuration-z" + Suffix, "a" + Suffix)
  {
    EscapeSpelling();
    var c := "a/.pyre_configuration";
    var x, y := "-z" + Suffix, ".local";
    assert "a/.pyre_configuration-z" + Suffix == c + x;
    assert "a" + Suffix == c + y;
    assert LexLe(x, y);
    LexLeAfterCommonPrefix(c, x, y);
  }

  lemma EscapeThirdSorted()
    ensures LexLe("a" + Suffix, "a/.pyre_configuration" + Suffix)
  {
    EscapeSpelling();
    var c, y := "a/.pyre_configuration", ".local";
    assert "a" + Suffix == c + y;
    assert LexLe(y, Suffix);
    LexLeAfterCommonPrefix(c, y, Suffix);
  }

  /** The directory keys of the four paths, and how they relate by prefix. */
  lemma EscapeDirs()
    ensures !Related("a-b" + Suffix, "a/.pyre_configuration-z" + Suffix)
    ensures Dir("a" + Suffix) <= Dir("a-b" + Suffix) && !(Dir("a-b" + Suffix) <= Dir("a" + Suffix))
    ensures Dir("a/.pyre_configuration" + Suffix) <= Dir("a/.pyre_configuration-z" + Suffix)
    ensures !(Dir("a/.pyre_configuration-z" + Suffix) <= Dir("a/.pyre_configuration" + Suffix))
    ensures Dir("a" + Suffix) < Dir("a/.pyre_configuration" + Suffix)
  {
    EscapeSpelling();
    var d1, d2, d4 := "a-b", "a/.pyre_configuration-z", "a/.pyre_configuration";
    DirOfConfigurationPath(d1);
    DirOfConfigurationPath(d2);
    DirOfConfigurationPath("a");
    DirOfConfigurationPath(d4);
    assert d1[1] == '-' && d2[1] == '/';
    assert "a" <= d1 && "a" < d4 && d4 <= d2;
  }

  /** On sorted input, a later path whose directory lies inside an earlier
      path's directory can end up outside that path's group: `a/.pyre_configuration`
      lies inside `a`, comes after it, and becomes a topmost key of its own. */
  lemma GatherEscapeExample()
    ensures Sorted(["a-b" + Suffix, "a/.pyre_configuration-z" + Suffix, "a" + Suffix, "a/.pyre_configuration" + Suffix])
    ensures Dir("a" + Suffix) < Dir("a/.pyre_configuration" + Suffix)
    ensures Gather(["a-b" + Suffix, "a/.pyre_configuration-z" + Suffix, "a" + Suffix, "a/.pyre_configuration" + Suffix])
         == [Group("a" + Suffix, ["a-b" + Suffix]), Group("a/.pyre_configuration" + Suffix, ["a/.pyre_configuration-z" + Suffix])]
  {
    EscapePathsSorted();
    EscapeDirs();
    var p1, p2 := "a-b" + Suffix, "a/.pyre_configuration-z" + Suffix;
    var p3, p4 := "a" + Suffix, "a/.pyre_configuration" + Suffix;
    assert |p3| < |p1| < |p2| && |p4| < |p2| && |p3| < |p4|;
    GatherEscape(p1, p2, p3, p4);
  }
}
