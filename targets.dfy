/** Build-target lists of a configuration: the stable, first-occurrence
    de-duplication applied to the topmost configuration after the merge. */
module Targets {
  import opened Paths

  /** `deduplicate_targets`: keeps the first occurrence of every target, in order. */
  function Dedupe(s: seq<string>): (r: seq<string>)
    ensures Distinct(r)
    ensures forall t :: t in r <==> t in s
    ensures |r| <= |s|
    decreases |s|
  {
    if s == [] then []
    else
      var d := Dedupe(s[..|s| - 1]);
      if s[|s| - 1] in d then d else d + [s[|s| - 1]]
  }

  /** A list without duplicates is left as it is. */
  lemma {:induction false} DedupeOfDistinct(s: seq<string>)
    requires Distinct(s)
    ensures Dedupe(s) == s
    decreases |s|
  {
    if s != [] {
      DedupeOfDistinct(s[..|s| - 1]);
      assert s == s[..|s| - 1] + [s[|s| - 1]];
    }
  }

  /** What de-duplicating a list keeps of its front part is a prefix of the whole
      result: every target stays at the place of its first occurrence. */
  lemma {:induction false} DedupePrefix(a: seq<string>, b: seq<string>)
    ensures Dedupe(a) <= Dedupe(a + b)
    decreases |b|
  {
    if b == [] {
      assert a + b == a;
    } else {
      var ab := a + b;
      assert ab[..|ab| - 1] == a + b[..|b| - 1];
      DedupePrefix(a, b[..|b| - 1]);
    }
  }

  /** De-duplicating twice changes nothing. */
  lemma DedupeIdempotent(s: seq<string>)
    ensures Dedupe(Dedupe(s)) == Dedupe(s)
  {
    DedupeOfDistinct(Dedupe(s));
  }

  /** Topmost targets [x, y] merged with nested targets [y, z] and [x, w] give [x, y, z, w]. */
  lemma DedupeMergeExample(x: string, y: string, z: string, w: string)
    requires Distinct([x, y, z, w])
    ensures Dedupe([x, y] + [y, z] + [x, w]) == [x, y, z, w]
  {
    var u := [x, y, z, w];
    assert u[0] != u[1] && u[0] != u[2] && u[0] != u[3] && u[1] != u[2] && u[1] != u[3] && u[2] != u[3];
    var s := [x, y] + [y, z] + [x, w];
    assert s[..1][..0] == [];
    assert Dedupe(s[..1]) == [x];
    assert s[..2][..1] == s[..1];
    assert Dedupe(s[..2]) == [x, y];
    assert s[..3][..2] == s[..2];
    assert Dedupe(s[..3]) == [x, y];
    assert s[..4][..3] == s[..3];
    assert Dedupe(s[..4]) == [x, y, z];
    assert s[..5][..4] == s[..4];
    assert Dedupe(s[..5]) == [x, y, z];
    assert s[..|s| - 1] == s[..5];
  }
}
