/** Merging each nesting group into its topmost configuration (`consolidate`)
    and the command as a whole (`run`), over an abstract working tree: the
    configuration files that load, and the log of the writes, removals and
    submissions the command makes. */
module Consolidation {
  import opened Paths
  import opened Targets
  import opened Grouping

  datatype Option<T> = None | Some(value: T)

  /** The configuration files of the working tree. A path that is a key holds a
      configuration that opens and parses; its value is the `targets` field,
      `None` when the field is absent. */
  type Files = map<string, Option<seq<string>>>

  /** What the command does to the outside world, in order. */
  datatype Event =
    | Wrote(path: string, targets: seq<string>)
    | Removed(paths: seq<string>)
    | Submitted(commit: bool, submit: bool)

  datatype World = World(files: Files, log: seq<Event>)

  /** The targets a loaded configuration declares; none when the field is absent. */
  function TargetsOf(files: Files, path: string): seq<string>
  {
    if path in files && files[path].Some? then files[path].value else []
  }

  predicate AllPresent(files: Files, paths: seq<string>)
  {
    forall q :: q in paths ==> q in files
  }

  function PathSet(paths: seq<string>): set<string>
  {
    set q | q in paths
  }

  /** `total_targets`: the targets of the nested configurations, one
      configuration after the other, duplicates kept. */
  function Accumulated(files: Files, nested: seq<string>): (r: seq<string>)
    ensures forall t :: t in r <==> exists q :: q in nested && t in TargetsOf(files, q)
    decreases |nested|
  {
    if nested == [] then []
    else
      var front, last := nested[..|nested| - 1], nested[|nested| - 1];
      assert forall q :: q in nested <==> q in front || q == last;
      Accumulated(files, front) + TargetsOf(files, last)
  }

  /** The topmost configuration's targets after `add_targets` and
      `deduplicate_targets`. */
  function MergedTargets(files: Files, topmost: string, nested: seq<string>): seq<string>
  {
    Dedupe(TargetsOf(files, topmost) + Accumulated(files, nested))
  }

  /** The effect of `consolidate(topmost, nested)`; `None` when one of the
      configurations does not load, which aborts the command before anything
      is written. */
  function Consolidated(w: World, topmost: string, nested: seq<string>): Option<World>
  {
    if AllPresent(w.files, nested) && topmost in w.files then
      var merged := MergedTargets(w.files, topmost, nested);
      Some(World(w.files[topmost := Some(merged)] - PathSet(nested),
                 w.log + [Wrote(topmost, merged), Removed(nested)]))
    else None
  }

  /** The loop of `run` over the mapping: groups with an empty list are skipped,
      the others consolidated in order; the flag is false when a consolidation
      aborted, and the world is then as that failed consolidation found it. */
  function ConsolidateGroups(w: World, groups: Mapping): (World, bool)
    decreases |groups|
  {
    if groups == [] then (w, true)
    else if groups[0].nested == [] then ConsolidateGroups(w, groups[1..])
    else
      match Consolidated(w, groups[0].topmost, groups[0].nested)
      case None => (w, false)
      case Some(w') => ConsolidateGroups(w', groups[1..])
  }

  /** The effect of `run` on the configurations `found` under the root. */
  function RunEffect(w: World, found: seq<string>, noCommit: bool, submit: bool): (World, bool)
  {
    var configurations := SortPaths(found);
    if |configurations| < 2 then (w, true)
    else ConsolidateAndSubmit(w, Gather(configurations), noCommit, submit)
  }

  /** The second half of `run`: consolidate the groups, then submit once unless
      a consolidation aborted. */
  function ConsolidateAndSubmit(w: World, groups: Mapping, noCommit: bool, submit: bool): (World, bool)
  {
    var result := ConsolidateGroups(w, groups);
    if result.1 then (World(result.0.files, result.0.log + [Submitted(!noCommit, submit)]), true)
    else result
  }

  // ---------------------------------------------------------------------------
  // Reading the log

  /** The paths written, in order. */
  function Writes(log: seq<Event>): seq<string>
    decreases |log|
  {
    if log == [] then []
    else
      var last := log[|log| - 1];
      Writes(log[..|log| - 1]) + if last.Wrote? then [last.path] else []
  }

  /** The arguments of the removal requests, in order. */
  function Removals(log: seq<Event>): seq<seq<string>>
    decreases |log|
  {
    if log == [] then []
    else
      var last := log[|log| - 1];
      Removals(log[..|log| - 1]) + if last.Removed? then [last.paths] else []
  }

  /** How many times the changes were submitted. */
  function Submits(log: seq<Event>): nat
    decreases |log|
  {
    if log == [] then 0
    else
      var last := log[|log| - 1];
      Submits(log[..|log| - 1]) + if last.Submitted? then 1 else 0
  }

  /** The groups `run` consolidates: those with a non-empty list, in mapping order. */
  function NonTrivial(groups: Mapping): Mapping
    decreases |groups|
  {
    if groups == [] then []
    else (if groups[0].nested != [] then [groups[0]] else []) + NonTrivial(groups[1..])
  }

  function Topmosts(groups: Mapping): seq<string>
  {
    if groups == [] then [] else [groups[0].topmost] + Topmosts(groups[1..])
  }

  function NestedLists(groups: Mapping): seq<seq<string>>
  {
    if groups == [] then [] else [groups[0].nested] + NestedLists(groups[1..])
  }

  // ---------------------------------------------------------------------------
  // One consolidation

  /** The merged list holds every target of the topmost and of the nested
      configurations once, and starts with the topmost's own targets in their
      first-occurrence order. */
  lemma MergedTargetsUnion(files: Files, topmost: string, nested: seq<string>)
    ensures Distinct(MergedTargets(files, topmost, nested))
    ensures forall t :: t in MergedTargets(files, topmost, nested) <==>
      t in TargetsOf(files, topmost) || exists q :: q in nested && t in TargetsOf(files, q)
    ensures Dedupe(TargetsOf(files, topmost)) <= MergedTargets(files, topmost, nested)
  {
    DedupePrefix(TargetsOf(files, topmost), Accumulated(files, nested));
  }

  /** The accumulated targets depend only on the nested configurations' files. */
  lemma {:induction false} AccumulatedFrame(f1: Files, f2: Files, nested: seq<string>)
    requires forall q :: q in nested ==> TargetsOf(f1, q) == TargetsOf(f2, q)
    ensures Accumulated(f1, nested) == Accumulated(f2, nested)
    decreases |nested|
  {
    if nested != [] {
      var front := nested[..|nested| - 1];
      assert forall q :: q in front ==> q in nested;
      AccumulatedFrame(f1, f2, front);
      assert nested[|nested| - 1] in nested;
    }
  }

  /** The merged targets depend only on the group's own files. */
  lemma MergedTargetsFrame(f1: Files, f2: Files, topmost: string, nested: seq<string>)
    requires TargetsOf(f1, topmost) == TargetsOf(f2, topmost)
    requires forall q :: q in nested ==> TargetsOf(f1, q) == TargetsOf(f2, q)
    ensures MergedTargets(f1, topmost, nested) == MergedTargets(f2, topmost, nested)
  {
    AccumulatedFrame(f1, f2, nested);
  }

  /** A consolidation appends one write of the topmost configuration and one
      removal request of the nested list to the log, and no submission. */
  lemma ConsolidatedLog(w: World, topmost: string, nested: seq<string>)
    requires Consolidated(w, topmost, nested).Some?
    ensures var w' := Consolidated(w, topmost, nested).value;
      && w'.log == w.log + [Wrote(topmost, MergedTargets(w.files, topmost, nested)), Removed(nested)]
      && Writes(w'.log) == Writes(w.log) + [topmost]
      && Removals(w'.log) == Removals(w.log) + [nested]
      && Submits(w'.log) == Submits(w.log)
  {
    var written := w.log + [Wrote(topmost, MergedTargets(w.files, topmost, nested))];
    var removed := written + [Removed(nested)];
    assert removed[..|removed| - 1] == written && written[..|written| - 1] == w.log;
    assert removed == w.log + [Wrote(topmost, MergedTargets(w.files, topmost, nested)), Removed(nested)];
  }

  /** `consolidate` aborts exactly when a configuration does not load. Otherwise
      it writes the merged targets into the topmost configuration only, deletes
      the nested files, and leaves every other file alone. */
  lemma ConsolidatedEffect(w: World, topmost: string, nested: seq<string>)
    ensures Consolidated(w, topmost, nested).Some? <==> topmost in w.files && AllPresent(w.files, nested)
    ensures Consolidated(w, topmost, nested).Some? ==>
      var w' := Consolidated(w, topmost, nested).value;
      && (forall q :: q in nested ==> q !in w'.files)
      && (topmost !in nested ==> topmost in w'.files && w'.files[topmost] == Some(MergedTargets(w.files, topmost, nested)))
      && (forall p :: p in w.files && p != topmost && p !in nested ==> p in w'.files && w'.files[p] == w.files[p])
      && (forall p :: p in w'.files ==> p in w.files)
  {
  }

  // ---------------------------------------------------------------------------
  // The loop of run

  /** The loop writes the topmost of every non-trivial group and removes its
      list, in mapping order, and never submits. */
  lemma {:induction false} ConsolidateGroupsKeepsLog(w: World, groups: Mapping)
    ensures w.log <= ConsolidateGroups(w, groups).0.log
    ensures Submits(ConsolidateGroups(w, groups).0.log) == Submits(w.log)
    decreases |groups|
  {
    if groups != [] {
      var g := groups[0];
      if g.nested == [] {
        ConsolidateGroupsKeepsLog(w, groups[1..]);
      } else if Consolidated(w, g.topmost, g.nested).Some? {
        var w' := Consolidated(w, g.topmost, g.nested).value;
        ConsolidatedLog(w, g.topmost, g.nested);
        ConsolidateGroupsKeepsLog(w', groups[1..]);
      }
    }
  }

  lemma {:induction false} ConsolidateGroupsWrites(w: World, groups: Mapping)
    requires ConsolidateGroups(w, groups).1
    ensures Writes(ConsolidateGroups(w, groups).0.log) == Writes(w.log) + Topmosts(NonTrivial(groups))
    decreases |groups|
  {
    if groups != [] {
      var g := groups[0];
      var rest := NonTrivial(groups[1..]);
      if g.nested == [] {
        assert NonTrivial(groups) == rest;
        ConsolidateGroupsWrites(w, groups[1..]);
      } else {
        var w' := Consolidated(w, g.topmost, g.nested).value;
        ConsolidatedLog(w, g.topmost, g.nested);
        ConsolidateGroupsWrites(w', groups[1..]);
        assert NonTrivial(groups) == [g] + rest;
        assert Topmosts([g] + rest) == [g.topmost] + Topmosts(rest) by {
          assert ([g] + rest)[1..] == rest;
        }
      }
    }
  }

  lemma {:induction false} ConsolidateGroupsRemovals(w: World, groups: Mapping)
    requires ConsolidateGroups(w, groups).1
    ensures Removals(ConsolidateGroups(w, groups).0.log) == Removals(w.log) + NestedLists(NonTrivial(groups))
    decreases |groups|
  {
    if groups != [] {
      var g := groups[0];
      var rest := NonTrivial(groups[1..]);
      if g.nested == [] {
        assert NonTrivial(groups) == rest;
        ConsolidateGroupsRemovals(w, groups[1..]);
      } else {
        var w' := Consolidated(w, g.topmost, g.nested).value;
        ConsolidatedLog(w, g.topmost, g.nested);
        ConsolidateGroupsRemovals(w', groups[1..]);
        assert NonTrivial(groups) == [g] + rest;
        assert NestedLists([g] + rest) == [g.nested] + NestedLists(rest) by {
          assert ([g] + rest)[1..] == rest;
        }
      }
    }
  }

  /** `after` extends `before` by one write of each group's topmost
      configuration followed at once by the removal request of its list, group
      after group. */
  predicate GroupByGroup(before: seq<Event>, after: seq<Event>, groups: Mapping)
  {
    && |after| == |before| + 2 * |groups|
    && after[..|before|] == before
    && forall i :: 0 <= i < |groups| ==>
         && after[|before| + 2 * i].Wrote?
         && after[|before| + 2 * i].path == groups[i].topmost
         && after[|before| + 2 * i + 1] == Removed(groups[i].nested)
  }

  /** One group's write and removal in front of the later groups' events. */
  lemma GroupByGroupCons(before: seq<Event>, targets: seq<string>, after: seq<Event>, h: Group, rest: Mapping)
    requires GroupByGroup(before + [Wrote(h.topmost, targets), Removed(h.nested)], after, rest)
    ensures GroupByGroup(before, after, [h] + rest)
  {
    var mid := before + [Wrote(h.topmost, targets), Removed(h.nested)];
    var groups := [h] + rest;
    assert after[..|before|] == mid[..|before|] == before;
    forall i | 0 <= i < |groups|
      ensures && after[|before| + 2 * i].Wrote?
              && after[|before| + 2 * i].path == groups[i].topmost
              && after[|before| + 2 * i + 1] == Removed(groups[i].nested)
    {
      if i == 0 {
        assert after[|before|] == mid[|before|];
        assert after[|before| + 1] == mid[|before| + 1];
      } else {
        assert groups[i] == rest[i - 1];
        assert |before| + 2 * i == |mid| + 2 * (i - 1);
      }
    }
  }

  /** When no consolidation fails, the loop logs each non-trivial group's write
      and then its removal request before the next group starts, in mapping
      order. */
  lemma {:induction false} ConsolidateGroupsInOrder(w: World, groups: Mapping)
    requires ConsolidateGroups(w, groups).1
    ensures GroupByGroup(w.log, ConsolidateGroups(w, groups).0.log, NonTrivial(groups))
    decreases |groups|
  {
    if groups == [] {
      assert w.log[..|w.log|] == w.log;
    } else {
      var g := groups[0];
      var rest := NonTrivial(groups[1..]);
      if g.nested == [] {
        assert NonTrivial(groups) == rest;
        ConsolidateGroupsInOrder(w, groups[1..]);
      } else {
        var w' := Consolidated(w, g.topmost, g.nested).value;
        ConsolidatedLog(w, g.topmost, g.nested);
        ConsolidateGroupsInOrder(w', groups[1..]);
        assert NonTrivial(groups) == [g] + rest;
        GroupByGroupCons(w.log, MergedTargets(w.files, g.topmost, g.nested), ConsolidateGroups(w, groups).0.log, g, rest);
      }
    }
  }

  /** A file that is neither the topmost nor in the list of a non-trivial group
      comes out of the loop as it went in. */
  lemma {:induction false} ConsolidateGroupsLeavesOthers(w: World, groups: Mapping, p: string)
    requires p in w.files && p !in Flat(NonTrivial(groups))
    ensures p in ConsolidateGroups(w, groups).0.files
    ensures ConsolidateGroups(w, groups).0.files[p] == w.files[p]
    decreases |groups|
  {
    if groups != [] {
      var g := groups[0];
      if g.nested == [] {
        assert NonTrivial(groups) == NonTrivial(groups[1..]);
        ConsolidateGroupsLeavesOthers(w, groups[1..], p);
      } else {
        var rest := NonTrivial(groups[1..]);
        assert NonTrivial(groups) == [g] + rest;
        assert ([g] + rest)[1..] == rest;
        assert Flat(NonTrivial(groups)) == [g.topmost] + g.nested + Flat(rest);
        ConsolidatedEffect(w, g.topmost, g.nested);
        match Consolidated(w, g.topmost, g.nested)
        case None =>
        case Some(w') =>
          ConsolidateGroupsLeavesOthers(w', groups[1..], p);
      }
    }
  }

  /** The loop never creates a file. */
  lemma {:induction false} ConsolidateGroupsNoNewFiles(w: World, groups: Mapping)
    ensures forall p :: p in ConsolidateGroups(w, groups).0.files ==> p in w.files
    decreases |groups|
  {
    if groups != [] {
      var g := groups[0];
      if g.nested == [] {
        ConsolidateGroupsNoNewFiles(w, groups[1..]);
      } else if Consolidated(w, g.topmost, g.nested).Some? {
        ConsolidatedEffect(w, g.topmost, g.nested);
        ConsolidateGroupsNoNewFiles(Consolidated(w, g.topmost, g.nested).value, groups[1..]);
      }
    }
  }

  /** A non-trivial head group's paths are distinct and disjoint from the later
      non-trivial groups' paths when all of them are distinct. */
  lemma DistinctHead(groups: Mapping)
    requires groups != [] && groups[0].nested != []
    requires Distinct(Flat(NonTrivial(groups)))
    ensures groups[0].topmost !in groups[0].nested
    ensures Distinct(Flat(NonTrivial(groups[1..])))
    ensures forall p :: p in Flat(NonTrivial(groups[1..])) ==> p != groups[0].topmost && p !in groups[0].nested
  {
    var h, rest := groups[0], NonTrivial(groups[1..]);
    assert NonTrivial(groups) == [h] + rest;
    assert ([h] + rest)[1..] == rest;
    var front := [h.topmost] + h.nested;
    assert Flat(NonTrivial(groups)) == front + Flat(rest);
    DistinctConcat(front, Flat(rest));
    DistinctConcat([h.topmost], h.nested);
  }

  /** A later group's merge is computed the same before and after an earlier,
      disjoint group was consolidated. */
  lemma MergeAfterEarlier(w: World, w1: World, h: Group, later: Mapping, g: Group)
    requires Consolidated(w, h.topmost, h.nested) == Some(w1)
    requires g in NonTrivial(later)
    requires forall p :: p in Flat(NonTrivial(later)) ==> p != h.topmost && p !in h.nested
    ensures MergedTargets(w1.files, g.topmost, g.nested) == MergedTargets(w.files, g.topmost, g.nested)
  {
    FlatMember(NonTrivial(later), g);
    forall p | p == g.topmost || p in g.nested
      ensures TargetsOf(w1.files, p) == TargetsOf(w.files, p)
    {
      assert p in Flat(NonTrivial(later));
      ConsolidatedKeeps(w, h.topmost, h.nested, p);
    }
    MergedTargetsFrame(w1.files, w.files, g.topmost, g.nested);
  }

  /** A consolidation leaves the targets of every other path as they were. */
  lemma ConsolidatedKeeps(w: World, topmost: string, nested: seq<string>, p: string)
    requires Consolidated(w, topmost, nested).Some?
    requires p != topmost && p !in nested
    ensures TargetsOf(Consolidated(w, topmost, nested).value.files, p) == TargetsOf(w.files, p)
  {
    assert p !in PathSet(nested);
  }

  /** When no consolidation fails and the groups share no path, every consolidated
      topmost configuration ends up holding the merge of the targets its group had
      before the loop, and every file of its list is gone: a group never sees the
      changes another group made. */
  lemma {:induction false} ConsolidateGroupsMerges(w: World, groups: Mapping, g: Group)
    requires ConsolidateGroups(w, groups).1
    requires Distinct(Flat(NonTrivial(groups)))
    requires g in NonTrivial(groups)
    ensures g.topmost in ConsolidateGroups(w, groups).0.files
    ensures ConsolidateGroups(w, groups).0.files[g.topmost] == Some(MergedTargets(w.files, g.topmost, g.nested))
    ensures forall q :: q in g.nested ==> q !in ConsolidateGroups(w, groups).0.files
    decreases |groups|
  {
    var h := groups[0];
    if h.nested == [] {
      assert NonTrivial(groups) == NonTrivial(groups[1..]);
      ConsolidateGroupsMerges(w, groups[1..], g);
    } else {
      DistinctHead(groups);
      ConsolidatedEffect(w, h.topmost, h.nested);
      var w1 := Consolidated(w, h.topmost, h.nested).value;
      assert ConsolidateGroups(w, groups) == ConsolidateGroups(w1, groups[1..]);
      if g == h {
        ConsolidateGroupsLeavesOthers(w1, groups[1..], h.topmost);
        ConsolidateGroupsNoNewFiles(w1, groups[1..]);
      } else {
        assert NonTrivial(groups) == [h] + NonTrivial(groups[1..]);
        ConsolidateGroupsMerges(w1, groups[1..], g);
        MergeAfterEarlier(w, w1, h, groups[1..], g);
      }
    }
  }

  /** What the non-trivial groups hold is part of what all groups hold. */
  lemma {:induction false} NonTrivialFlat(groups: Mapping)
    ensures multiset(Flat(NonTrivial(groups))) <= multiset(Flat(groups))
    decreases |groups|
  {
    if groups != [] {
      NonTrivialFlat(groups[1..]);
      var rest := NonTrivial(groups[1..]);
      if groups[0].nested != [] {
        assert ([groups[0]] + rest)[1..] == rest;
      } else {
        assert NonTrivial(groups) == rest;
      }
    }
  }

  /** Besides what the non-trivial groups hold, all groups also hold the key of
      every group with an empty list. */
  lemma {:induction false} NonTrivialFlatSkips(groups: Mapping, i: nat)
    requires i < |groups| && groups[i].nested == []
    ensures multiset(Flat(NonTrivial(groups))) + multiset{groups[i].topmost} <= multiset(Flat(groups))
    decreases i
  {
    var rest := NonTrivial(groups[1..]);
    if i == 0 {
      NonTrivialFlat(groups[1..]);
      assert NonTrivial(groups) == rest;
    } else {
      NonTrivialFlatSkips(groups[1..], i - 1);
      if groups[0].nested != [] {
        assert ([groups[0]] + rest)[1..] == rest;
      } else {
        assert NonTrivial(groups) == rest;
      }
    }
  }

  // ---------------------------------------------------------------------------
  // run

  /** With no configuration, or only one, `run` returns before grouping and
      changes nothing. */
  lemma RunSkipsFewerThanTwo(w: World, found: seq<string>, noCommit: bool, submit: bool)
    requires |found| < 2
    ensures RunEffect(w, found, noCommit, submit) == (w, true)
  {
    assert |multiset(SortPaths(found))| == |multiset(found)|;
  }

  /** After grouping, the changes are submitted once, as the last action, when
      every consolidation succeeded, and not at all when one aborted. */
  lemma ConsolidateAndSubmitOnce(w: World, groups: Mapping, noCommit: bool, submit: bool)
    ensures var (w', ok) := ConsolidateAndSubmit(w, groups, noCommit, submit);
      && w.log <= w'.log
      && Submits(w'.log) == Submits(w.log) + (if ok then 1 else 0)
      && (ok ==> w'.log[|w'.log| - 1] == Submitted(!noCommit, submit))
      && (ok ==> Writes(w'.log) == Writes(w.log) + Topmosts(NonTrivial(groups)))
      && (ok ==> Removals(w'.log) == Removals(w.log) + NestedLists(NonTrivial(groups)))
      && (ok ==> GroupByGroup(w.log, w'.log[..|w'.log| - 1], NonTrivial(groups)))
  {
    ConsolidateGroupsKeepsLog(w, groups);
    if ConsolidateGroups(w, groups).1 {
      ConsolidateGroupsWrites(w, groups);
      ConsolidateGroupsRemovals(w, groups);
      ConsolidateGroupsInOrder(w, groups);
    }
    var w1 := ConsolidateGroups(w, groups).0;
    var submitted := w1.log + [Submitted(!noCommit, submit)];
    assert submitted[..|submitted| - 1] == w1.log;
  }

  /** With two configurations or more, `run` submits once, as its last action,
      when every consolidation succeeded, and not at all when one aborted; when
      it succeeds it has written exactly the topmost configurations of the
      groups with a non-empty list and removed exactly their lists, in mapping
      order, each group's removal request right after its write. */
  lemma RunSubmitsOnce(w: World, found: seq<string>, noCommit: bool, submit: bool)
    requires |found| >= 2
    ensures var (w', ok) := RunEffect(w, found, noCommit, submit);
      var groups := NonTrivial(Gather(SortPaths(found)));
      && w.log <= w'.log
      && Submits(w'.log) == Submits(w.log) + (if ok then 1 else 0)
      && (ok ==> w'.log[|w'.log| - 1] == Submitted(!noCommit, submit))
      && (ok ==> Writes(w'.log) == Writes(w.log) + Topmosts(groups))
      && (ok ==> Removals(w'.log) == Removals(w.log) + NestedLists(groups))
      && (ok ==> GroupByGroup(w.log, w'.log[..|w'.log| - 1], groups))
  {
    var configurations := SortPaths(found);
    assert |multiset(configurations)| == |multiset(found)|;
    ConsolidateAndSubmitOnce(w, Gather(configurations), noCommit, submit);
  }

  /** A file outside the non-trivial groups is left as it was, by the
      consolidations and by the submission. */
  lemma ConsolidateAndSubmitLeavesOthers(w: World, groups: Mapping, noCommit: bool, submit: bool, p: string)
    requires p in w.files && p !in Flat(NonTrivial(groups))
    ensures p in ConsolidateAndSubmit(w, groups, noCommit, submit).0.files
    ensures ConsolidateAndSubmit(w, groups, noCommit, submit).0.files[p] == w.files[p]
  {
    ConsolidateGroupsLeavesOthers(w, groups, p);
  }

  /** For distinct paths, grouping leaves out of the non-trivial groups every
      path that was not found and every key whose list is empty. */
  lemma OutsideNonTrivial(configurations: seq<string>, p: string)
    requires Distinct(configurations)
    requires p !in configurations || exists g :: g in Gather(configurations) && g.topmost == p && g.nested == []
    ensures p !in Flat(NonTrivial(Gather(configurations)))
  {
    var groups := Gather(configurations);
    GatherPartition(configurations);
    NonTrivialFlat(groups);
    if p !in configurations {
      assert p !in multiset(Flat(NonTrivial(groups)));
    } else {
      var g :| g in groups && g.topmost == p && g.nested == [];
      var i :| 0 <= i < |groups| && groups[i] == g;
      NonTrivialFlatSkips(groups, i);
      DistinctIffSingleCounts(configurations);
      assert multiset(Flat(NonTrivial(groups)))[p] == 0;
    }
  }

  /** For distinct paths, `run` leaves untouched the file of a configuration
      that ends up alone in its group, and every file that was not found. */
  lemma RunLeavesOthersUntouched(w: World, found: seq<string>, noCommit: bool, submit: bool, p: string)
    requires Distinct(found)
    requires p in w.files
    requires p !in found || exists g :: g in Gather(SortPaths(found)) && g.topmost == p && g.nested == []
    ensures p in RunEffect(w, found, noCommit, submit).0.files
    ensures RunEffect(w, found, noCommit, submit).0.files[p] == w.files[p]
  {
    var configurations := SortPaths(found);
    assert |multiset(configurations)| == |multiset(found)|;
    if |configurations| >= 2 {
      SortPathsDistinct(found);
      assert p in configurations <==> p in multiset(found);
      OutsideNonTrivial(configurations, p);
      ConsolidateAndSubmitLeavesOthers(w, Gather(configurations), noCommit, submit, p);
    }
  }

  /** For distinct paths, the non-trivial groups never share a path. */
  lemma NonTrivialGatherDistinct(configurations: seq<string>)
    requires Distinct(configurations)
    ensures Distinct(Flat(NonTrivial(Gather(configurations))))
  {
    var groups := Gather(configurations);
    GatherPartition(configurations);
    NonTrivialFlat(groups);
    DistinctIffSingleCounts(configurations);
    var flat := Flat(NonTrivial(groups));
    forall x ensures multiset(flat)[x] <= 1 {
      assert multiset(flat)[x] <= multiset(configurations)[x];
    }
    DistinctIffSingleCounts(flat);
  }

  /** For distinct paths, a successful `run` leaves every consolidated topmost
      configuration holding the merge of the targets its group declared when
      the command started, and removes every configuration nested under it. */
  lemma RunMerges(w: World, found: seq<string>, noCommit: bool, submit: bool, g: Group)
    requires Distinct(found) && |found| >= 2
    requires RunEffect(w, found, noCommit, submit).1
    requires g in NonTrivial(Gather(SortPaths(found)))
    ensures g.topmost in RunEffect(w, found, noCommit, submit).0.files
    ensures RunEffect(w, found, noCommit, submit).0.files[g.topmost] == Some(MergedTargets(w.files, g.topmost, g.nested))
    ensures forall q :: q in g.nested ==> q !in RunEffect(w, found, noCommit, submit).0.files
  {
    var configurations := SortPaths(found);
    assert |multiset(configurations)| == |multiset(found)|;
    SortPathsDistinct(found);
    NonTrivialGatherDistinct(configurations);
    ConsolidateGroupsMerges(w, Gather(configurations), g);
  }

  // ---------------------------------------------------------------------------
  // The imperative model

  /** The working tree and the version-control collaborator: configuration files
      that load, and the log of what was written, removed and submitted. */
  class Repository {
    var files: Files
    var log: seq<Event>

    constructor (files: Files)
      ensures this.files == files && log == []
    {
      this.files := files;
      log := [];
    }

    function View(): World
      reads this
    {
      World(files, log)
    }

    /** `Configuration.write` of the configuration at `path`. */
    method WriteConfiguration(path: string, targets: seq<string>)
      modifies this
      ensures files == old(files)[path := Some(targets)]
      ensures log == old(log) + [Wrote(path, targets)]
    {
      files := files[path := Some(targets)];
      log := log + [Wrote(path, targets)];
    }

    /** `remove_paths`: one request for the whole list. */
    method RemovePaths(paths: seq<string>)
      modifies this
      ensures files == old(files) - PathSet(paths)
      ensures log == old(log) + [Removed(paths)]
    {
      files := files - PathSet(paths);
      log := log + [Removed(paths)];
    }

    /** `submit_changes`. */
    method SubmitChanges(commit: bool, submit: bool)
      modifies this
      ensures files == old(files)
      ensures log == old(log) + [Submitted(commit, submit)]
    {
      log := log + [Submitted(commit, submit)];
    }
  }

  /** The consolidation command with its `--no-commit` and `--submit` flags. */
  class ConsolidateNestedConfigurations {
    const repository: Repository
    const noCommit: bool
    const submit: bool

    constructor (repository: Repository, noCommit: bool, submit: bool)
      ensures this.repository == repository && this.noCommit == noCommit && this.submit == submit
    {
      this.repository := repository;
      this.noCommit := noCommit;
      this.submit := submit;
    }

    /** `consolidate`: false when a configuration did not load, in which case
        nothing was changed. */
    method Consolidate(topmost: string, nested: seq<string>) returns (ok: bool)
      modifies repository
      ensures ok == Consolidated(old(repository.View()), topmost, nested).Some?
      ensures ok ==> repository.View() == Consolidated(old(repository.View()), topmost, nested).value
      ensures !ok ==> repository.View() == old(repository.View())
    {
      var totalTargets: seq<string> := [];
      for k := 0 to |nested|
        invariant totalTargets == Accumulated(repository.files, nested[..k])
        invariant AllPresent(repository.files, nested[..k])
      {
        assert nested[..k + 1][..k] == nested[..k];
        var nestedConfiguration := nested[k];
        if nestedConfiguration !in repository.files {
          return false;
        }
        var targets := repository.files[nestedConfiguration];
        if targets.Some? && targets.value != [] {
          totalTargets := totalTargets + targets.value;
        }
      }
      assert nested[..|nested|] == nested;
      if topmost !in repository.files {
        return false;
      }
      var merged := Dedupe(TargetsOf(repository.files, topmost) + totalTargets);
      repository.WriteConfiguration(topmost, merged);
      repository.RemovePaths(nested);
      ok := true;
    }

    /** `run`, given what `find_files` found under the root; false when a
        consolidation aborted the command. */
    method Run(found: seq<string>) returns (ok: bool)
      modifies repository
      ensures (repository.View(), ok) == RunEffect(old(repository.View()), found, noCommit, submit)
    {
      var configurations := SortPaths(found);
      if |configurations| == 0 {
        return true;
      }
      if |configurations| == 1 {
        return true;
      }
      var nestedConfigurations := GatherNestedConfigurationMapping(configurations);
      ghost var start := repository.View();
      for k := 0 to |nestedConfigurations|
        invariant ConsolidateGroups(start, nestedConfigurations)
               == ConsolidateGroups(repository.View(), nestedConfigurations[k..])
      {
        var group := nestedConfigurations[k];
        assert nestedConfigurations[k..][0] == group;
        assert nestedConfigurations[k..][1..] == nestedConfigurations[k + 1..];
        if |group.nested| == 0 {
          continue;
        }
        var done := Consolidate(group.topmost, group.nested);
        if !done {
          return false;
        }
      }
      repository.SubmitChanges(!noCommit, submit);
      ok := true;
    }
  }
}
