/**
 * The `reduce` of lines 99-105: the sorted conversions are partitioned by
 * folder into an object keyed by folder, each group keeping the order the
 * records had in the sorted list.
 */
module Grouping {
  import opened Processing
  import opened Ordering

  /** The records of `s` whose folder is `f`, in their order in `s`. */
  function InFolder(s: seq<ConversionResult>, f: string): (g: seq<ConversionResult>)
    ensures |g| <= |s|
    ensures forall r :: r in g ==> r in s && r.folder == f
  {
    if s == [] then []
    else
      var g := InFolder(s[..|s| - 1], f);
      var last := s[|s| - 1];
      assert forall r :: r in s[..|s| - 1] ==> r in s;
      g + (if last.folder == f then [last] else [])
  }

  /** The folders that occur in `s`. */
  function FoldersOf(s: seq<ConversionResult>): set<string>
  {
    set r | r in s :: r.folder
  }

  /** The object of groups: each folder of `s` keyed to its records. */
  function GroupsOf(s: seq<ConversionResult>): map<string, seq<ConversionResult>>
  {
    map f | f in FoldersOf(s) :: InFolder(s, f)
  }

  /**
   * The properties every plain object inherits from `Object.prototype`. In
   * the object `{}` the `reduce` starts from, `groups[f]` for one of these
   * names is the inherited member, not `undefined`.
   */
  predicate IsInheritedKey(f: string)
  {
    f in {"constructor", "hasOwnProperty", "isPrototypeOf", "propertyIsEnumerable",
          "toLocaleString", "toString", "valueOf", "__proto__",
          "__defineGetter__", "__defineSetter__", "__lookupGetter__", "__lookupSetter__"}
  }

  /** What `groups[f]` finds: an own group, an inherited member, or nothing. */
  datatype Property = OwnGroup(group: seq<ConversionResult>) | InheritedMember | Undefined

  /** Property lookup on the object of groups, own properties first. */
  function Lookup(groups: map<string, seq<ConversionResult>>, f: string): (p: Property)
    ensures p.OwnGroup? <==> f in groups
    ensures p.OwnGroup? ==> p.group == groups[f]
    ensures p.Undefined? <==> f !in groups && !IsInheritedKey(f)
  {
    if f in groups then OwnGroup(groups[f])
    else if IsInheritedKey(f) then InheritedMember
    else Undefined
  }

  /** The outcome of the `reduce`: the groups, or the `TypeError` of `push` on an inherited member. */
  datatype GroupOutcome = Grouped(groups: map<string, seq<ConversionResult>>) | PushThrows(folder: string)

  /** Whether some record of `s` has a folder named like an inherited member. */
  predicate HasInheritedFolder(s: seq<ConversionResult>)
  {
    exists f :: f in FoldersOf(s) && IsInheritedKey(f)
  }

  /** A folder named like an inherited member occurs exactly when some record has one. */
  lemma HasInheritedFolderIff(s: seq<ConversionResult>)
    ensures HasInheritedFolder(s) <==> exists r :: r in s && IsInheritedKey(r.folder)
  {
    if HasInheritedFolder(s) {
      var f :| f in FoldersOf(s) && IsInheritedKey(f);
      var r :| r in s && r.folder == f;
    }
  }

  /**
   * Builds the object of groups: for each record in turn, creates its
   * folder's group when the lookup finds nothing, then pushes the record
   * onto what the lookup finds. When that is an inherited member, it has no
   * `push` and the `reduce` throws.
   */
  method GroupByFolder(sorted: seq<ConversionResult>) returns (outcome: GroupOutcome)
    ensures outcome.Grouped? <==> !HasInheritedFolder(sorted)
    ensures outcome.Grouped? ==> outcome.groups.Keys == FoldersOf(sorted)
    ensures outcome.Grouped? ==> forall f :: f in outcome.groups ==> outcome.groups[f] == InFolder(sorted, f)
    ensures outcome.PushThrows? ==> outcome.folder in FoldersOf(sorted) && IsInheritedKey(outcome.folder)
  {
    var groups := map[];
    for i := 0 to |sorted|
      invariant groups.Keys == FoldersOf(sorted[..i])
      invariant forall f :: f in groups ==> !IsInheritedKey(f)
      invariant forall f :: f in groups ==> groups[f] == InFolder(sorted[..i], f)
    {
      var item := sorted[i];
      var found := Lookup(groups, item.folder);
      if found.InheritedMember? {
        // truthy, so no group is created, and it has no `push`
        assert sorted[i] in sorted;
        return PushThrows(item.folder);
      }
      assert sorted[..i + 1][..i] == sorted[..i];
      GroupStep(sorted[..i + 1], groups);
      if found.Undefined? {
        groups := groups[item.folder := []];
      }
      groups := groups[item.folder := groups[item.folder] + [item]];
    }
    assert sorted[..|sorted|] == sorted;
    return Grouped(groups);
  }

  /**
   * One turn of the `reduce` that does not throw: creating the group when
   * the folder has none and pushing the last record onto it gives the groups
   * of the whole list.
   */
  lemma GroupStep(s: seq<ConversionResult>, groups: map<string, seq<ConversionResult>>)
    requires s != []
    requires groups.Keys == FoldersOf(s[..|s| - 1])
    requires forall f :: f in groups ==> groups[f] == InFolder(s[..|s| - 1], f)
    ensures var item := s[|s| - 1];
            var start := if item.folder in groups then groups else groups[item.folder := []];
            var next := start[item.folder := start[item.folder] + [item]];
            next.Keys == FoldersOf(s) &&
            forall f :: f in next ==> next[f] == InFolder(s, f)
  {
    PushKeys(s, groups);
    PushValues(s, groups);
  }

  lemma PushKeys(s: seq<ConversionResult>, groups: map<string, seq<ConversionResult>>)
    requires s != []
    requires groups.Keys == FoldersOf(s[..|s| - 1])
    ensures var item := s[|s| - 1];
            var start := if item.folder in groups then groups else groups[item.folder := []];
            start[item.folder := start[item.folder] + [item]].Keys == FoldersOf(s)
  {
    FoldersOfLast(s);
  }

  lemma PushValues(s: seq<ConversionResult>, groups: map<string, seq<ConversionResult>>)
    requires s != []
    requires groups.Keys == FoldersOf(s[..|s| - 1])
    requires forall f :: f in groups ==> groups[f] == InFolder(s[..|s| - 1], f)
    ensures var item := s[|s| - 1];
            var start := if item.folder in groups then groups else groups[item.folder := []];
            var next := start[item.folder := start[item.folder] + [item]];
            forall f :: f in next ==> next[f] == InFolder(s, f)
  {
    var item := s[|s| - 1];
    if item.folder in groups {
      AppendToGroup(s, groups);
    } else {
      InFolderMissing(s[..|s| - 1], item.folder);
      AppendToGroup(s, groups[item.folder := []]);
    }
  }

  /**
   * One step of the grouping: once the last record's folder has a group,
   * appending the record to it gives the groups of the whole list.
   */
  lemma AppendToGroup(s: seq<ConversionResult>, groups: map<string, seq<ConversionResult>>)
    requires s != [] && s[|s| - 1].folder in groups
    requires forall f :: f in groups ==> groups[f] == InFolder(s[..|s| - 1], f)
    ensures var item := s[|s| - 1];
            var next := groups[item.folder := groups[item.folder] + [item]];
            forall f :: f in next ==> next[f] == InFolder(s, f)
  {
  }

  /** The folders of a list are those before its last record, and that record's. */
  lemma FoldersOfLast(s: seq<ConversionResult>)
    requires s != []
    ensures FoldersOf(s) == FoldersOf(s[..|s| - 1]) + {s[|s| - 1].folder}
  {
    assert s == s[..|s| - 1] + [s[|s| - 1]];
  }

  /** A folder that does not occur has an empty group. */
  lemma {:induction false} InFolderMissing(s: seq<ConversionResult>, f: string)
    requires f !in FoldersOf(s)
    ensures InFolder(s, f) == []
    decreases |s|
  {
    if s != [] {
      assert s[|s| - 1] in s;
      assert FoldersOf(s[..|s| - 1]) <= FoldersOf(s) by {
        forall r | r in s[..|s| - 1] ensures r in s { }
      }
      InFolderMissing(s[..|s| - 1], f);
    }
  }

  /**
   * Partition: a record occurs in the group of its own folder exactly as
   * often as it occurs in the whole list (and, by the contract of
   * `InFolder`, in no other group).
   */
  lemma {:induction false} InFolderCounts(s: seq<ConversionResult>, r: ConversionResult)
    ensures multiset(InFolder(s, r.folder))[r] == multiset(s)[r]
    decreases |s|
  {
    if s != [] {
      var init, last := s[..|s| - 1], s[|s| - 1];
      InFolderCounts(init, r);
      assert s == init + [last];
    }
  }

  /** A group taken from a sorted list is sorted by file name. */
  lemma {:induction false} InFolderSorted(s: seq<ConversionResult>, f: string)
    requires Sorted(s)
    ensures Sorted(InFolder(s, f))
    ensures var g := InFolder(s, f);
            forall i, j :: 0 <= i < j < |g| ==> CompareStrings(g[i].fileName, g[j].fileName) <= 0
    decreases |s|
  {
    var g := InFolder(s, f);
    if s != [] {
      var init, last := s[..|s| - 1], s[|s| - 1];
      assert Sorted(init);
      InFolderSorted(init, f);
      if last.folder == f {
        forall z | z in InFolder(init, f) ensures CompareResults(z, last) <= 0 {
          var i :| 0 <= i < |init| && init[i] == z;
          assert s[i] == z;
        }
        SortedAppend(InFolder(init, f), last);
      }
    }
    forall i, j | 0 <= i < j < |g| ensures CompareStrings(g[i].fileName, g[j].fileName) <= 0 {
      assert g[i] in g && g[j] in g;
    }
  }

  /** The folders of `s` in order of first occurrence, each once. */
  function DistinctFolders(s: seq<ConversionResult>): (fs: seq<string>)
    ensures forall f :: f in fs <==> f in FoldersOf(s)
    ensures forall i, j :: 0 <= i < j < |fs| ==> fs[i] != fs[j]
  {
    if s == [] then []
    else
      var init, last := s[..|s| - 1], s[|s| - 1];
      var d := DistinctFolders(init);
      assert FoldersOf(s) == FoldersOf(init) + {last.folder} by {
        assert s == init + [last];
      }
      if last.folder in d then d else d + [last.folder]
  }

  /** Total size of the groups of the folders listed in `fs`. */
  function GroupSizes(s: seq<ConversionResult>, fs: seq<string>): nat
  {
    if fs == [] then 0
    else GroupSizes(s, fs[..|fs| - 1]) + |InFolder(s, fs[|fs| - 1])|
  }

  /** The last record of the list counts once in the total size when its folder is listed. */
  lemma {:induction false} GroupSizesAppend(s: seq<ConversionResult>, fs: seq<string>)
    requires s != []
    requires forall i, j :: 0 <= i < j < |fs| ==> fs[i] != fs[j]
    ensures GroupSizes(s, fs) == GroupSizes(s[..|s| - 1], fs) + (if s[|s| - 1].folder in fs then 1 else 0)
    decreases |fs|
  {
    if fs != [] {
      var init := fs[..|fs| - 1];
      GroupSizesAppend(s, init);
      assert s[|s| - 1].folder in fs <==> s[|s| - 1].folder in init || s[|s| - 1].folder == fs[|fs| - 1];
      if s[|s| - 1].folder in init {
        var i :| 0 <= i < |init| && init[i] == s[|s| - 1].folder;
        assert fs[i] == s[|s| - 1].folder;
      }
    }
  }

  /** The group sizes add up to the number of records. */
  lemma {:induction false} GroupSizesSum(s: seq<ConversionResult>)
    ensures GroupSizes(s, DistinctFolders(s)) == |s|
    decreases |s|
  {
    if s != [] {
      GroupSizesSum(s[..|s| - 1]);
      GroupSizesStep(s);
    }
  }

  /** The last record adds one to the total size of the groups of the distinct folders. */
  lemma GroupSizesStep(s: seq<ConversionResult>)
    requires s != []
    ensures GroupSizes(s, DistinctFolders(s)) == GroupSizes(s[..|s| - 1], DistinctFolders(s[..|s| - 1])) + 1
  {
    var init, last := s[..|s| - 1], s[|s| - 1];
    var d := DistinctFolders(init);
    GroupSizesAppend(s, d);
    if last.folder !in d {
      var fs := d + [last.folder];
      assert fs[..|fs| - 1] == d;
      InFolderMissing(init, last.folder);
    }
  }
}
