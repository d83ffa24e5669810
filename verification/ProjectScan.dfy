/**
 From the flat list of a directory walk to the nested, sorted project tree: group by first path
 component, recurse, then sort every level.
 */
module ProjectScan {
  import opened ProjectTree
  import opened TreePaths

  /** A relative path and whether it is a directory. */
  type Item = (Names, bool)

  // ---------- the order of names ----------

  predicate NameLe(a: string, b: string) {
    a == [] || (b != [] && (a[0] < b[0] || (a[0] == b[0] && NameLe(a[1..], b[1..]))))
  }

  lemma {:induction false} NameLeTotal(a: string, b: string)
    ensures NameLe(a, b) || NameLe(b, a)
    ensures NameLe(a, b) && NameLe(b, a) ==> a == b
  {
    if a != [] && b != [] {
      NameLeTotal(a[1..], b[1..]);
      assert a == [a[0]] + a[1..] && b == [b[0]] + b[1..];
    }
  }

  lemma {:induction false} NameLeTransitive(a: string, b: string, c: string)
    requires NameLe(a, b) && NameLe(b, c)
    ensures NameLe(a, c)
  {
    if a != [] && a[0] == b[0] == c[0] {
      NameLeTransitive(a[1..], b[1..], c[1..]);
    }
  }

  method LeastName(names: set<string>) returns (least: string)
    requires names != {}
    ensures least in names && forall n | n in names :: NameLe(least, n)
  {
    var left := names;
    least :| least in left;
    left := left - {least};
    NameLeTotal(least, least);
    while left != {}
      invariant left <= names && least in names
      invariant forall n | n in names - left :: NameLe(least, n)
      decreases left
    {
      var n :| n in left;
      NameLeTotal(least, n);
      if !NameLe(least, n) {
        forall m | m in names - left ensures NameLe(n, m) {
          NameLeTransitive(n, least, m);
        }
        NameLeTotal(n, n);
        least := n;
      }
      left := left - {n};
    }
  }

  // ---------- grouping ----------

  ghost function Heads(flat: seq<Item>): set<string> {
    set i | 0 <= i < |flat| && flat[i].0 != [] :: flat[i].0[0]
  }

  /** What a group holds of the items below `name`, one component shorter. */
  ghost function SubsOf(flat: seq<Item>, name: string): seq<Item> {
    if flat == [] then []
    else
      var (p, d) := flat[|flat| - 1];
      var before := SubsOf(flat[..|flat| - 1], name);
      if |p| > 1 && p[0] == name then before + [(p[1..], d)] else before
  }

  /** Whether the last item that is `name` itself says directory. */
  ghost function FlagOf(flat: seq<Item>, name: string): bool {
    if flat == [] then false
    else
      var (p, d) := flat[|flat| - 1];
      if p == [name] then d else FlagOf(flat[..|flat| - 1], name)
  }

  ghost function Depth(flat: seq<Item>): nat {
    if flat == [] then 0
    else
      var before := Depth(flat[..|flat| - 1]);
      if |flat[|flat| - 1].0| > before then |flat[|flat| - 1].0| else before
  }

  lemma {:induction false} SubsShallower(flat: seq<Item>, name: string)
    ensures SubsOf(flat, name) != [] ==> Depth(SubsOf(flat, name)) < Depth(flat)
    ensures SubsOf(flat, name) == [] ==> Depth(SubsOf(flat, name)) == 0
  {
    if flat != [] {
      var n := |flat| - 1;
      SubsShallower(flat[..n], name);
      var subs := SubsOf(flat, name);
      if |flat[n].0| > 1 && flat[n].0[0] == name {
        assert subs[..|subs| - 1] == SubsOf(flat[..n], name);
      }
    }
  }

  /** The names in ascending order, as a B-tree map yields its keys. */
  ghost function Ascending(names: set<string>): (r: seq<string>)
    decreases |names|
  {
    if names == {} then []
    else
      LeastExists(names);
      var least :| least in names && forall n | n in names :: NameLe(least, n);
      [least] + Ascending(names - {least})
  }

  lemma {:induction false} LeastExists(names: set<string>)
    requires names != {}
    ensures exists least :: least in names && forall n | n in names :: NameLe(least, n)
    decreases |names|
  {
    var n :| n in names;
    NameLeTotal(n, n);
    var rest := names - {n};
    if rest == {} {
      assert names == {n};
    } else {
      LeastExists(rest);
      var m :| m in rest && forall k | k in rest :: NameLe(m, k);
      NameLeTotal(m, n);
      if NameLe(m, n) {
        assert forall k | k in names :: NameLe(m, k);
      } else {
        forall k | k in names ensures NameLe(n, k) {
          if k != n {
            NameLeTransitive(n, m, k);
          }
        }
      }
    }
  }

  lemma LeastUnique(names: set<string>, a: string, b: string)
    requires a in names && b in names
    requires (forall n | n in names :: NameLe(a, n)) && (forall n | n in names :: NameLe(b, n))
    ensures a == b
  {
    NameLeTotal(a, b);
  }

  lemma AscendingStep(names: set<string>, least: string)
    requires least in names && forall n | n in names :: NameLe(least, n)
    ensures Ascending(names) == [least] + Ascending(names - {least})
  {
    LeastExists(names);
    var l :| l in names && (forall n | n in names :: NameLe(l, n)) && Ascending(names) == [l] + Ascending(names - {l});
    LeastUnique(names, l, least);
  }

  ghost predicate AscendingNames(names: seq<string>) {
    forall i, j | 0 <= i < j < |names| :: NameLe(names[i], names[j]) && names[i] != names[j]
  }

  lemma {:induction false} AscendingIsSorted(names: set<string>)
    ensures AscendingNames(Ascending(names))
    ensures forall n :: n in Ascending(names) <==> n in names
    decreases |names|
  {
    if names != {} {
      LeastExists(names);
      var l :| l in names && (forall n | n in names :: NameLe(l, n)) && Ascending(names) == [l] + Ascending(names - {l});
      AscendingIsSorted(names - {l});
      var rest := Ascending(names - {l});
      assert forall i | 0 <= i < |rest| :: rest[i] in rest;
    }
  }

  // ---------- nesting ----------

  ghost function Built(flat: seq<Item>): (entries: seq<Entry>)
    decreases Depth(flat), 1
  {
    var names := Ascending(Heads(flat));
    seq(|names|, i requires 0 <= i < |names| => EntryFor(flat, names[i]))
  }

  /** A group that is no directory drops what is filed below it. */
  ghost function EntryFor(flat: seq<Item>, name: string): (e: Entry)
    ensures e.name == name
    decreases Depth(flat), 0
  {
    var subs := SubsOf(flat, name);
    SubsShallower(flat, name);
    Entry(name, FlagOf(flat, name), if FlagOf(flat, name) && subs != [] then Built(subs) else [], true)
  }

  method BuildNested(flat: seq<Item>) returns (out: seq<Entry>)
    ensures out == Built(flat)
    decreases Depth(flat)
  {
    hide Heads, FlagOf, SubsOf, Ascending, Depth, Entries, Built, NameLe;
    var groups := Group(flat);
    out := [];
    var left := groups.Keys;
    BuiltIsEntries(flat);
    while left != {}
      invariant left <= groups.Keys
      invariant out + Entries(flat, Ascending(left)) == Built(flat)
      decreases left
    {
      var name := LeastName(left);
      AscendingStep(left, name);
      EntriesCons(flat, name, Ascending(left - {name}));
      var (isDirFlag, subs) := groups[name];
      var kids: seq<Entry> := [];
      if isDirFlag && subs != [] {
        SubsShallower(flat, name);
        kids := BuildNested(subs);
      }
      var entry := Entry(name, isDirFlag, kids, true);
      assert entry == EntryFor(flat, name);
      out := out + [entry];
      left := left - {name};
    }
    NoEntries(flat);
  }

  lemma BuiltIsEntries(flat: seq<Item>)
    ensures Built(flat) == Entries(flat, Ascending(Heads(flat)))
  {
  }

  lemma NoEntries(flat: seq<Item>)
    ensures Entries(flat, Ascending({})) == []
  {
  }

  /** The grouping loop: per first component, the kind listed for it and the items below it. */
  method Group(flat: seq<Item>) returns (groups: map<string, (bool, seq<Item>)>)
    ensures groups.Keys == Heads(flat)
    ensures forall name | name in groups :: groups[name] == (FlagOf(flat, name), SubsOf(flat, name))
  {
    hide Heads, FlagOf, SubsOf;
    groups := map[];
    GroupNothing();
    for i := 0 to |flat|
      invariant groups.Keys == Heads(flat[..i])
      invariant forall name | name in groups :: groups[name] == (FlagOf(flat[..i], name), SubsOf(flat[..i], name))
    {
      GroupStep(flat, i);
      var (rel, isDir) := flat[i];
      if rel != [] {
        var first, rest := rel[0], rel[1..];
        assert rest == [] <==> rel == [first];
        NoGroup(flat[..i], first);
        var g := if first in groups then groups[first] else (false, []);
        groups := groups[first := if rest == [] then (isDir, g.1) else (g.0, g.1 + [(rest, isDir)])];
      }
    }
    assert flat[..|flat|] == flat;
  }

  lemma GroupNothing()
    ensures Heads([]) == {}
  {
  }

  ghost function Entries(flat: seq<Item>, names: seq<string>): seq<Entry> {
    seq(|names|, i requires 0 <= i < |names| => EntryFor(flat, names[i]))
  }

  lemma EntriesCons(flat: seq<Item>, name: string, names: seq<string>)
    ensures Entries(flat, [name] + names) == [EntryFor(flat, name)] + Entries(flat, names)
  {
  }

  /** One item more in the list, one group changed. */
  lemma GroupStep(flat: seq<Item>, i: nat)
    requires i < |flat|
    ensures flat[i].0 == [] ==> Heads(flat[..i + 1]) == Heads(flat[..i])
    ensures flat[i].0 != [] ==> Heads(flat[..i + 1]) == Heads(flat[..i]) + {flat[i].0[0]}
    ensures forall name: string ::
      (FlagOf(flat[..i + 1], name) == if flat[i].0 == [name] then flat[i].1 else FlagOf(flat[..i], name))
    ensures forall name: string ::
      (SubsOf(flat[..i + 1], name) ==
        if |flat[i].0| > 1 && flat[i].0[0] == name then SubsOf(flat[..i], name) + [(flat[i].0[1..], flat[i].1)]
        else SubsOf(flat[..i], name))
  {
    assert flat[..i + 1][..i] == flat[..i];
    assert forall j | 0 <= j < i :: flat[..i + 1][j] == flat[..i][j];
  }

  lemma {:induction false} NoGroup(flat: seq<Item>, name: string)
    ensures name !in Heads(flat) ==> !FlagOf(flat, name) && SubsOf(flat, name) == []
  {
    if flat != [] {
      var n := |flat| - 1;
      assert forall j | 0 <= j < n :: flat[..n][j] == flat[j];
      if flat[n].0 != [] {
        assert flat[n].0[0] in Heads(flat);
      }
      NoGroup(flat[..n], name);
    }
  }

  // ---------- what the tree contains ----------

  /** A proper scan: real paths, one kind per path, and every parent listed as a directory. */
  ghost predicate Scannable(flat: seq<Item>) {
    && (forall x | x in flat :: x.0 != [])
    && (forall x, y | x in flat && y in flat && x.0 == y.0 :: x.1 == y.1)
    && (forall x | x in flat && |x.0| > 1 :: (x.0[..|x.0| - 1], true) in flat)
  }

  lemma {:induction false} SubsMembers(flat: seq<Item>, name: string, p: Names, d: bool)
    ensures (p, d) in SubsOf(flat, name) <==> p != [] && ([name] + p, d) in flat
  {
    if flat != [] {
      var n := |flat| - 1;
      var (q, e) := flat[n];
      SubsMembers(flat[..n], name, p, d);
      assert flat == flat[..n] + [flat[n]];
      if |q| > 1 && q[0] == name {
        assert q == [name] + q[1..];
        assert q == [name] + p ==> q[1..] == p;
      }
    }
  }

  lemma SubsScannable(flat: seq<Item>, name: string)
    requires Scannable(flat)
    ensures Scannable(SubsOf(flat, name))
  {
    var subs := SubsOf(flat, name);
    forall x | x in subs ensures x.0 != [] && ([name] + x.0, x.1) in flat {
      SubsMembers(flat, name, x.0, x.1);
    }
    forall x | x in subs && |x.0| > 1 ensures (x.0[..|x.0| - 1], true) in subs {
      var p := [name] + x.0;
      assert p[..|p| - 1] == [name] + x.0[..|x.0| - 1];
      SubsMembers(flat, name, x.0[..|x.0| - 1], true);
    }
  }

  /** If any item says `name` is a directory and none disagrees, the group is one. */
  lemma {:induction false} FlagMeansListed(flat: seq<Item>, name: string)
    ensures FlagOf(flat, name) ==> ([name], true) in flat
    ensures !FlagOf(flat, name) && ([name], true) in flat ==> ([name], false) in flat
  {
    if flat != [] {
      var n := |flat| - 1;
      FlagMeansListed(flat[..n], name);
      assert flat == flat[..n] + [flat[n]];
      assert forall x :: x in flat <==> x in flat[..n] || x == flat[n];
      assert flat[n] == (flat[n].0, flat[n].1);
    }
  }

  lemma {:induction false} ParentListed(flat: seq<Item>, p: Names, d: bool, k: nat)
    requires Scannable(flat) && (p, d) in flat && 0 < k < |p|
    ensures (p[..k], true) in flat
    decreases |p| - k
  {
    assert (p[..|p| - 1], true) in flat;
    if k < |p| - 1 {
      ParentListed(flat, p[..|p| - 1], true, k);
      assert p[..|p| - 1][..k] == p[..k];
    }
  }

  lemma HeadListed(flat: seq<Item>, name: string)
    requires Scannable(flat)
    ensures name in Heads(flat) <==> ([name], FlagOf(flat, name)) in flat
    ensures forall d :: ([name], d) in flat ==> d == FlagOf(flat, name)
  {
    FlagMeansListed(flat, name);
    if name in Heads(flat) {
      var i :| 0 <= i < |flat| && flat[i].0 != [] && flat[i].0[0] == name;
      var p := flat[i].0;
      assert p[..1] == [name] && p[..|p|] == p && flat[i] == (p, flat[i].1);
      if |p| > 1 {
        ParentListed(flat, p, flat[i].1, 1);
      }
      assert ([name], true) in flat || ([name], false) in flat;
    }
    forall d | ([name], d) in flat ensures name in Heads(flat) {
      var i :| 0 <= i < |flat| && flat[i] == ([name], d);
      assert flat[i].0[0] in Heads(flat);
    }
  }

  /** From a proper scan the tree gets exactly the listed paths, each with its kind. */
  lemma {:induction false} BuiltContainsExactly(flat: seq<Item>, p: Names, d: bool)
    requires Scannable(flat)
    ensures Contains(Built(flat), p, d) <==> (p, d) in flat
    decreases |p|
  {
    if p != [] {
      var name := p[0];
      BuiltContainsVia(flat, p, d);
      HeadListed(flat, name);
      if |p| == 1 {
        assert p == [name];
        FlagMeansListed(flat, name);
      } else {
        var subs := SubsOf(flat, name);
        SubsMembers(flat, name, p[1..], d);
        assert [name] + p[1..] == p;
        SubsScannable(flat, name);
        BuiltContainsExactly(subs, p[1..], d);
        if (p, d) in flat {
          ParentListed(flat, p, d, 1);
          assert p[..1] == [name];
        }
      }
    }
  }

  /** A path can only be found through the group of its first component. */
  lemma BuiltContainsVia(flat: seq<Item>, p: Names, d: bool)
    requires p != []
    ensures Contains(Built(flat), p, d) <==> p[0] in Heads(flat) && At(EntryFor(flat, p[0]), p, d)
  {
    var names := Ascending(Heads(flat));
    AscendingIsSorted(Heads(flat));
    if p[0] in names {
      var i :| 0 <= i < |names| && names[i] == p[0];
      assert Built(flat)[i] == EntryFor(flat, p[0]);
    }
    assert forall i | 0 <= i < |names| :: Built(flat)[i] == EntryFor(flat, names[i]);
  }

  /** Whatever the list, siblings come out with different names and files without children. */
  lemma {:induction false} BuiltIsWellFormed(flat: seq<Item>)
    ensures WellFormed(Built(flat))
    decreases Depth(flat)
  {
    AscendingIsSorted(Heads(flat));
    forall i | 0 <= i < |Built(flat)| ensures WellFormed(Built(flat)[i].children) {
      var name := Ascending(Heads(flat))[i];
      SubsShallower(flat, name);
      if FlagOf(flat, name) && SubsOf(flat, name) != [] {
        BuiltIsWellFormed(SubsOf(flat, name));
      }
    }
  }

  /** So a list is reproduced exactly when it is a proper scan. */
  lemma ReproducedIffScannable(flat: seq<Item>)
    ensures (forall p, d :: Contains(Built(flat), p, d) <==> (p, d) in flat) <==> Scannable(flat)
  {
    if Scannable(flat) {
      forall p, d ensures Contains(Built(flat), p, d) <==> (p, d) in flat {
        BuiltContainsExactly(flat, p, d);
      }
    }
    if forall p, d :: Contains(Built(flat), p, d) <==> (p, d) in flat {
      BuiltIsWellFormed(flat);
      forall x | x in flat ensures x.0 != [] {
        assert Contains(Built(flat), x.0, x.1);
      }
      forall x, y | x in flat && y in flat && x.0 == y.0 ensures x.1 == y.1 {
        assert Contains(Built(flat), x.0, x.1) && Contains(Built(flat), y.0, y.1);
        OneKind(Built(flat), x.0, x.1, y.1);
      }
      forall x | x in flat && |x.0| > 1 ensures (x.0[..|x.0| - 1], true) in flat {
        assert Contains(Built(flat), x.0, x.1);
        ParentContained(Built(flat), x.0, x.1);
      }
    }
  }

  lemma {:induction false} OneKind(entries: seq<Entry>, p: Names, d: bool, e: bool)
    requires WellFormed(entries) && Contains(entries, p, d) && Contains(entries, p, e)
    ensures d == e
    decreases p
  {
    var i :| 0 <= i < |entries| && At(entries[i], p, d);
    var j :| 0 <= j < |entries| && At(entries[j], p, e);
    assert i == j;
    if |p| > 1 {
      OneKind(entries[i].children, p[1..], d, e);
    }
  }

  lemma {:induction false} ParentContained(entries: seq<Entry>, p: Names, d: bool)
    requires WellFormed(entries) && Contains(entries, p, d) && |p| > 1
    ensures Contains(entries, p[..|p| - 1], true)
    decreases p
  {
    var i :| 0 <= i < |entries| && At(entries[i], p, d);
    var up := p[..|p| - 1];
    if |p| > 2 {
      ParentContained(entries[i].children, p[1..], d);
      assert up[1..] == p[1..][..|p| - 2];
    } else {
      assert Contains(entries[i].children, p[1..], d);
    }
    assert At(entries[i], up, true);
  }

  // ---------- sorting ----------

  /** Directories first, then by name. */
  predicate EntryLe(a: Entry, b: Entry) {
    (a.isDir && !b.isDir) || (a.isDir == b.isDir && NameLe(a.name, b.name))
  }

  lemma EntryLeTotal(a: Entry, b: Entry)
    ensures EntryLe(a, b) || EntryLe(b, a)
  {
    NameLeTotal(a.name, b.name);
  }

  lemma EntryLeTransitive(a: Entry, b: Entry, c: Entry)
    requires EntryLe(a, b) && EntryLe(b, c)
    ensures EntryLe(a, c)
  {
    if a.isDir == b.isDir == c.isDir {
      NameLeTransitive(a.name, b.name, c.name);
    }
  }

  ghost predicate SortedLevel(entries: seq<Entry>) {
    forall i, j | 0 <= i < j < |entries| :: EntryLe(entries[i], entries[j])
  }

  ghost predicate SortedTree(entries: seq<Entry>) {
    SortedLevel(entries) && forall i | 0 <= i < |entries| :: entries[i].isDir ==> SortedTree(entries[i].children)
  }

  /** Stable insertion behind everything that is not greater. */
  function Insert(entries: seq<Entry>, e: Entry): (r: seq<Entry>)
    ensures multiset(r) == multiset(entries) + multiset{e}
  {
    if entries == [] || EntryLe(entries[|entries| - 1], e) then entries + [e]
    else
      assert entries == entries[..|entries| - 1] + [entries[|entries| - 1]];
      Insert(entries[..|entries| - 1], e) + [entries[|entries| - 1]]
  }

  /** `sort_by`: the stable sort of a slice. */
  function SortLevel(entries: seq<Entry>): (r: seq<Entry>)
    ensures multiset(r) == multiset(entries)
  {
    if entries == [] then []
    else
      assert entries == entries[..|entries| - 1] + [entries[|entries| - 1]];
      Insert(SortLevel(entries[..|entries| - 1]), entries[|entries| - 1])
  }

  lemma {:induction false} InsertSorted(entries: seq<Entry>, e: Entry)
    requires SortedLevel(entries)
    ensures SortedLevel(Insert(entries, e))
  {
    if entries != [] {
      var n := |entries| - 1;
      if EntryLe(entries[n], e) {
        forall i | 0 <= i < n ensures EntryLe(entries[i], e) {
          EntryLeTransitive(entries[i], entries[n], e);
        }
      } else {
        InsertSorted(entries[..n], e);
        EntryLeTotal(entries[n], e);
        forall i | 0 <= i < |Insert(entries[..n], e)| ensures EntryLe(Insert(entries[..n], e)[i], entries[n]) {
          InsertMember(entries[..n], e, i);
        }
      }
    }
  }

  lemma {:induction false} SortLevelSorted(entries: seq<Entry>)
    ensures SortedLevel(SortLevel(entries))
  {
    if entries != [] {
      SortLevelSorted(entries[..|entries| - 1]);
      InsertSorted(SortLevel(entries[..|entries| - 1]), entries[|entries| - 1]);
    }
  }

  lemma SameMembers(entries: seq<Entry>, i: nat)
    requires i < |SortLevel(entries)|
    ensures SortLevel(entries)[i] in entries
  {
    assert SortLevel(entries)[i] in multiset(SortLevel(entries));
  }

  ghost function Sorted(entries: seq<Entry>): (r: seq<Entry>)
    ensures |r| == |entries|
    decreases entries
  {
    var level := SortLevel(entries);
    assert |multiset(level)| == |multiset(entries)|;
    seq(|level|, i requires 0 <= i < |level| =>
      SameMembers(entries, i);
      if level[i].isDir then level[i].(children := Sorted(level[i].children)) else level[i])
  }

  method SortEntries(v: seq<Entry>) returns (r: seq<Entry>)
    ensures r == Sorted(v)
    decreases v
  {
    r := SortLevel(v);
    ghost var level := r;
    for i := 0 to |r|
      invariant |r| == |level|
      invariant forall j | 0 <= j < |level| :: r[j] == if j < i then Sorted(v)[j] else level[j]
    {
      if r[i].isDir {
        SameMembers(v, i);
        var children := SortEntries(r[i].children);
        r := r[i := r[i].(children := children)];
      }
    }
  }

  /** Sorting orders every level and moves nothing to another path. */
  lemma {:induction false} SortedIsSorted(entries: seq<Entry>)
    ensures SortedTree(Sorted(entries))
    decreases entries
  {
    SortLevelSorted(entries);
    var level := SortLevel(entries);
    forall i | 0 <= i < |entries| && Sorted(entries)[i].isDir ensures SortedTree(Sorted(entries)[i].children) {
      SameMembers(entries, i);
      SortedIsSorted(level[i].children);
    }
  }

  lemma {:induction false} SortedContainsSame(entries: seq<Entry>, p: Names, d: bool)
    requires WellFormed(entries)
    ensures Contains(Sorted(entries), p, d) <==> Contains(entries, p, d)
    decreases p
  {
    if p != [] {
      var level, sorted := SortLevel(entries), Sorted(entries);
      forall i | 0 <= i < |level| ensures At(sorted[i], p, d) <==> At(level[i], p, d) {
        SameMembers(entries, i);
        if |p| > 1 && level[i].isDir {
          SortedContainsSame(level[i].children, p[1..], d);
        }
      }
      if i :| 0 <= i < |entries| && At(entries[i], p, d) {
        assert entries[i] in multiset(entries);
        assert entries[i] in multiset(level);
        var j :| 0 <= j < |level| && level[j] == entries[i];
        assert At(sorted[j], p, d);
      }
      if j :| 0 <= j < |sorted| && At(sorted[j], p, d) {
        SameMembers(entries, j);
        var i :| 0 <= i < |entries| && entries[i] == level[j];
        assert At(entries[i], p, d);
      }
    }
  }

  /** Sorting keeps names unique and files childless, so the row functions apply to the result. */
  lemma {:induction false} SortedIsWellFormed(entries: seq<Entry>)
    requires WellFormed(entries)
    ensures WellFormed(Sorted(entries))
    decreases entries
  {
    hide SortLevel;
    var level, sorted := SortLevel(entries), Sorted(entries);
    forall i | 0 <= i < |level|
      ensures sorted[i].name == level[i].name && sorted[i].isDir == level[i].isDir
      ensures WellFormed(sorted[i].children) && (!sorted[i].isDir ==> sorted[i].children == [])
    {
      SameMembers(entries, i);
      if level[i].isDir {
        SortedIsWellFormed(level[i].children);
      }
    }
    SortLevelUnique(entries);
    assert UniqueNames(sorted);
  }

  lemma {:induction false} InsertUnique(entries: seq<Entry>, e: Entry)
    requires UniqueNames(entries) && forall i | 0 <= i < |entries| :: entries[i].name != e.name
    ensures UniqueNames(Insert(entries, e))
  {
    if entries != [] && !EntryLe(entries[|entries| - 1], e) {
      var n := |entries| - 1;
      InsertUnique(entries[..n], e);
      forall i | 0 <= i < |Insert(entries[..n], e)| ensures Insert(entries[..n], e)[i].name != entries[n].name {
        InsertMember(entries[..n], e, i);
      }
    }
  }

  lemma InsertMember(entries: seq<Entry>, e: Entry, i: nat)
    requires i < |Insert(entries, e)|
    ensures Insert(entries, e)[i] in entries || Insert(entries, e)[i] == e
  {
    assert Insert(entries, e)[i] in multiset(Insert(entries, e));
  }

  lemma {:induction false} SortLevelUnique(entries: seq<Entry>)
    requires UniqueNames(entries)
    ensures UniqueNames(SortLevel(entries))
  {
    if entries != [] {
      var n := |entries| - 1;
      SortLevelUnique(entries[..n]);
      SameLength(entries[..n]);
      forall i | 0 <= i < n ensures SortLevel(entries[..n])[i].name != entries[n].name {
        SameMembers(entries[..n], i);
      }
      InsertUnique(SortLevel(entries[..n]), entries[n]);
    }
  }

  lemma SameLength(entries: seq<Entry>)
    ensures |SortLevel(entries)| == |entries|
  {
    assert |multiset(SortLevel(entries))| == |multiset(entries)|;
  }

  /** The whole construction: a sorted tree with exactly the scanned paths. */
  lemma ScanBecomesTree(flat: seq<Item>, p: Names, d: bool)
    requires Scannable(flat)
    ensures SortedTree(Sorted(Built(flat))) && WellFormed(Sorted(Built(flat)))
    ensures Contains(Sorted(Built(flat)), p, d) <==> (p, d) in flat
  {
    SortedIsSorted(Built(flat));
    BuiltIsWellFormed(flat);
    SortedIsWellFormed(Built(flat));
    SortedContainsSame(Built(flat), p, d);
    BuiltContainsExactly(flat, p, d);
  }

  // ---------- a fresh tree shows everything ----------

  ghost predicate AllExpanded(entries: seq<Entry>) {
    forall i | 0 <= i < |entries| :: entries[i].isExpanded && AllExpanded(entries[i].children)
  }

  lemma {:induction false} BuiltAllExpanded(flat: seq<Item>)
    ensures AllExpanded(Built(flat))
    decreases Depth(flat)
  {
    var names := Ascending(Heads(flat));
    forall i | 0 <= i < |Built(flat)| ensures Built(flat)[i].isExpanded && AllExpanded(Built(flat)[i].children) {
      var subs := SubsOf(flat, names[i]);
      SubsShallower(flat, names[i]);
      if subs != [] {
        BuiltAllExpanded(subs);
      }
    }
  }

  lemma {:induction false} SortedAllExpanded(entries: seq<Entry>)
    requires AllExpanded(entries)
    ensures AllExpanded(Sorted(entries))
    decreases entries
  {
    var level, sorted := SortLevel(entries), Sorted(entries);
    forall i | 0 <= i < |sorted| ensures sorted[i].isExpanded && AllExpanded(sorted[i].children) {
      SameMembers(entries, i);
      if level[i].isDir {
        SortedAllExpanded(level[i].children);
      }
    }
  }

  lemma {:induction false} AllExpandedShows(entries: seq<Entry>, p: Names)
    requires WellFormed(entries) && AllExpanded(entries)
    ensures IsVisible(entries, p) <==> Present(entries, p)
    decreases p
  {
    if p != [] {
      if t :| 0 <= t < |entries| && entries[t].name == p[0] {
        OnlyViaIndex(entries, t, p);
        ContainsByIndex(entries, t, p, true);
        ContainsByIndex(entries, t, p, false);
        if |p| > 1 {
          AllExpandedShows(entries[t].children, p[1..]);
        }
      } else {
        AbsentHidden(entries, p);
      }
    }
  }

  /** After a scan every listed path shows, and nothing else does. */
  lemma ScanShowsAll(flat: seq<Item>, p: Names)
    requires Scannable(flat)
    ensures IsVisible(Sorted(Built(flat)), p) <==> (p, true) in flat || (p, false) in flat
  {
    ScanBecomesTree(flat, p, true);
    ScanBecomesTree(flat, p, false);
    BuiltAllExpanded(flat);
    SortedAllExpanded(Built(flat));
    AllExpandedShows(Sorted(Built(flat)), p);
  }

  // ---------- the order ----------

  /** Names are ordered as words are, letter by letter, the shorter first. */
  lemma {:induction false} NamesLexicographic(a: string, b: string)
    ensures NameLe(a, b) <==> a <= b || exists k | 0 <= k < |a| && k < |b| :: a[..k] == b[..k] && a[k] < b[k]
  {
    if a != [] && b != [] {
      NamesLexicographic(a[1..], b[1..]);
      if a[0] == b[0] {
        assert a <= b <==> a[1..] <= b[1..];
        if k :| 0 <= k < |a| && k < |b| && a[..k] == b[..k] && a[k] < b[k] {
          assert k > 0 && a[1..][..k - 1] == a[..k][1..] == b[..k][1..] == b[1..][..k - 1];
        }
        if k :| 0 <= k < |a| - 1 && k < |b| - 1 && a[1..][..k] == b[1..][..k] && a[1..][k] < b[1..][k] {
          assert a[..k + 1] == [a[0]] + a[1..][..k] && b[..k + 1] == [b[0]] + b[1..][..k];
          assert a[k + 1] < b[k + 1];
        }
      } else if a[0] < b[0] {
        assert a[..0] == b[..0];
      } else {
        forall k | 0 < k < |a| && k < |b| ensures a[..k] != b[..k] {
          SameStart(a, b, k);
        }
      }
    }
  }

  lemma SameStart(a: string, b: string, k: nat)
    requires 0 < k <= |a| && k <= |b|
    ensures a[..k] == b[..k] ==> a[0] == b[0]
  {
    assert a[..k][0] == a[0] && b[..k][0] == b[0];
  }

  /** At every level no file comes before a directory, and names of one kind ascend. */
  lemma DirectoriesFirst(entries: seq<Entry>, i: nat, j: nat)
    requires i < j < |Sorted(entries)|
    ensures var s := Sorted(entries);
            && (s[j].isDir ==> s[i].isDir)
            && (s[i].isDir == s[j].isDir ==> NameLe(s[i].name, s[j].name))
  {
    SortedIsSorted(entries);
    assert EntryLe(Sorted(entries)[i], Sorted(entries)[j]);
  }
}
