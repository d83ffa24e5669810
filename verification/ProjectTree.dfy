/**
 The collapsible project tree: visible rows in pre-order, the name path of a row and the row of
 a name path, the rendered rows, and toggling a directory while keeping the selection.
 */
module ProjectTree {
  import opened Wrappers

  datatype Entry = Entry(name: string, isDir: bool, children: seq<Entry>, isExpanded: bool)
  {
    predicate Open() { isDir && isExpanded }
  }

  /** Names from the root of the tree down to an entry. */
  type Names = seq<string>

  ghost predicate UniqueNames(entries: seq<Entry>) {
    forall i, j | 0 <= i < j < |entries| :: entries[i].name != entries[j].name
  }

  /** Siblings have different names and files have no children. */
  ghost predicate WellFormed(entries: seq<Entry>) {
    && UniqueNames(entries)
    && (forall i | 0 <= i < |entries| :: WellFormed(entries[i].children))
    && (forall i | 0 <= i < |entries| && !entries[i].isDir :: entries[i].children == [])
  }

  // ---------- visible rows ----------

  ghost function Under(name: string, paths: seq<Names>): (r: seq<Names>)
    ensures |r| == |paths| && forall k | 0 <= k < |paths| :: r[k] == [name] + paths[k]
  {
    seq(|paths|, k requires 0 <= k < |paths| => [name] + paths[k])
  }

  /** The name paths of the visible rows, top to bottom. */
  ghost function Visible(entries: seq<Entry>): (rows: seq<Names>)
    ensures forall k | 0 <= k < |rows| :: rows[k] != []
  {
    if entries == [] then [] else Shown(entries[0]) + Visible(entries[1..])
  }

  ghost function Shown(e: Entry): (rows: seq<Names>)
    ensures rows != [] && forall k | 0 <= k < |rows| :: rows[k] != [] && rows[k][0] == e.name
  {
    [[e.name]] + (if e.Open() then Under(e.name, Visible(e.children)) else [])
  }

  method VisibleEntryCount(entries: seq<Entry>) returns (n: nat)
    ensures n == |Visible(entries)|
  {
    n := 0;
    for i := 0 to |entries|
      invariant n + |Visible(entries[i..])| == |Visible(entries)|
    {
      assert entries[i..][0] == entries[i] && entries[i..][1..] == entries[i + 1..];
      n := n + 1;
      if entries[i].isDir && entries[i].isExpanded {
        var below := VisibleEntryCount(entries[i].children);
        n := n + below;
      }
    }
  }

  method EntryPathAtRow(entries: seq<Entry>, row: nat) returns (r: Option<Names>)
    ensures r == if row < |Visible(entries)| then Some(Visible(entries)[row]) else None
  {
    var idx;
    r, idx := SearchRow(entries, row, 0, []);
    if r.Some? {
      assert [] + Visible(entries)[row] == Visible(entries)[row];
    }
  }

  lemma {:induction false} VisibleAppend(a: seq<Entry>, b: seq<Entry>)
    ensures Visible(a + b) == Visible(a) + Visible(b)
    decreases a
  {
    if a == [] {
      assert a + b == b;
    } else {
      assert (a + b)[1..] == a[1..] + b;
      VisibleAppend(a[1..], b);
    }
  }

  /** The rows before entry `i`, those of entry `i`, and the rest. */
  lemma RowsAround(entries: seq<Entry>, i: nat)
    requires i < |entries|
    ensures Visible(entries[..i + 1]) == Visible(entries[..i]) + Shown(entries[i])
    ensures Visible(entries) == Visible(entries[..i]) + Shown(entries[i]) + Visible(entries[i + 1..])
  {
    hide Visible, Shown;
    SplitAround(entries, i);
    OneEntry(entries[i]);
    VisibleAppend(entries[..i], [entries[i]]);
    VisibleAppend(entries[..i] + [entries[i]], entries[i + 1..]);
  }

  lemma SplitAround<T>(s: seq<T>, i: nat)
    requires i < |s|
    ensures s[..i + 1] == s[..i] + [s[i]] && s == s[..i] + [s[i]] + s[i + 1..]
  {
  }

  lemma OneEntry(e: Entry)
    ensures Visible([e]) == Shown(e)
  {
    assert Visible([e]) == Shown(e) + Visible([]);
  }

  lemma ShownRows(e: Entry)
    ensures Shown(e)[0] == [e.name]
    ensures |Shown(e)| == 1 + if e.Open() then |Visible(e.children)| else 0
    ensures e.Open() ==> forall k | 0 <= k < |Visible(e.children)| :: Shown(e)[k + 1] == [e.name] + Visible(e.children)[k]
  {
    hide Visible;
  }

  /** `idx` counts the rows passed so far and `path` leads to the entries being searched. */
  method SearchRow(entries: seq<Entry>, target: nat, idx: nat, path: Names) returns (r: Option<Names>, idx': nat)
    requires idx <= target
    ensures r.Some? <==> target < idx + |Visible(entries)|
    ensures r.Some? ==> r.value == path + Visible(entries)[target - idx]
    ensures r.None? ==> idx' == idx + |Visible(entries)|
  {
    hide Visible, Shown, Under;
    idx' := idx;
    VisibleNothing();
    for i := 0 to |entries|
      invariant idx' == idx + |Visible(entries[..i])| <= target
    {
      var e := entries[i];
      RowsAround(entries, i);
      ShownRows(e);
      if idx' == target {
        return Some(path + [e.name]), idx';
      }
      ghost var k := target - idx' - 1;
      idx' := idx' + 1;
      if e.isDir && e.isExpanded {
        r, idx' := SearchRow(e.children, target, idx', path + [e.name]);
        if r.Some? {
          assert path + [e.name] + Visible(e.children)[k] == path + ([e.name] + Visible(e.children)[k]);
          assert Shown(e)[k + 1] == [e.name] + Visible(e.children)[k];
          return;
        }
      }
    }
    assert entries[..|entries|] == entries;
    r := None;
  }

  lemma VisibleNothing()
    ensures Visible([]) == []
  {
  }

  method RowForEntryPath(entries: seq<Entry>, names: Names) returns (r: Option<nat>)
    ensures r.Some? ==> r.value < |Visible(entries)| && Visible(entries)[r.value] == names
                        && names !in Visible(entries)[..r.value]
    ensures r.None? ==> names !in Visible(entries)
  {
    if names == [] {
      return None;
    }
    var idx;
    r, idx := SearchPath(entries, names, 0, []);
    assert forall k | 0 <= k < |Visible(entries)| :: [] + Visible(entries)[k] == Visible(entries)[k];
  }

  ghost predicate Misses(path: Names, rows: seq<Names>, target: Names) {
    forall k | 0 <= k < |rows| :: path + rows[k] != target
  }

  lemma MissesUnder(path: Names, name: string, rows: seq<Names>, target: Names)
    ensures Misses(path, Under(name, rows), target) <==> Misses(path + [name], rows, target)
  {
    forall k | 0 <= k < |rows| ensures path + Under(name, rows)[k] == path + [name] + rows[k] {
      assert path + ([name] + rows[k]) == path + [name] + rows[k];
    }
  }

  method SearchPath(entries: seq<Entry>, target: Names, idx: nat, path: Names) returns (r: Option<nat>, idx': nat)
    ensures r.Some? ==>
      && idx <= r.value < idx + |Visible(entries)| && path + Visible(entries)[r.value - idx] == target
      && Misses(path, Visible(entries)[..r.value - idx], target)
    ensures r.None? ==> idx' == idx + |Visible(entries)| && Misses(path, Visible(entries), target)
  {
    hide Visible, Shown, Under;
    idx' := idx;
    VisibleNothing();
    for i := 0 to |entries|
      invariant idx' == idx + |Visible(entries[..i])|
      invariant Misses(path, Visible(entries[..i]), target)
    {
      var e := entries[i];
      RowsAround(entries, i);
      ShownRows(e);
      var here := idx';
      idx' := idx' + 1;
      if path + [e.name] == target {
        assert Visible(entries)[..here - idx] == Visible(entries[..i]);
        return Some(here), idx';
      }
      if e.isDir && e.isExpanded {
        r, idx' := SearchPath(e.children, target, idx', path + [e.name]);
        if r.Some? {
          FoundBelow(entries, i, path, target, r.value - here - 1);
          return;
        }
        MissedBelow(e, path, target, |Visible(e.children)|);
      }
      MissesBoth(path, Visible(entries[..i]), Shown(e), target);
    }
    assert entries[..|entries|] == entries;
    r := None;
  }

  lemma MissesBoth(path: Names, a: seq<Names>, b: seq<Names>, target: Names)
    requires Misses(path, a, target) && Misses(path, b, target)
    ensures Misses(path, a + b, target)
  {
  }

  lemma MissedBelow(e: Entry, path: Names, target: Names, n: nat)
    requires e.Open() && n <= |Visible(e.children)|
    requires path + [e.name] != target && Misses(path + [e.name], Visible(e.children)[..n], target)
    ensures n + 1 <= |Shown(e)| && Misses(path, Shown(e)[..n + 1], target)
  {
    MissesUnder(path, e.name, Visible(e.children)[..n], target);
    assert Shown(e)[..n + 1] == [[e.name]] + Under(e.name, Visible(e.children)[..n]);
  }

  lemma FoundBelow(entries: seq<Entry>, i: nat, path: Names, target: Names, k: nat)
    requires i < |entries| && entries[i].Open() && k < |Visible(entries[i].children)|
    requires Misses(path, Visible(entries[..i]), target) && path + [entries[i].name] != target
    requires path + [entries[i].name] + Visible(entries[i].children)[k] == target
    requires Misses(path + [entries[i].name], Visible(entries[i].children)[..k], target)
    ensures var at := |Visible(entries[..i])| + 1 + k;
            && at < |Visible(entries)| && path + Visible(entries)[at] == target
            && Misses(path, Visible(entries)[..at], target)
  {
    hide Visible, Shown, Under;
    var e, before := entries[i], Visible(entries[..i]);
    RowsAround(entries, i);
    ShownRows(e);
    MissedBelow(e, path, target, k);
    MissesBoth(path, before, Shown(e)[..k + 1], target);
    assert Visible(entries)[..|before| + 1 + k] == before + Shown(e)[..k + 1];
    assert path + [e.name] + Visible(e.children)[k] == path + ([e.name] + Visible(e.children)[k]);
    assert Visible(entries)[|before| + 1 + k] == Shown(e)[k + 1];
  }

  // ---------- what visible means ----------

  /** An entry shows when every directory above it is open. */
  ghost predicate IsVisible(entries: seq<Entry>, p: Names)
    decreases p
  {
    p != [] && exists i | 0 <= i < |entries| :: ShowsVia(entries[i], p)
  }

  ghost predicate ShowsVia(e: Entry, p: Names)
    requires p != []
    decreases p, 0
  {
    e.name == p[0] && (|p| == 1 || (e.Open() && IsVisible(e.children, p[1..])))
  }

  lemma {:induction false} VisibleMeansShown(entries: seq<Entry>, p: Names)
    ensures p in Visible(entries) <==> IsVisible(entries, p)
    decreases entries
  {
    if entries != [] && p != [] {
      var e, rest := entries[0], entries[1..];
      VisibleMeansShown(rest, p);
      assert p in Visible(entries) <==> p in Shown(e) || p in Visible(rest);
      ShownMeansVia(e, p);
      assert IsVisible(entries, p) <==> ShowsVia(e, p) || IsVisible(rest, p) by {
        if i :| 0 <= i < |entries| && ShowsVia(entries[i], p) {
          assert i == 0 || entries[i] == rest[i - 1];
        }
        if j :| 0 <= j < |rest| && ShowsVia(rest[j], p) {
          assert entries[j + 1] == rest[j];
        }
      }
    }
  }

  lemma {:induction false} ShownMeansVia(e: Entry, p: Names)
    requires p != []
    ensures p in Shown(e) <==> ShowsVia(e, p)
    decreases e
  {
    hide Visible, Shown;
    var below := Visible(e.children);
    ShownRows(e);
    if e.Open() {
      VisibleMeansShown(e.children, p[1..]);
    }
    if k :| 0 <= k < |Shown(e)| && Shown(e)[k] == p {
      if k > 0 {
        assert p[1..] == below[k - 1];
      }
    }
    if ShowsVia(e, p) {
      if |p| == 1 {
        assert Shown(e)[0] == p;
      } else {
        var k :| 0 <= k < |below| && below[k] == p[1..];
        assert Shown(e)[k + 1] == [p[0]] + p[1..] == p;
      }
    }
  }

  ghost predicate Distinct(rows: seq<Names>) {
    forall i, j | 0 <= i < j < |rows| :: rows[i] != rows[j]
  }

  lemma DistinctUnder(name: string, rows: seq<Names>)
    requires Distinct(rows) && forall k | 0 <= k < |rows| :: rows[k] != []
    ensures Distinct([[name]] + Under(name, rows))
  {
    var below := Under(name, rows);
    forall i, j | 0 <= i < j < |rows| ensures below[i] != below[j] {
      assert below[i][1..] == rows[i] && below[j][1..] == rows[j];
    }
    assert forall k | 0 <= k < |rows| :: |below[k]| > 1;
  }

  lemma DistinctBoth(name: string, a: seq<Names>, b: seq<Names>)
    requires Distinct(a) && Distinct(b)
    requires forall k | 0 <= k < |a| :: a[k] != [] && a[k][0] == name
    requires forall k | 0 <= k < |b| :: b[k] != [] && b[k][0] != name
    ensures Distinct(a + b)
  {
  }

  /** With unique sibling names no path is shown twice, so rows and paths determine each other. */
  lemma {:induction false} RowsAreDistinct(entries: seq<Entry>)
    requires WellFormed(entries)
    ensures Distinct(Visible(entries))
    decreases entries
  {
    if entries != [] {
      var e, rest := entries[0], entries[1..];
      RowsAreDistinct(rest);
      RowsAreDistinct(e.children);
      DistinctUnder(e.name, Visible(e.children));
      forall j | 0 <= j < |Visible(rest)| ensures Visible(rest)[j][0] != e.name {
        VisibleMeansShown(rest, Visible(rest)[j]);
        var i :| 0 <= i < |rest| && ShowsVia(rest[i], Visible(rest)[j]);
        assert entries[i + 1] == rest[i];
      }
      assert Distinct(Shown(e)) by {
        assert [[e.name]] + [] == [[e.name]];
      }
      DistinctBoth(e.name, Shown(e), Visible(rest));
    }
  }

  /** Showing an entry shows every directory above it. */
  lemma {:induction false} AncestorsShow(entries: seq<Entry>, p: Names, k: nat)
    requires IsVisible(entries, p) && 0 < k <= |p|
    ensures IsVisible(entries, p[..k])
    decreases p
  {
    var i :| 0 <= i < |entries| && ShowsVia(entries[i], p);
    if k > 1 {
      AncestorsShow(entries[i].children, p[1..], k - 1);
      assert p[..k][1..] == p[1..][..k - 1];
    }
    assert ShowsVia(entries[i], p[..k]);
  }

  // ---------- the rendered rows ----------

  method Flatten(entries: seq<Entry>, depth: nat, rows: seq<(nat, Entry)>) returns (rows': seq<(nat, Entry)>)
    ensures rows' == rows + Rendered(entries, depth)
  {
    rows' := rows;
    for i := 0 to |entries|
      invariant rows' + Rendered(entries[i..], depth) == rows + Rendered(entries, depth)
    {
      RenderedStep(entries[i..], depth);
      assert entries[i..][1..] == entries[i + 1..];
      rows' := rows' + [(depth, entries[i])];
      if entries[i].isExpanded {
        rows' := Flatten(entries[i].children, depth + 1, rows');
      }
    }
  }

  lemma RenderedStep(entries: seq<Entry>, depth: nat)
    requires entries != []
    ensures var e := entries[0];
            Rendered(entries, depth)
            == [(depth, e)] + ((if e.isExpanded then Rendered(e.children, depth + 1) else [])
                               + Rendered(entries[1..], depth))
  {
  }

  /** The renderer looks at the expansion flag only, not at the kind of entry. */
  ghost function Rendered(entries: seq<Entry>, depth: nat): seq<(nat, Entry)> {
    if entries == [] then []
    else
      var e := entries[0];
      [(depth, e)] + (if e.isExpanded then Rendered(e.children, depth + 1) else []) + Rendered(entries[1..], depth)
  }

  /** A drawn row belongs to a name path: it shows the last name, indented by the others. */
  ghost predicate Draws(drawn: seq<(nat, Entry)>, rows: seq<Names>, depth: nat) {
    |drawn| == |rows| && forall k | 0 <= k < |rows| ::
      rows[k] != [] && drawn[k].0 == depth + |rows[k]| - 1 && drawn[k].1.name == rows[k][|rows[k]| - 1]
  }

  lemma DrawsBoth(a: seq<(nat, Entry)>, b: seq<(nat, Entry)>, rowsA: seq<Names>, rowsB: seq<Names>, depth: nat)
    requires Draws(a, rowsA, depth) && Draws(b, rowsB, depth)
    ensures Draws(a + b, rowsA + rowsB, depth)
  {
  }

  lemma DrawsUnder(name: string, drawn: seq<(nat, Entry)>, rows: seq<Names>, depth: nat)
    requires Draws(drawn, rows, depth + 1)
    ensures Draws(drawn, Under(name, rows), depth)
  {
  }

  /** Row by row the renderer draws the entry that the row's name path names, at its depth. */
  lemma {:induction false} RenderedMatchesRows(entries: seq<Entry>, depth: nat)
    requires WellFormed(entries)
    ensures Draws(Rendered(entries, depth), Visible(entries), depth)
    decreases entries
  {
    if entries != [] {
      hide Draws, Under;
      var e, rest := entries[0], entries[1..];
      var own: seq<(nat, Entry)> := [(depth, e)];
      assert Draws(own, [[e.name]], depth) by {
        OneRow(e, depth);
      }
      RenderedMatchesRows(rest, depth);
      RenderedMatchesRows(e.children, depth + 1);
      if e.isExpanded && e.isDir {
        DrawsUnder(e.name, Rendered(e.children, depth + 1), Visible(e.children), depth);
        DrawsBoth(own, Rendered(e.children, depth + 1), [[e.name]], Under(e.name, Visible(e.children)), depth);
      } else {
        assert own + [] == own && Shown(e) == [[e.name]];
        assert e.isExpanded ==> Rendered(e.children, depth + 1) == [];
      }
      DrawsBoth(if e.isExpanded then own + Rendered(e.children, depth + 1) else own,
                Rendered(rest, depth), Shown(e), Visible(rest), depth);
      assert own + [] == own;
    } else {
      assert Rendered(entries, depth) == [];
    }
  }

  lemma OneRow(e: Entry, depth: nat)
    ensures Draws([(depth, e)], [[e.name]], depth)
  {
  }

  // ---------- toggling ----------

  ghost function IndexOf(entries: seq<Entry>, name: string): (i: nat)
    ensures i <= |entries| && (i < |entries| ==> entries[i].name == name)
    ensures forall j | 0 <= j < i :: entries[j].name != name
  {
    if entries == [] || entries[0].name == name then 0 else 1 + IndexOf(entries[1..], name)
  }

  ghost function Toggled(entries: seq<Entry>, names: Names): (r: (seq<Entry>, bool))
    ensures !r.1 ==> r.0 == entries
    decreases names
  {
    if names == [] then (entries, false)
    else
      var i := IndexOf(entries, names[0]);
      if i == |entries| || !entries[i].isDir then (entries, false)
      else if |names| == 1 then (entries[i := entries[i].(isExpanded := !entries[i].isExpanded)], true)
      else
        var (children, done) := Toggled(entries[i].children, names[1..]);
        if done then (entries[i := entries[i].(children := children)], true) else (entries, false)
  }

  method Toggle(entries: seq<Entry>, names: Names) returns (entries': seq<Entry>, done: bool)
    ensures (entries', done) == Toggled(entries, names)
    decreases names
  {
    entries', done := entries, false;
    if names == [] {
      return;
    }
    for i := 0 to |entries|
      invariant entries' == entries && !done
      invariant forall j | 0 <= j < i :: entries[j].name != names[0]
    {
      var entry := entries[i];
      if entry.name == names[0] {
        assert IndexOf(entries, names[0]) == i;
        if |names| == 1 {
          if entry.isDir {
            entries' := entries[i := entry.(isExpanded := !entry.isExpanded)];
            done := true;
          }
        } else if entry.isDir {
          var children;
          children, done := Toggle(entry.children, names[1..]);
          entries' := entries[i := entry.(children := children)];
          if !done {
            assert entries' == entries;
          }
        }
        return;
      }
    }
  }

  lemma {:induction false} ToggleKeepsShape(entries: seq<Entry>, names: Names)
    requires WellFormed(entries)
    ensures var entries' := Toggled(entries, names).0;
            && WellFormed(entries') && |entries'| == |entries|
            && forall i | 0 <= i < |entries| ::
                 entries'[i].name == entries[i].name && entries'[i].isDir == entries[i].isDir
    decreases names
  {
    if names != [] {
      var i := IndexOf(entries, names[0]);
      if i < |entries| && |names| > 1 {
        ToggleKeepsShape(entries[i].children, names[1..]);
      }
    }
  }

  /** Toggling the same directory again restores the tree. */
  lemma {:induction false} ToggleTwice(entries: seq<Entry>, names: Names)
    requires Toggled(entries, names).1
    ensures Toggled(Toggled(entries, names).0, names) == (entries, true)
    decreases names
  {
    var i := IndexOf(entries, names[0]);
    var entries' := Toggled(entries, names).0;
    assert entries'[i].name == names[0] && forall j | 0 <= j < i :: entries'[j].name == entries[j].name;
    assert IndexOf(entries', names[0]) == i;
    if |names| > 1 {
      ToggleTwice(entries[i].children, names[1..]);
    }
    assert Toggled(entries', names).0 == entries;
  }

  /** Strictly below: the proper extensions of a path. */
  ghost predicate Below(p: Names, dir: Names) {
    dir < p
  }

  /** Toggling a directory changes the visibility of what lies below it and of nothing else. */
  lemma {:induction false} ToggleVisibility(entries: seq<Entry>, dir: Names, p: Names)
    requires WellFormed(entries) && Toggled(entries, dir).1
    ensures !Below(p, dir) ==> (IsVisible(Toggled(entries, dir).0, p) <==> IsVisible(entries, p))
    ensures Below(p, dir) ==> !(IsVisible(Toggled(entries, dir).0, p) && IsVisible(entries, p))
    decreases dir
  {
    if p != [] {
      var entries', t := Toggled(entries, dir).0, IndexOf(entries, dir[0]);
      ToggleKeepsShape(entries, dir);
      if p[0] != dir[0] {
        assert forall i | 0 <= i < |entries| && ShowsVia(entries[i], p) :: entries'[i] == entries[i];
        assert forall i | 0 <= i < |entries| && ShowsVia(entries'[i], p) :: entries'[i] == entries[i];
      } else {
        OnlyViaIndex(entries, t, p);
        OnlyViaIndex(entries', t, p);
        if |dir| > 1 && |p| > 1 {
          ToggleVisibility(entries[t].children, dir[1..], p[1..]);
          assert Below(p, dir) <==> Below(p[1..], dir[1..]) by {
            assert p == [p[0]] + p[1..] && dir == [dir[0]] + dir[1..];
          }
        } else if |dir| == 1 && |p| > 1 {
          assert p[..1] == dir;
        }
      }
    }
  }

  lemma OnlyViaIndex(entries: seq<Entry>, t: nat, p: Names)
    requires WellFormed(entries) && p != [] && t < |entries| && entries[t].name == p[0]
    ensures IsVisible(entries, p) <==> ShowsVia(entries[t], p)
  {
    if i :| 0 <= i < |entries| && ShowsVia(entries[i], p) {
      assert i == t;
    }
  }

  /** A directory above a visible entry stays visible when it is toggled. */
  lemma HiddenMeansBelow(entries: seq<Entry>, dir: Names, p: Names)
    requires WellFormed(entries) && Toggled(entries, dir).1 && IsVisible(entries, p)
    ensures !IsVisible(Toggled(entries, dir).0, p) ==>
      Below(p, dir) && IsVisible(Toggled(entries, dir).0, dir)
  {
    ToggleVisibility(entries, dir, p);
    if !IsVisible(Toggled(entries, dir).0, p) {
      AncestorsShow(entries, p, |dir|);
      assert p[..|dir|] == dir;
      ToggleVisibility(entries, dir, dir);
    }
  }

  // ---------- the project pane ----------

  /** The selected row is stored in 16 bits. */
  const MAX_ROWS := 0x1_0000
  type Row = n: nat | n < MAX_ROWS

  function Truncated(row: nat): Row { row % MAX_ROWS }

  /** The selection that storing the row of `p` gives. */
  ghost predicate Landed(rows: seq<Names>, p: Names, at: Row) {
    exists k | 0 <= k < |rows| :: rows[k] == p && at == Truncated(k)
  }

  /** The row stored is that of `p` exactly if `p` stands among the first 65536 rows. */
  lemma LandedIff(rows: seq<Names>, p: Names, at: Row)
    requires Distinct(rows) && Landed(rows, p, at)
    ensures at < |rows|
    ensures rows[at] == p <==> exists k | 0 <= k < |rows| && k < MAX_ROWS :: rows[k] == p
  {
    var k :| 0 <= k < |rows| && rows[k] == p && at == Truncated(k);
    assert k < MAX_ROWS ==> at == k;
    if k >= MAX_ROWS {
      assert at < k;
    }
  }

  /** Files with different names, one `a` more each. */
  function Files(n: nat): (files: seq<Entry>)
    ensures |files| == n && WellFormed(files)
    ensures forall i | 0 <= i < n :: !files[i].isDir && |files[i].name| == i + 1
  {
    seq(n, i requires 0 <= i < n => Entry(seq(i + 1, _ => 'a'), false, [], true))
  }

  lemma {:induction false} FileRows(files: seq<Entry>)
    requires forall i | 0 <= i < |files| :: !files[i].isDir
    ensures |Visible(files)| == |files| && forall i | 0 <= i < |files| :: Visible(files)[i] == [files[i].name]
    decreases |files|
  {
    if files != [] {
      FileRows(files[1..]);
      OneEntry(files[0]);
      VisibleAppend([files[0]], files[1..]);
      assert files == [files[0]] + files[1..];
    }
  }

  /**
   Rows do get that far down: below a collapsed directory of 65536 files another file is selected,
   and expanding the directory moves the selection into it, though the file is still visible.
   */
  lemma SelectionJumps() returns (entries: seq<Entry>, dir: Names, selected: Names)
    ensures WellFormed(entries) && Toggled(entries, dir).1
    ensures |Visible(entries)| == 2 && Visible(entries)[1] == selected
    ensures var rows := Visible(Toggled(entries, dir).0);
            && |rows| == MAX_ROWS + 2 && rows[MAX_ROWS + 1] == selected
            && Truncated(MAX_ROWS + 1) == 1 && rows[1] != selected
  {
    var files := Files(MAX_ROWS);
    entries, dir, selected := LargeDirectory(files);
  }

  lemma LargeDirectory(files: seq<Entry>) returns (entries: seq<Entry>, dir: Names, selected: Names)
    requires WellFormed(files) && files != [] && forall i | 0 <= i < |files| :: !files[i].isDir
    ensures WellFormed(entries) && Toggled(entries, dir).1
    ensures |Visible(entries)| == 2 && Visible(entries)[1] == selected
    ensures var rows := Visible(Toggled(entries, dir).0);
            |rows| == |files| + 2 && rows[|files| + 1] == selected && rows[1] != selected
  {
    hide Visible, Shown, Toggled, WellFormed;
    var collapsed, open := Entry("d", true, files, false), Entry("d", true, files, true);
    var other := Entry("e", false, [], true);
    entries, dir, selected := [collapsed, other], ["d"], ["e"];
    FileRows(files);
    PairWellFormed(collapsed, other);
    TwoRows(collapsed, other);
    TwoRows(open, other);
    ExpandFirst(collapsed, other);
    assert open == collapsed.(isExpanded := true);
  }

  lemma PairWellFormed(a: Entry, b: Entry)
    requires a.isDir && WellFormed(a.children) && !b.isDir && b.children == [] && a.name != b.name
    ensures WellFormed([a, b])
  {
  }

  lemma ExpandFirst(a: Entry, b: Entry)
    requires a.isDir && !a.isExpanded
    ensures Toggled([a, b], [a.name]) == ([a.(isExpanded := true), b], true)
  {
    assert IndexOf([a, b], a.name) == 0;
    assert [a, b][0 := a.(isExpanded := true)] == [a.(isExpanded := true), b];
  }

  lemma TwoRows(a: Entry, b: Entry)
    requires !b.isDir
    ensures Visible([a, b]) == Shown(a) + [[b.name]]
    ensures |Shown(a)| == 1 + if a.Open() then |Visible(a.children)| else 0
    ensures a.Open() ==> forall k | 0 <= k < |Visible(a.children)| :: Shown(a)[k + 1] == [a.name] + Visible(a.children)[k]
  {
    VisibleAppend([a], [b]);
    assert [a] + [b] == [a, b];
    OneEntry(a);
    OneEntry(b);
    ShownRows(a);
  }

  class Project {
    const root: Names
    var entries: seq<Entry>
    var selectedRow: Row

    constructor (root: Names, entries: seq<Entry>)
      ensures this.root == root && this.entries == entries && selectedRow == 0
    {
      this.root, this.entries, selectedRow := root, entries, 0;
    }

    /** Toggle the directory at an absolute path; paths outside the root and the root itself do nothing. */
    method TogglePath(target: Names) returns (done: bool)
      modifies this`entries
      ensures root < target ==> (entries, done) == Toggled(old(entries), target[|root|..])
      ensures !(root < target) ==> !done && entries == old(entries)
    {
      if !(root <= target) || |target| == |root| {
        return false;
      }
      entries, done := Toggle(entries, target[|root|..]);
    }

    /** Where the selection should go: to the entry selected before, or to the toggled directory. */
    ghost predicate Follows(selected: Names, dir: Names)
      reads this
    {
      var rows := Visible(entries);
      var wanted := if selected in rows then selected else dir;
      && Landed(rows, wanted, selectedRow) && selectedRow < |rows|
      && (rows[selectedRow] == wanted <==> exists k | 0 <= k < |rows| && k < MAX_ROWS :: rows[k] == wanted)
    }

    /**
     The entry selected before stays selected if it is still visible; if the toggle hid it, the
     toggled directory is selected. Either happens exactly if the row fits into 16 bits.
     */
    method ToggleDir(path: Names)
      requires WellFormed(entries)
      modifies this
      ensures WellFormed(entries)
      ensures entries == if root < path then Toggled(old(entries), path[|root|..]).0 else old(entries)
      ensures !(root < path && Toggled(old(entries), path[|root|..]).1) ==> selectedRow == old(selectedRow)
      ensures root < path && Toggled(old(entries), path[|root|..]).1 && old(selectedRow) < |Visible(old(entries))| ==>
        Follows(Visible(old(entries))[old(selectedRow)], path[|root|..])
      ensures root < path && Toggled(old(entries), path[|root|..]).1 && old(selectedRow) >= |Visible(old(entries))| ==>
        if path[|root|..] in Visible(entries) then Follows(path[|root|..], path[|root|..])
        else selectedRow == if 0 < |Visible(entries)| <= old(selectedRow) then |Visible(entries)| - 1 else old(selectedRow)
    {
      ghost var before := entries;
      var selected := EntryPathAtRow(entries, selectedRow);
      var toggled := TogglePath(path);
      if toggled {
        var names := path[|root|..];
        ToggleKeepsShape(before, names);
        if selected.Some? {
          VisibleMeansShown(before, selected.value);
          VisibleMeansShown(entries, selected.value);
          HiddenMeansBelow(before, names, selected.value);
          VisibleMeansShown(entries, names);
        }
        Reselect(selected, names);
      }
    }

    /** Find the entry that was selected, else the directory, else stay within the rows. */
    method Reselect(selected: Option<Names>, dir: Names)
      requires WellFormed(entries)
      requires selected.Some? && selected.value !in Visible(entries) ==> dir in Visible(entries)
      modifies this`selectedRow
      ensures selected.Some? ==> Follows(selected.value, dir)
      ensures selected.None? && dir in Visible(entries) ==> Follows(dir, dir)
      ensures selected.None? && dir !in Visible(entries) ==>
        selectedRow == if 0 < |Visible(entries)| <= old(selectedRow) then |Visible(entries)| - 1 else old(selectedRow)
    {
      hide Visible, WellFormed;
      RowsAreDistinct(entries);
      var newRow: Option<nat> := None;
      if selected.Some? {
        newRow := RowForEntryPath(entries, selected.value);
      }
      if newRow.None? {
        newRow := RowForEntryPath(entries, dir);
      }
      if newRow.Some? {
        selectedRow := Truncated(newRow.value);
        LandedIff(Visible(entries), Visible(entries)[newRow.value], selectedRow);
      } else {
        var n := VisibleEntryCount(entries);
        if n > 0 && selectedRow >= n {
          selectedRow := Truncated(n - 1);
        }
      }
    }
  }
}
