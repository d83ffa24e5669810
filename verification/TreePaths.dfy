/**
 A project tree by its paths: which entries it has, which directories are expanded, what a toggle
 changes at which path, and when a path shows.
 */
module TreePaths {
  import opened ProjectTree

  /** The tree has an entry of this kind at this path. */
  ghost predicate Contains(entries: seq<Entry>, p: Names, isDir: bool)
    decreases p
  {
    p != [] && exists i | 0 <= i < |entries| :: At(entries[i], p, isDir)
  }

  ghost predicate At(e: Entry, p: Names, isDir: bool)
    requires p != []
    decreases p, 0
  {
    e.name == p[0] && if |p| == 1 then e.isDir == isDir else Contains(e.children, p[1..], isDir)
  }

  /** The tree has an entry of this kind at this path, and this is its expansion flag. */
  ghost predicate Flagged(entries: seq<Entry>, p: Names, isDir: bool, flag: bool)
    decreases p
  {
    p != [] && exists i | 0 <= i < |entries| :: FlaggedVia(entries[i], p, isDir, flag)
  }

  ghost predicate FlaggedVia(e: Entry, p: Names, isDir: bool, flag: bool)
    requires p != []
    decreases p, 0
  {
    e.name == p[0]
    && if |p| == 1 then e.isDir == isDir && e.isExpanded == flag else Flagged(e.children, p[1..], isDir, flag)
  }

  // ---------- one way to every entry ----------

  lemma ContainsByIndex(entries: seq<Entry>, t: nat, p: Names, isDir: bool)
    requires WellFormed(entries) && p != [] && t < |entries| && entries[t].name == p[0]
    ensures Contains(entries, p, isDir) <==> At(entries[t], p, isDir)
  {
    if i :| 0 <= i < |entries| && At(entries[i], p, isDir) {
      assert i == t;
    }
  }

  lemma FlaggedByIndex(entries: seq<Entry>, t: nat, p: Names, isDir: bool, flag: bool)
    requires WellFormed(entries) && p != [] && t < |entries| && entries[t].name == p[0]
    ensures Flagged(entries, p, isDir, flag) <==> FlaggedVia(entries[t], p, isDir, flag)
  {
    if i :| 0 <= i < |entries| && FlaggedVia(entries[i], p, isDir, flag) {
      assert i == t;
    }
  }

  lemma {:induction false} ContainedIsFlagged(entries: seq<Entry>, p: Names, isDir: bool)
    ensures Contains(entries, p, isDir) <==> Flagged(entries, p, isDir, true) || Flagged(entries, p, isDir, false)
    decreases p
  {
    if p != [] {
      forall i | 0 <= i < |entries|
        ensures At(entries[i], p, isDir) <==>
          FlaggedVia(entries[i], p, isDir, true) || FlaggedVia(entries[i], p, isDir, false)
      {
        if |p| > 1 {
          ContainedIsFlagged(entries[i].children, p[1..], isDir);
        }
      }
    }
  }

  lemma {:induction false} OneFlag(entries: seq<Entry>, p: Names, isDir: bool)
    requires WellFormed(entries)
    ensures !(Flagged(entries, p, isDir, true) && Flagged(entries, p, isDir, false))
    decreases p
  {
    if i :| p != [] && 0 <= i < |entries| && FlaggedVia(entries[i], p, isDir, true) {
      FlaggedByIndex(entries, i, p, isDir, false);
      if |p| > 1 {
        OneFlag(entries[i].children, p[1..], isDir);
      }
    }
  }

  // ---------- toggling ----------

  /** A toggle succeeds exactly if the tree has a directory at that path. */
  lemma {:induction false} ToggleSucceeds(entries: seq<Entry>, dir: Names)
    requires WellFormed(entries)
    ensures Toggled(entries, dir).1 <==> Contains(entries, dir, true)
    decreases dir
  {
    if dir != [] {
      var t := IndexOf(entries, dir[0]);
      if t < |entries| {
        ContainsByIndex(entries, t, dir, true);
        if |dir| > 1 {
          ToggleSucceeds(entries[t].children, dir[1..]);
        }
      }
    }
  }

  /** It negates the flag at exactly that path. */
  lemma {:induction false} ToggleFlipsOne(entries: seq<Entry>, dir: Names, p: Names, isDir: bool, flag: bool)
    requires WellFormed(entries) && Toggled(entries, dir).1
    ensures Flagged(Toggled(entries, dir).0, p, isDir, flag)
       <==> Flagged(entries, p, isDir, if p == dir then !flag else flag)
    decreases dir
  {
    if p != [] {
      var entries', t := Toggled(entries, dir).0, IndexOf(entries, dir[0]);
      ToggleKeepsShape(entries, dir);
      if p[0] != dir[0] {
        OthersUntouched(entries, dir, p, isDir, flag);
      } else {
        var flag' := if p == dir then !flag else flag;
        FlaggedByIndex(entries, t, p, isDir, flag');
        FlaggedByIndex(entries', t, p, isDir, flag);
        assert p == [p[0]] + p[1..] && dir == [dir[0]] + dir[1..];
        if |dir| > 1 && |p| > 1 {
          ToggleFlipsOne(entries[t].children, dir[1..], p[1..], isDir, flag);
        }
      }
    }
  }

  lemma OthersUntouched(entries: seq<Entry>, dir: Names, p: Names, isDir: bool, flag: bool)
    requires WellFormed(entries) && Toggled(entries, dir).1 && p != [] && p[0] != dir[0]
    ensures Flagged(Toggled(entries, dir).0, p, isDir, flag) <==> Flagged(entries, p, isDir, flag)
  {
    var entries', t := Toggled(entries, dir).0, IndexOf(entries, dir[0]);
    assert |entries'| == |entries| && forall i | 0 <= i < |entries| && i != t :: entries'[i] == entries[i];
    assert entries'[t].name == entries[t].name == dir[0];
    if i :| 0 <= i < |entries| && FlaggedVia(entries[i], p, isDir, flag) {
      assert FlaggedVia(entries'[i], p, isDir, flag);
    }
  }

  // ---------- when a path shows ----------

  ghost predicate Present(entries: seq<Entry>, p: Names) {
    Contains(entries, p, true) || Contains(entries, p, false)
  }

  /** All proper ancestors, except perhaps the one of length `but`, are expanded directories. */
  ghost predicate Expanded(entries: seq<Entry>, p: Names, but: nat) {
    forall k | 0 < k < |p| && k != but :: Flagged(entries, p[..k], true, true)
  }

  /** A path shows exactly if the tree has it and every directory above it is expanded. */
  lemma {:induction false} VisibleIffExpanded(entries: seq<Entry>, p: Names)
    requires WellFormed(entries)
    ensures IsVisible(entries, p) <==> Present(entries, p) && Expanded(entries, p, 0)
    decreases p
  {
    if p != [] {
      if t :| 0 <= t < |entries| && entries[t].name == p[0] {
        OnlyViaIndex(entries, t, p);
        ContainsByIndex(entries, t, p, true);
        ContainsByIndex(entries, t, p, false);
        if |p| > 1 {
          VisibleIffExpanded(entries[t].children, p[1..]);
          ExpandedBelow(entries, t, p);
        }
      } else {
        AbsentHidden(entries, p);
      }
    }
  }

  lemma AbsentHidden(entries: seq<Entry>, p: Names)
    requires p != [] && forall i | 0 <= i < |entries| :: entries[i].name != p[0]
    ensures !IsVisible(entries, p) && !Present(entries, p)
  {
    AbsentNotContained(entries, p, true);
    AbsentNotContained(entries, p, false);
  }

  lemma AbsentNotContained(entries: seq<Entry>, p: Names, isDir: bool)
    requires p != [] && forall i | 0 <= i < |entries| :: entries[i].name != p[0]
    ensures !Contains(entries, p, isDir)
  {
    forall i | 0 <= i < |entries| ensures !At(entries[i], p, isDir) {
    }
  }

  lemma ExpandedBelow(entries: seq<Entry>, t: nat, p: Names)
    requires WellFormed(entries) && |p| > 1 && t < |entries| && entries[t].name == p[0]
    ensures Expanded(entries, p, 0) <==> entries[t].Open() && Expanded(entries[t].children, p[1..], 0)
  {
    FlaggedByIndex(entries, t, p[..1], true, true);
    forall k | 0 < k < |p| - 1
      ensures Flagged(entries, p[..k + 1], true, true) <==> Flagged(entries[t].children, p[1..][..k], true, true)
    {
      FlaggedByIndex(entries, t, p[..k + 1], true, true);
      assert p[..k + 1][1..] == p[1..][..k];
    }
    if Expanded(entries, p, 0) {
      assert Flagged(entries, p[..1], true, true);
      forall k | 0 < k < |p| - 1 ensures Flagged(entries[t].children, p[1..][..k], true, true) {
        assert Flagged(entries, p[..k + 1], true, true);
      }
    }
    if entries[t].Open() && Expanded(entries[t].children, p[1..], 0) {
      forall k | 0 < k < |p| ensures Flagged(entries, p[..k], true, true) {
        if k > 1 {
          assert Flagged(entries[t].children, p[1..][..k - 1], true, true);
        }
      }
    }
  }

  /** Toggling shows exactly what only the flag of that directory had hidden below it. */
  lemma ToggleShows(entries: seq<Entry>, dir: Names, p: Names)
    requires WellFormed(entries) && Toggled(entries, dir).1 && dir < p
    ensures IsVisible(Toggled(entries, dir).0, p)
       <==> Flagged(entries, dir, true, false) && Present(entries, p) && Expanded(entries, p, |dir|)
  {
    var entries' := Toggled(entries, dir).0;
    ToggleKeepsShape(entries, dir);
    VisibleIffExpanded(entries', p);
    SamePresent(entries, dir, p);
    forall k | 0 < k < |p|
      ensures Flagged(entries', p[..k], true, true) <==> Flagged(entries, p[..k], true, k != |dir|)
    {
      ToggleFlipsOne(entries, dir, p[..k], true, true);
      assert p[..k] == dir <==> k == |dir|;
    }
    assert p[..|dir|] == dir && 0 < |dir|;
    if Expanded(entries', p, 0) {
      assert Flagged(entries', p[..|dir|], true, true);
      forall k | 0 < k < |p| && k != |dir| ensures Flagged(entries, p[..k], true, true) {
        assert Flagged(entries', p[..k], true, true);
      }
    }
  }

  lemma SamePresent(entries: seq<Entry>, dir: Names, p: Names)
    requires WellFormed(entries) && Toggled(entries, dir).1
    ensures Present(Toggled(entries, dir).0, p) <==> Present(entries, p)
  {
    forall d: bool ensures Contains(Toggled(entries, dir).0, p, d) <==> Contains(entries, p, d) {
      ContainedIsFlagged(entries, p, d);
      ContainedIsFlagged(Toggled(entries, dir).0, p, d);
      ToggleFlipsOne(entries, dir, p, d, true);
      ToggleFlipsOne(entries, dir, p, d, false);
    }
  }
}
