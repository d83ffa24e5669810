/** The descendants of a process, found by scanning a snapshot of (process, parent) pairs to a fixpoint. */
module ProcessClosure {

  type Pid = nat
  type Snapshot = seq<(Pid, Pid)>  // process and its parent

  ghost predicate Closed(entries: Snapshot, owned: set<Pid>) {
    forall i | 0 <= i < |entries| :: entries[i].1 in owned ==> entries[i].0 in owned
  }

  ghost predicate LeastClosed(entries: Snapshot, start: set<Pid>, owned: set<Pid>) {
    && start <= owned && Closed(entries, owned)
    && forall t: set<Pid> | start <= t && Closed(entries, t) :: owned <= t
  }

  /** Works for every snapshot, parent cycles and reused identifiers included. */
  method OwnedProcesses(entries: Snapshot, start: set<Pid>) returns (owned: set<Pid>)
    ensures LeastClosed(entries, start, owned)
  {
    owned := start;
    ghost var universe := start + set i | 0 <= i < |entries| :: entries[i].0;
    var changed := true;
    while changed
      invariant start <= owned <= universe
      invariant forall t: set<Pid> | start <= t && Closed(entries, t) :: owned <= t
      invariant !changed ==> Closed(entries, owned)
      decreases universe - owned, changed
    {
      changed := false;
      ghost var before := owned;
      for i := 0 to |entries|
        invariant start <= owned <= universe && before <= owned
        invariant changed <==> owned != before
        invariant forall t: set<Pid> | start <= t && Closed(entries, t) :: owned <= t
        invariant !changed ==> forall j | 0 <= j < i :: entries[j].1 in owned ==> entries[j].0 in owned
      {
        var (process, parent) := entries[i];
        if parent in owned && process !in owned {
          assert entries[i].0 in universe;
          owned := owned + {process};
          changed := true;
        }
      }
      if changed {
        assert universe - owned < universe - before by {
          var p :| p in owned && p !in before;
          assert p in universe - before && p !in universe - owned;
        }
      }
    }
  }

  /** A line of descent: each process is listed with the one before it as its parent. */
  ghost predicate Descent(entries: Snapshot, line: seq<Pid>) {
    line != [] && forall k | 0 < k < |line| :: (line[k], line[k - 1]) in entries
  }

  /** The fixpoint is exactly the processes that descend from the starting set. */
  lemma OwnedMeansDescendant(entries: Snapshot, start: set<Pid>, owned: set<Pid>, p: Pid)
    requires LeastClosed(entries, start, owned)
    ensures p in owned <==> exists line :: Descent(entries, line) && line[0] in start && line[|line| - 1] == p
  {
    var reached := set q | q in owned
      && exists line :: Descent(entries, line) && line[0] in start && line[|line| - 1] == q;
    forall q | q in start ensures q in reached {
      assert Descent(entries, [q]) && [q][0] in start && [q][|[q]| - 1] == q;
    }
    forall i | 0 <= i < |entries| && entries[i].1 in reached ensures entries[i].0 in reached {
      var line :| Descent(entries, line) && line[0] in start && line[|line| - 1] == entries[i].1;
      var longer := line + [entries[i].0];
      assert entries[i] in entries && entries[i] == (longer[|line|], longer[|line| - 1]);
      assert Descent(entries, longer) && longer[0] in start && longer[|longer| - 1] == entries[i].0;
    }
    assert start <= reached && Closed(entries, reached);
    forall line | Descent(entries, line) && line[0] in start && line[|line| - 1] == p ensures p in owned {
      DescentStaysIn(entries, owned, line);
    }
  }

  lemma {:induction false} DescentStaysIn(entries: Snapshot, owned: set<Pid>, line: seq<Pid>)
    requires Closed(entries, owned) && Descent(entries, line) && line[0] in owned
    ensures line[|line| - 1] in owned
    decreases |line|
  {
    var n := |line| - 1;
    if n > 0 {
      var shorter := line[..n];
      assert forall k | 0 < k < n :: (shorter[k], shorter[k - 1]) == (line[k], line[k - 1]);
      DescentStaysIn(entries, owned, shorter);
      var i :| 0 <= i < |entries| && entries[i] == (line[n], line[n - 1]);
    }
  }
}
