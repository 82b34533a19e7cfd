/** The processes that belong to the application (src-tauri/src/diagnostics/memory.rs). */
module Processes {
  import opened Basics

  /** One row of the process table: the table may hold orphans, duplicates and cycles. */
  datatype Process = Process(pid: nat, parent: Option<nat>, webview: bool)

  predicate Linked(row: Process, parent: nat, child: nat) {
    row.webview && row.parent == Some(parent) && row.pid == child
  }

  ghost predicate Edge(table: seq<Process>, parent: nat, child: nat) {
    exists row :: row in table && Linked(row, parent, child)
  }

  /** A way from the first process down to the last. */
  ghost predicate IsPath(table: seq<Process>, path: seq<nat>) {
    path != [] && forall i :: 0 <= i < |path| - 1 ==> Edge(table, path[i], path[i + 1])
  }

  ghost predicate Reaches(table: seq<Process>, root: nat, pid: nat) {
    exists path :: IsPath(table, path) && path[0] == root && path[|path| - 1] == pid
  }

  ghost predicate Closed(table: seq<Process>, pids: set<nat>) {
    forall p, c :: p in pids && Edge(table, p, c) ==> c in pids
  }

  lemma {:induction false} ReachesStep(table: seq<Process>, root: nat, parent: nat, child: nat)
    requires Reaches(table, root, parent) && Edge(table, parent, child)
    ensures Reaches(table, root, child)
  {
    var path :| IsPath(table, path) && path[0] == root && path[|path| - 1] == parent;
    assert IsPath(table, path + [child]);
  }

  lemma {:induction false} PathStays(table: seq<Process>, pids: set<nat>, path: seq<nat>)
    requires Closed(table, pids) && IsPath(table, path) && path[0] in pids
    ensures path[|path| - 1] in pids
  {
    if |path| > 1 {
      var before := path[..|path| - 1];
      assert IsPath(table, before);
      PathStays(table, pids, before);
      assert Edge(table, path[|path| - 2], path[|path| - 1]);
    }
  }

  /** The rows still to be followed list exactly the children of their process. */
  ghost predicate Lists(table: seq<Process>, children: map<nat, seq<nat>>) {
    forall p, c :: p in children && c in children[p] ==> Edge(table, p, c)
  }

  ghost predicate Indexes(table: seq<Process>, children: map<nat, seq<nat>>) {
    forall p, c :: Edge(table, p, c) ==> p in children && c in children[p]
  }

  /** One more row adds at most one edge. */
  lemma {:induction false} EdgesGrow(seen: seq<Process>, row: Process, p: nat, c: nat)
    ensures Edge(seen + [row], p, c) <==> Edge(seen, p, c) || Linked(row, p, c)
  {
    assert forall r :: r in seen + [row] <==> r in seen || r == row;
  }

  function WithRow(children: map<nat, seq<nat>>, row: Process): map<nat, seq<nat>> {
    if !row.webview || row.parent.None? then children
    else
      var siblings := if row.parent.value in children then children[row.parent.value] else [];
      children[row.parent.value := siblings + [row.pid]]
  }

  lemma {:induction false} IndexRow(seen: seq<Process>, children: map<nat, seq<nat>>, row: Process)
    requires Lists(seen, children) && Indexes(seen, children)
    ensures Lists(seen + [row], WithRow(children, row)) && Indexes(seen + [row], WithRow(children, row))
  {
    var after := WithRow(children, row);
    forall p, c ensures Edge(seen + [row], p, c) <==> p in after && c in after[p] {
      EdgesGrow(seen, row, p, c);
      assert Edge(seen, p, c) <==> p in children && c in children[p];
    }
  }

  method IndexChildren(table: seq<Process>) returns (children: map<nat, seq<nat>>)
    ensures Lists(table, children) && Indexes(table, children)
  {
    children := map[];
    for i := 0 to |table|
      invariant Lists(table[..i], children) && Indexes(table[..i], children)
    {
      var row := table[i];
      assert table[..i + 1] == table[..i] + [row];
      IndexRow(table[..i], children, row);
      if row.webview && row.parent.Some? {
        var siblings := if row.parent.value in children then children[row.parent.value] else [];
        children := children[row.parent.value := siblings + [row.pid]];
      }
    }
    assert table[..|table|] == table;
  }

  /** Selects the processes and keeps those not selected before for later. */
  method Select(selected: set<nat>, pending: seq<nat>, pids: seq<nat>) returns (all: set<nat>, later: seq<nat>)
    ensures forall p :: p in all <==> p in selected || p in pids
    ensures forall p :: p in later <==> p in pending || (p in pids && p !in selected)
  {
    all, later := selected, pending;
    for i := 0 to |pids|
      invariant forall p :: p in all <==> p in selected || p in pids[..i]
      invariant forall p :: p in later <==> p in pending || (p in pids[..i] && p !in selected)
    {
      assert pids[..i + 1] == pids[..i] + [pids[i]];
      if pids[i] !in all {
        all := all + {pids[i]};
        later := later + [pids[i]];
      }
    }
    assert pids[..|pids|] == pids;
  }

  method DescendantPids(root: nat, table: seq<Process>) returns (selected: set<nat>)
    ensures forall pid :: pid in selected <==> Reaches(table, root, pid)
  {
    var children := IndexChildren(table);
    selected := {root};
    var pending := [root];
    assert IsPath(table, [root]);
    while pending != []
      invariant root in selected && Lists(table, children)
      invariant forall p :: p in pending ==> p in selected
      invariant forall p :: p in selected ==> Reaches(table, root, p)
      invariant forall p, c :: Edge(table, p, c) && p in children ==> c in children[p]
      invariant forall p, c :: Edge(table, p, c) && p !in children ==> c in selected
      invariant forall p :: p in selected && p in children ==> p in pending
      decreases |children|, |pending|
    {
      var parent := pending[|pending| - 1];
      var before := pending;
      pending := pending[..|pending| - 1];
      assert forall p :: p in before <==> p in pending || p == parent;
      if parent in children {
        var pids := children[parent];
        forall c | c in pids ensures Reaches(table, root, c) {
          ReachesStep(table, root, parent, c);
        }
        children := children - {parent};
        selected, pending := Select(selected, pending, pids);
      }
    }
    forall pid | Reaches(table, root, pid) ensures pid in selected {
      ReachesClosed(table, root, selected, pid);
    }
  }

  /** A closed set that holds the root holds everything below it. */
  lemma {:induction false} ReachesClosed(table: seq<Process>, root: nat, pids: set<nat>, pid: nat)
    requires Closed(table, pids) && root in pids && Reaches(table, root, pid)
    ensures pid in pids
  {
    var path :| IsPath(table, path) && path[0] == root && path[|path| - 1] == pid;
    PathStays(table, pids, path);
  }

  /** The reachable processes are the least set that holds the root and is closed under edges. */
  lemma {:induction false} LeastClosed(table: seq<Process>, root: nat, selected: set<nat>)
    requires forall pid :: pid in selected <==> Reaches(table, root, pid)
    ensures root in selected && Closed(table, selected)
    ensures forall pids: set<nat> :: root in pids && Closed(table, pids) ==> selected <= pids
  {
    assert IsPath(table, [root]);
    forall p, c | p in selected && Edge(table, p, c) ensures c in selected {
      ReachesStep(table, root, p, c);
    }
    forall pids: set<nat> | root in pids && Closed(table, pids) ensures selected <= pids {
      forall pid | pid in selected ensures pid in pids {
        ReachesClosed(table, root, pids, pid);
      }
    }
  }
}
