/** The counts of the branch grid and the list a branch opens (internal/web/static/app.js). */
module BranchCounts {
  import opened Text
  import opened Audit
  import opened Catalogue

  /** The filters of the explorer: a method, or none, and whether deprecated operations are asked for. */
  datatype Filter = Filter(verb: string, deprecated: bool)

  predicate Passes(f: Filter, op: Operation) {
    (f.deprecated || !op.deprecated) && (f.verb == "" || op.verb == f.verb)
  }

  function Passing(f: Filter, ops: seq<Operation>): (r: seq<Operation>)
    ensures forall op :: op in r <==> op in ops && Passes(f, op)
  {
    if ops == [] then []
    else (if Passes(f, ops[0]) then [ops[0]] else []) + Passing(f, ops[1..])
  }

  predicate Kept(f: Filter, route: Route) {
    exists i :: 0 <= i < |route.operations| && Passes(f, route.operations[i])
  }

  predicate InBranch(path: string, branch: string) {
    Within(path, branch)
  }

  /** The routes a branch opens: every one when no branch is chosen, else those at or under it that
      keep an operation, each with the operations it keeps. */
  function Selected(routes: seq<Route>, branch: string, f: Filter): seq<Route> {
    if routes == [] then []
    else
      var last := routes[|routes| - 1];
      Selected(routes[..|routes| - 1], branch, f)
      + (if (branch == "" || InBranch(last.path, branch)) && Passing(f, last.operations) != []
         then [Route(last.path, Passing(f, last.operations))] else [])
  }

  /** The list as it is drawn, without a search text: as many rows as the budget, and the total. */
  method Found(routes: seq<Route>, branch: string, f: Filter, budget: nat) returns (shown: seq<Route>, total: nat)
    ensures total == |Selected(routes, branch, f)|
    ensures shown == if total < budget then Selected(routes, branch, f) else Selected(routes, branch, f)[..budget]
  {
    shown, total := [], 0;
    ghost var selected: seq<Route> := [];
    assert routes[..0] == [];
    for i := 0 to |routes|
      invariant selected == Selected(routes[..i], branch, f)
      invariant total == |selected|
      invariant shown == if total < budget then selected else selected[..budget]
    {
      assert routes[..i + 1][..i] == routes[..i];
      assert routes[..i + 1][i] == routes[i];
      if branch != "" && !InBranch(routes[i].path, branch) {
        continue;
      }
      var operations := Passing(f, routes[i].operations);
      if operations == [] {
        continue;
      }
      total := total + 1;
      selected := selected + [Route(routes[i].path, operations)];
      if |shown| < budget {
        shown := shown + [Route(routes[i].path, operations)];
      }
    }
    assert routes[..|routes|] == routes;
  }

  /** Some route of the list has the path and the operation. */
  ghost predicate Lists(routes: seq<Route>, path: string, op: Operation) {
    exists r :: r in routes && r.path == path && op in r.operations
  }

  /** A branch opens to exactly the operations of the routes at or under it, of the method asked for
      and in use unless deprecated ones are asked for too. */
  lemma {:induction false} SelectedExactly(routes: seq<Route>, branch: string, f: Filter, path: string, op: Operation)
    ensures Lists(Selected(routes, branch, f), path, op)
            <==> && Lists(routes, path, op)
                 && (branch == "" || path == branch || branch + "/" <= path)
                 && (op.deprecated ==> f.deprecated) && (f.verb == "" || f.verb == op.verb)
  {
    if routes != [] {
      var init, last := routes[..|routes| - 1], routes[|routes| - 1];
      SelectedExactly(init, branch, f, path, op);
      var passing := Passing(f, last.operations);
      var more := if (branch == "" || InBranch(last.path, branch)) && passing != []
                  then [Route(last.path, passing)] else [];
      assert routes == init + [last];
      ListsBoth(init, [last], path, op);
      ListsBoth(Selected(init, branch, f), more, path, op);
      ListsOne(last, path, op);
      if more != [] {
        ListsOne(more[0], path, op);
        assert more == [more[0]];
      }
    }
  }

  lemma ListsBoth(a: seq<Route>, b: seq<Route>, path: string, op: Operation)
    ensures Lists(a + b, path, op) <==> Lists(a, path, op) || Lists(b, path, op)
  {
  }

  lemma ListsOne(route: Route, path: string, op: Operation)
    ensures Lists([route], path, op) <==> route.path == path && op in route.operations
  {
    assert route in [route];
  }

  /** The list follows the catalogue. */
  lemma {:induction false} SelectedInOrder(routes: seq<Route>, more: seq<Route>, branch: string, f: Filter)
    ensures Selected(routes + more, branch, f) == Selected(routes, branch, f) + Selected(more, branch, f)
  {
    if more == [] {
      assert routes + more == routes;
    } else {
      var init, last := LastApart(routes, more);
      SelectedInOrder(routes, init, branch, f);
      SelectedOfOneMore(routes + init, last, branch, f);
      SelectedOfOneMore(init, last, branch, f);
      Regrouped(Selected(routes, branch, f), Selected(init, branch, f), Selected([last], branch, f));
    }
  }

  lemma SelectedOfOneMore(routes: seq<Route>, route: Route, branch: string, f: Filter)
    ensures Selected(routes + [route], branch, f) == Selected(routes, branch, f) + Selected([route], branch, f)
  {
    assert (routes + [route])[..|routes|] == routes && [route][..0] == [];
  }

  // The tally

  /** The branch is one of the starts of a path, cut at a slash behind its second segment or later. */
  predicate Starts(segments: seq<string>, n: nat, branch: string) {
    exists end :: 2 <= end <= n && end <= |segments| && Join(segments[..end], "/") == branch
  }

  function Tally(routes: seq<Route>, branch: string, f: Filter): nat {
    if routes == [] then 0
    else
      var last := routes[|routes| - 1];
      var segments := Split(last.path, '/');
      Tally(routes[..|routes| - 1], branch, f)
      + (if Kept(f, last) && Starts(segments, |segments|, branch) then 1 else 0)
  }

  function Get(counts: map<string, nat>, branch: string): nat {
    if branch in counts then counts[branch] else 0
  }

  /** One pass over the routes, counting each under every known branch its path starts with. */
  method CountBranches(branches: seq<string>, routes: seq<Route>, f: Filter) returns (counts: map<string, nat>)
    ensures forall b :: Get(counts, b) == if b in branches then Tally(routes, b, f) else 0
  {
    var known := set b | b in branches;
    counts := map[];
    assert routes[..0] == [];
    for i := 0 to |routes|
      invariant forall b :: Get(counts, b) == if b in known then Tally(routes[..i], b, f) else 0
    {
      assert routes[..i + 1][..i] == routes[..i];
      if !Kept(f, routes[i]) {
        continue;
      }
      var segments := Split(routes[i].path, '/');
      counts := CountRoute(counts, known, segments);
    }
    assert routes[..|routes|] == routes;
  }

  method CountRoute(before: map<string, nat>, known: set<string>, segments: seq<string>)
    returns (counts: map<string, nat>)
    requires |segments| >= 1
    ensures forall b :: Get(counts, b) ==
                        Get(before, b) + if b in known && Starts(segments, |segments|, b) then 1 else 0
  {
    counts := before;
    var end := 2;
    while end <= |segments|
      invariant 2 <= end
      invariant forall b :: Get(counts, b) ==
                            Get(before, b) + if b in known && Starts(segments, end - 1, b) then 1 else 0
    {
      var prefix := Join(segments[..end], "/");
      StartsMore(segments, end);
      if prefix in known {
        counts := counts[prefix := Get(counts, prefix) + 1];
      }
      end := end + 1;
    }
  }

  lemma {:induction false} LongerStart(segments: seq<string>, e: nat, n: nat)
    requires 1 <= e < n <= |segments|
    ensures |Join(segments[..e], "/")| < |Join(segments[..n], "/")|
  {
    assert segments[..n] == segments[..e] + segments[e..n];
    JoinConcat(segments[..e], segments[e..n], "/");
  }

  /** Each longer start is a new one. */
  lemma StartsMore(segments: seq<string>, end: nat)
    requires 2 <= end <= |segments|
    ensures forall b :: Starts(segments, end, b) <==> Starts(segments, end - 1, b) || b == Join(segments[..end], "/")
    ensures !Starts(segments, end - 1, Join(segments[..end], "/"))
  {
    forall e | 2 <= e < end ensures Join(segments[..e], "/") != Join(segments[..end], "/") {
      LongerStart(segments, e, end);
    }
    forall b ensures Starts(segments, end, b) <==> Starts(segments, end - 1, b) || b == Join(segments[..end], "/") {
      if e :| 2 <= e <= end && Join(segments[..e], "/") == b {
        assert e < end ==> Starts(segments, end - 1, b);
      }
    }
  }

  /** For a branch with a slash in it, starting a path and holding it are the same. */
  lemma StartsMeansInBranch(path: string, branch: string)
    requires '/' in branch
    ensures Starts(Split(path, '/'), |Split(path, '/')|, branch) <==> InBranch(path, branch)
  {
    if InBranch(path, branch) {
      InBranchStarts(path, branch);
    }
    if Starts(Split(path, '/'), |Split(path, '/')|, branch) {
      StartsInBranch(path, branch);
    }
  }

  lemma InBranchStarts(path: string, branch: string)
    requires '/' in branch && InBranch(path, branch)
    ensures Starts(Split(path, '/'), |Split(path, '/')|, branch)
  {
    var segments, own := Split(path, '/'), Split(branch, '/');
    JoinSplit(branch, '/');
    SplitWithoutSeparator(branch, '/');
    if path != branch {
      var rest := path[|branch| + 1..];
      assert path == branch + ['/'] + rest;
      SplitConcat(branch, rest, '/');
    }
    assert segments[..|own|] == own && ['/'] == "/";
  }

  lemma StartsInBranch(path: string, branch: string)
    requires Starts(Split(path, '/'), |Split(path, '/')|, branch)
    ensures InBranch(path, branch)
  {
    var segments := Split(path, '/');
    JoinSplit(path, '/');
    assert ['/'] == "/";
    var end :| 2 <= end <= |segments| && Join(segments[..end], "/") == branch;
    if end < |segments| {
      assert segments == segments[..end] + segments[end..];
      JoinConcat(segments[..end], segments[end..], "/");
    } else {
      assert segments[..end] == segments;
    }
  }

  lemma KeptMeansPassing(f: Filter, route: Route)
    ensures Kept(f, route) <==> Passing(f, route.operations) != []
  {
    if i :| 0 <= i < |route.operations| && Passes(f, route.operations[i]) {
      assert route.operations[i] in Passing(f, route.operations);
    }
    if Passing(f, route.operations) != [] {
      assert Passing(f, route.operations)[0] in route.operations;
    }
  }

  lemma {:induction false} TallyIsTheList(routes: seq<Route>, branch: string, f: Filter)
    requires '/' in branch
    ensures Tally(routes, branch, f) == |Selected(routes, branch, f)|
  {
    if routes != [] {
      var last := routes[|routes| - 1];
      TallyIsTheList(routes[..|routes| - 1], branch, f);
      StartsMeansInBranch(last.path, branch);
      KeptMeansPassing(f, last);
    }
  }

  /** The count shown on a branch is the length of the list it opens, for every catalogue and every
      filter, exactly when the branch has a slash in it. */
  lemma CountsAgreeWithLists(branch: string)
    ensures '/' in branch <==>
            forall routes: seq<Route>, f: Filter :: Tally(routes, branch, f) == |Selected(routes, branch, f)|
  {
    if '/' in branch {
      forall routes: seq<Route>, f: Filter ensures Tally(routes, branch, f) == |Selected(routes, branch, f)| {
        TallyIsTheList(routes, branch, f);
      }
    } else {
      var op := Operation("GET", "", false);
      var route, f := Route(branch, [op]), Filter("", false);
      var routes := [route];
      SplitWithoutSeparator(branch, '/');
      assert Passes(f, route.operations[0]);
      KeptMeansPassing(f, route);
      assert routes[..0] == [];
      assert Tally([], branch, f) == 0 && Selected([], branch, f) == [];
      assert Tally(routes, branch, f) == 0 && |Selected(routes, branch, f)| == 1;
    }
  }
}
