/** The catalogue: the routes of every branch merged into one ordered list
    (internal/catalog/schema.go), fetched whole or not at all (internal/catalog/remote.go). */
module Catalogue {
  import opened Credentials
  import opened Sorting
  import opened Pool

  datatype Operation = Operation(verb: string, description: string, deprecated: bool)

  datatype Route = Route(path: string, operations: seq<Operation>)

  function Verb(op: Operation): string {
    op.verb
  }

  function Path(route: Route): string {
    route.path
  }

  // What a list of routes says about a path and a method

  /** The first operation of a method. */
  function FirstOp(ops: seq<Operation>, verb: string): (op: Option<Operation>)
    ensures op.Some? ==> op.value in ops && op.value.verb == verb
    ensures op.None? ==> forall o :: o in ops ==> o.verb != verb
  {
    if ops == [] then None
    else if ops[0].verb == verb then Some(ops[0])
    else FirstOp(ops[1..], verb)
  }

  /** The first operation of a method on a path. */
  function First(routes: seq<Route>, path: string, verb: string): (op: Option<Operation>)
    ensures op.Some? ==> op.value.verb == verb && exists r :: r in routes && r.path == path && op.value in r.operations
  {
    if routes == [] then None
    else if routes[0].path == path && FirstOp(routes[0].operations, verb).Some? then
      assert routes[0] in routes;
      FirstOp(routes[0].operations, verb)
    else First(routes[1..], path, verb)
  }

  /** Paths in order and once each, each with its methods in order and once each. */
  predicate Normal(routes: seq<Route>) {
    && StrictlyAscending(routes, Path)
    && forall i :: 0 <= i < |routes| ==>
         routes[i].operations != [] && StrictlyAscending(routes[i].operations, Verb)
  }

  /** The merge of some routes: a normal list holding exactly their paths and methods, each
      operation the first one seen. */
  ghost predicate IsMerge(sources: seq<Route>, merged: seq<Route>) {
    Normal(merged) && forall path, verb :: First(merged, path, verb) == First(sources, path, verb)
  }

  function Flatten(batches: seq<seq<Route>>): seq<Route> {
    if batches == [] then [] else batches[0] + Flatten(batches[1..])
  }

  /** The operation at a place has the method on the path, and none listed before it has. */
  ghost predicate IsFirst(routes: seq<Route>, path: string, verb: string, i: nat, j: nat) {
    && Offers(routes, path, verb, i, j)
    && (forall l: nat :: l < j ==> !Offers(routes, path, verb, i, l))
    && (forall k: nat, l: nat :: k < i ==> !Offers(routes, path, verb, k, l))
  }

  predicate Offers(routes: seq<Route>, path: string, verb: string, i: nat, j: nat) {
    && i < |routes| && routes[i].path == path
    && j < |routes[i].operations| && routes[i].operations[j].verb == verb
  }

  lemma {:induction false} FirstOpPlace(ops: seq<Operation>, verb: string) returns (j: nat)
    requires FirstOp(ops, verb).Some?
    ensures j < |ops| && ops[j] == FirstOp(ops, verb).value
    ensures forall l: nat :: l < j ==> ops[l].verb != verb
  {
    if ops[0].verb == verb {
      j := 0;
    } else {
      j := FirstOpPlace(ops[1..], verb);
      j := j + 1;
      assert forall l: nat :: 0 < l < j ==> ops[l] == ops[1..][l - 1];
    }
  }

  /** What a list says of a path and a method is the operation at the first place that has them, and
      nothing when no place has. */
  lemma {:induction false} FirstExactly(routes: seq<Route>, path: string, verb: string)
    ensures First(routes, path, verb).None? <==> forall i: nat, j: nat :: !Offers(routes, path, verb, i, j)
    ensures First(routes, path, verb).Some? ==> exists i: nat, j: nat ::
              IsFirst(routes, path, verb, i, j) && First(routes, path, verb).value == routes[i].operations[j]
  {
    if routes != [] {
      var rest := routes[1..];
      assert forall k: nat, l: nat ::
          k > 0 ==> (Offers(routes, path, verb, k, l) <==> Offers(rest, path, verb, k - 1, l));
      if routes[0].path == path && FirstOp(routes[0].operations, verb).Some? {
        var j := FirstOpPlace(routes[0].operations, verb);
        assert IsFirst(routes, path, verb, 0, j);
      } else {
        assert forall l: nat :: !Offers(routes, path, verb, 0, l);
        FirstExactly(rest, path, verb);
        if First(rest, path, verb).Some? {
          var i: nat, j: nat :| IsFirst(rest, path, verb, i, j)
                                && First(rest, path, verb).value == rest[i].operations[j];
          FirstBehind(routes, path, verb, i, j);
        }
      }
    }
  }

  /** A first place in the tail is one in the list, when the head offers nothing. */
  lemma FirstBehind(routes: seq<Route>, path: string, verb: string, i: nat, j: nat)
    requires routes != [] && (forall l: nat :: !Offers(routes, path, verb, 0, l))
    requires IsFirst(routes[1..], path, verb, i, j)
    ensures IsFirst(routes, path, verb, i + 1, j) && routes[i + 1] == routes[1..][i]
  {
    var rest := routes[1..];
    forall k: nat, l: nat | k < i + 1 ensures !Offers(routes, path, verb, k, l) {
      if k > 0 {
        assert !Offers(rest, path, verb, k - 1, l);
      }
    }
    var next: nat := i + 1;
    forall l: nat | l < j ensures !Offers(routes, path, verb, next, l) {
      assert !Offers(rest, path, verb, i, l);
    }
  }

  // The merge is determined

  lemma {:induction false} FirstOpFinds(ops: seq<Operation>, i: nat)
    requires i < |ops| && forall j, k :: 0 <= j < k < |ops| ==> ops[j].verb != ops[k].verb
    ensures FirstOp(ops, ops[i].verb) == Some(ops[i])
  {
    if i > 0 {
      FirstOpFinds(ops[1..], i - 1);
    }
  }

  lemma DistinctVerbs(ops: seq<Operation>)
    requires StrictlyAscending(ops, Verb)
    ensures forall j, k :: 0 <= j < k < |ops| ==> ops[j].verb != ops[k].verb
  {
    forall j, k | 0 <= j < k < |ops| ensures ops[j].verb != ops[k].verb {
      assert Less(Verb(ops[j]), Verb(ops[k]));
      LessTotal(ops[j].verb, ops[j].verb);
    }
  }

  lemma LeastVerb(ops: seq<Operation>, verb: string)
    requires StrictlyAscending(ops, Verb) && ops != [] && FirstOp(ops, verb).Some?
    ensures !Less(verb, ops[0].verb)
  {
    var op := FirstOp(ops, verb).value;
    var i :| 0 <= i < |ops| && ops[i] == op;
    LessTotal(ops[0].verb, verb);
    assert i > 0 ==> Less(Verb(ops[0]), Verb(ops[i]));
  }

  lemma {:induction false} OperationsAreDetermined(a: seq<Operation>, b: seq<Operation>)
    requires StrictlyAscending(a, Verb) && StrictlyAscending(b, Verb)
    requires forall verb :: FirstOp(a, verb) == FirstOp(b, verb)
    ensures a == b
  {
    if a == [] || b == [] {
      DistinctVerbs(a);
      DistinctVerbs(b);
      if a != [] {
        FirstOpFinds(a, 0);
      }
      if b != [] {
        FirstOpFinds(b, 0);
      }
    } else {
      assert FirstOp(a, a[0].verb) == Some(a[0]) && FirstOp(b, b[0].verb) == Some(b[0]);
      LeastVerb(a, b[0].verb);
      LeastVerb(b, a[0].verb);
      LessTotal(a[0].verb, b[0].verb);
      assert a[0] == b[0];
      forall verb ensures FirstOp(a[1..], verb) == FirstOp(b[1..], verb) {
        assert FirstOp(a, verb) == FirstOp(b, verb);
        if verb == a[0].verb {
          NoneBehind(a);
          NoneBehind(b);
        }
      }
      OperationsAreDetermined(a[1..], b[1..]);
      assert a == [a[0]] + a[1..] && b == [b[0]] + b[1..];
    }
  }

  lemma NoneBehind(ops: seq<Operation>)
    requires StrictlyAscending(ops, Verb) && ops != []
    ensures FirstOp(ops[1..], ops[0].verb).None?
  {
    DistinctVerbs(ops);
  }

  lemma {:induction false} FirstFinds(routes: seq<Route>, i: nat, verb: string)
    requires i < |routes| && forall j, k :: 0 <= j < k < |routes| ==> routes[j].path != routes[k].path
    ensures First(routes, routes[i].path, verb) == FirstOp(routes[i].operations, verb)
  {
    if i > 0 {
      FirstFinds(routes[1..], i - 1, verb);
    } else {
      PathOnce(routes, verb);
    }
  }

  lemma DistinctPaths(routes: seq<Route>)
    requires StrictlyAscending(routes, Path)
    ensures forall j, k :: 0 <= j < k < |routes| ==> routes[j].path != routes[k].path
  {
    forall j, k | 0 <= j < k < |routes| ensures routes[j].path != routes[k].path {
      assert Less(Path(routes[j]), Path(routes[k]));
      LessTotal(routes[j].path, routes[j].path);
    }
  }

  lemma LeastPath(routes: seq<Route>, path: string, verb: string)
    requires Normal(routes) && routes != [] && First(routes, path, verb).Some?
    ensures !Less(path, routes[0].path)
  {
    var r :| r in routes && r.path == path;
    var i :| 0 <= i < |routes| && routes[i] == r;
    LessTotal(routes[0].path, path);
    assert i > 0 ==> Less(Path(routes[0]), Path(routes[i]));
  }

  /** A normal list lists something under its first path. */
  lemma HeadIsListed(routes: seq<Route>) returns (verb: string)
    requires Normal(routes) && routes != []
    ensures First(routes, routes[0].path, verb).Some?
  {
    verb := routes[0].operations[0].verb;
    assert FirstOp(routes[0].operations, verb).Some?;
  }

  /** Two normal lists saying the same are the same, so the merge depends on no order of iteration
      and on no property of the sort. */
  lemma {:induction false} NormalListsAreDetermined(a: seq<Route>, b: seq<Route>)
    requires Normal(a) && Normal(b)
    requires forall path, verb :: First(a, path, verb) == First(b, path, verb)
    ensures a == b
  {
    if a == [] || b == [] {
      if a != [] {
        var verb := HeadIsListed(a);
      }
      if b != [] {
        var verb := HeadIsListed(b);
      }
    } else {
      SameHead(a, b);
      DistinctPaths(a);
      DistinctPaths(b);
      forall path, verb ensures First(a[1..], path, verb) == First(b[1..], path, verb) {
        assert First(a, path, verb) == First(b, path, verb);
        if path == a[0].path {
          PathOnce(a, verb);
          PathOnce(b, verb);
        }
      }
      NormalListsAreDetermined(a[1..], b[1..]);
      assert a == [a[0]] + a[1..] && b == [b[0]] + b[1..];
    }
  }

  lemma PathOnce(routes: seq<Route>, verb: string)
    requires routes != [] && forall j, k :: 0 <= j < k < |routes| ==> routes[j].path != routes[k].path
    ensures First(routes[1..], routes[0].path, verb).None?
  {
    assert forall k :: 0 <= k < |routes[1..]| ==> routes[1..][k] == routes[k + 1];
  }

  lemma SameHead(a: seq<Route>, b: seq<Route>)
    requires Normal(a) && Normal(b) && a != [] && b != []
    requires forall path, verb :: First(a, path, verb) == First(b, path, verb)
    ensures a[0] == b[0]
  {
    var va := HeadIsListed(a);
    var vb := HeadIsListed(b);
    LeastPath(b, a[0].path, va);
    LeastPath(a, b[0].path, vb);
    LessTotal(a[0].path, b[0].path);
    DistinctPaths(a);
    DistinctPaths(b);
    forall verb ensures FirstOp(a[0].operations, verb) == FirstOp(b[0].operations, verb) {
      FirstFinds(a, 0, verb);
      FirstFinds(b, 0, verb);
    }
    OperationsAreDetermined(a[0].operations, b[0].operations);
  }

  /** There is one merge of some routes, and merging it again changes nothing. */
  lemma MergeIsUnique(sources: seq<Route>, merged: seq<Route>, other: seq<Route>)
    requires IsMerge(sources, merged)
    ensures IsMerge(sources, other) <==> other == merged
    ensures IsMerge(merged, other) <==> other == merged
  {
    if Normal(other) && forall path, verb :: First(other, path, verb) == First(merged, path, verb) {
      NormalListsAreDetermined(other, merged);
    }
  }

  // The merge, as it is computed

  lemma {:induction false} FirstAppend(a: seq<Route>, b: seq<Route>, path: string, verb: string)
    ensures First(a + b, path, verb) ==
            if First(a, path, verb).Some? then First(a, path, verb) else First(b, path, verb)
  {
    if a == [] {
      assert a + b == b;
    } else {
      assert (a + b)[1..] == a[1..] + b;
      FirstAppend(a[1..], b, path, verb);
    }
  }

  lemma {:induction false} FirstOpAppend(ops: seq<Operation>, op: Operation, verb: string)
    ensures FirstOp(ops + [op], verb) ==
            if FirstOp(ops, verb).Some? then FirstOp(ops, verb) else if op.verb == verb then Some(op) else None
  {
    if ops != [] {
      assert (ops + [op])[1..] == ops[1..] + [op];
      FirstOpAppend(ops[1..], op, verb);
    } else {
      assert ops + [op] == [op] && [op][1..] == [];
    }
  }

  /** The operations collected under a path so far. */
  function Collected(byPath: map<string, seq<Operation>>, path: string): seq<Operation> {
    if path in byPath then byPath[path] else []
  }

  ghost predicate Collects(byPath: map<string, seq<Operation>>, sources: seq<Route>) {
    && (forall path :: path in byPath ==> byPath[path] != [])
    && (forall path, j, k :: path in byPath && 0 <= j < k < |byPath[path]| ==>
          byPath[path][j].verb != byPath[path][k].verb)
    && (forall path, verb :: FirstOp(Collected(byPath, path), verb) == First(sources, path, verb))
  }

  /** One more route is collected, an operation at a time, methods already seen left alone. */
  method CollectRoute(byPath: map<string, seq<Operation>>, ghost sources: seq<Route>, route: Route)
    returns (collected: map<string, seq<Operation>>)
    requires Collects(byPath, sources)
    ensures Collects(collected, sources + [route])
  {
    collected := byPath;
    ghost var before := Route(route.path, []);
    assert route.operations[..0] == [];
    CollectsNothing(byPath, sources, before);
    for i := 0 to |route.operations|
      invariant Collects(collected, sources + [Route(route.path, route.operations[..i])])
    {
      var op := route.operations[i];
      assert route.operations[..i + 1] == route.operations[..i] + [op];
      OneMoreCollected(collected, sources, route.path, route.operations[..i], op);
      var existing := Collected(collected, route.path);
      if FirstOp(existing, op.verb).Some? {
        continue;
      }
      collected := collected[route.path := existing + [op]];
    }
    assert route.operations[..|route.operations|] == route.operations;
  }

  lemma OneMoreCollected(collected: map<string, seq<Operation>>, sources: seq<Route>, path: string,
                         ops: seq<Operation>, op: Operation)
    requires Collects(collected, sources + [Route(path, ops)])
    ensures var existing := Collected(collected, path);
            Collects(if FirstOp(existing, op.verb).Some? then collected else collected[path := existing + [op]],
                     sources + [Route(path, ops + [op])])
  {
    OneMoreOperation(sources, path, ops, op);
    var existing := Collected(collected, path);
    assert FirstOp(existing, op.verb) == First(sources + [Route(path, ops)], path, op.verb);
    if FirstOp(existing, op.verb).None? {
      AbsentVerb(existing, op.verb);
      forall p, verb
        ensures FirstOp(Collected(collected[path := existing + [op]], p), verb)
                == First(sources + [Route(path, ops + [op])], p, verb)
      {
        CollectedNext(collected, path, op, p, verb);
        assert FirstOp(Collected(collected, p), verb) == First(sources + [Route(path, ops)], p, verb);
      }
    }
  }

  lemma CollectedNext(collected: map<string, seq<Operation>>, path: string, op: Operation, p: string, verb: string)
    ensures var existing := Collected(collected, path);
            FirstOp(Collected(collected[path := existing + [op]], p), verb) ==
            var before := FirstOp(Collected(collected, p), verb);
            if before.Some? then before else if p == path && verb == op.verb then Some(op) else None
  {
    FirstOpAppend(Collected(collected, path), op, verb);
  }

  lemma {:induction false} AbsentVerb(ops: seq<Operation>, verb: string)
    requires FirstOp(ops, verb).None?
    ensures forall i :: 0 <= i < |ops| ==> ops[i].verb != verb
  {
    if ops != [] {
      AbsentVerb(ops[1..], verb);
      assert forall i :: 1 <= i < |ops| ==> ops[i] == ops[1..][i - 1];
    }
  }

  lemma CollectsNothing(byPath: map<string, seq<Operation>>, sources: seq<Route>, nothing: Route)
    requires Collects(byPath, sources) && nothing.operations == []
    ensures Collects(byPath, sources + [nothing])
  {
    forall path, verb ensures First(sources + [nothing], path, verb) == First(sources, path, verb) {
      FirstAppend(sources, [nothing], path, verb);
    }
  }

  lemma OneMoreOperation(sources: seq<Route>, path: string, ops: seq<Operation>, op: Operation)
    ensures forall p, verb :: First(sources + [Route(path, ops + [op])], p, verb) ==
              var before := First(sources + [Route(path, ops)], p, verb);
              if before.Some? then before else if p == path && verb == op.verb then Some(op) else None
  {
    forall p, verb
      ensures First(sources + [Route(path, ops + [op])], p, verb) ==
              var before := First(sources + [Route(path, ops)], p, verb);
              if before.Some? then before else if p == path && verb == op.verb then Some(op) else None
    {
      FirstAppend(sources, [Route(path, ops + [op])], p, verb);
      FirstAppend(sources, [Route(path, ops)], p, verb);
      FirstOpAppend(ops, op, verb);
      assert [Route(path, ops)][1..] == [] && [Route(path, ops + [op])][1..] == [];
    }
  }

  /** The routes of several branches in one normal list. */
  method Merge(batches: seq<seq<Route>>) returns (merged: seq<Route>)
    ensures IsMerge(Flatten(batches), merged)
  {
    var byPath: map<string, seq<Operation>> := map[];
    ghost var sources: seq<Route> := [];
    assert Flatten(batches[|batches|..]) == [];
    for b := 0 to |batches|
      invariant Collects(byPath, sources) && sources + Flatten(batches[b..]) == Flatten(batches)
    {
      var batch := batches[b];
      ghost var done := sources;
      assert batch[..0] == [] && done + [] == done;
      for i := 0 to |batch|
        invariant Collects(byPath, sources) && sources == done + batch[..i]
      {
        byPath := CollectRoute(byPath, sources, batch[i]);
        assert batch[..i + 1] == batch[..i] + [batch[i]];
        sources := sources + [batch[i]];
      }
      assert batch[..|batch|] == batch;
      assert batches[b..][1..] == batches[b + 1..];
    }
    assert sources == Flatten(batches);
    merged := Assemble(byPath, sources);
  }

  function Sorted(byPath: map<string, seq<Operation>>, path: string): Route
    requires path in byPath
  {
    Route(path, SortBy(byPath[path], Verb))
  }

  /** One route for each collected path, in any order. */
  ghost predicate ListsOnce(routes: seq<Route>, byPath: map<string, seq<Operation>>, rest: set<string>) {
    && (forall r :: r in routes ==> r.path in byPath && r.path !in rest && r == Sorted(byPath, r.path))
    && (forall path :: path in byPath && path !in rest ==> Sorted(byPath, path) in routes)
    && (forall j, k :: 0 <= j < k < |routes| ==> routes[j].path != routes[k].path)
  }

  /** The collected paths, taken in whatever order, each with its methods sorted; then the paths. */
  method Assemble(byPath: map<string, seq<Operation>>, ghost sources: seq<Route>) returns (merged: seq<Route>)
    requires Collects(byPath, sources)
    ensures IsMerge(sources, merged)
  {
    var routes: seq<Route> := [];
    var rest := byPath.Keys;
    while rest != {}
      invariant rest <= byPath.Keys
      invariant ListsOnce(routes, byPath, rest)
      decreases rest
    {
      var path :| path in rest;
      OneMoreRoute(routes, byPath, rest, path);
      rest := rest - {path};
      routes := routes + [Sorted(byPath, path)];
    }
    SortedRoutesMerge(byPath, sources, routes);
    merged := SortBy(routes, Path);
  }

  lemma OneMoreRoute(routes: seq<Route>, byPath: map<string, seq<Operation>>, rest: set<string>, path: string)
    requires ListsOnce(routes, byPath, rest) && path in rest && path in byPath
    ensures ListsOnce(routes + [Sorted(byPath, path)], byPath, rest - {path})
  {
    var more := routes + [Sorted(byPath, path)];
    assert more[|routes|] == Sorted(byPath, path);
    forall j, k | 0 <= j < k < |more| ensures more[j].path != more[k].path {
      assert more[j] in routes;
    }
  }

  lemma SortedRoutesMerge(byPath: map<string, seq<Operation>>, sources: seq<Route>, routes: seq<Route>)
    requires Collects(byPath, sources) && ListsOnce(routes, byPath, {})
    ensures IsMerge(sources, SortBy(routes, Path))
  {
    var merged := SortBy(routes, Path);
    SortsStrictly(routes, Path);
    DistinctPaths(merged);
    forall r ensures r in merged <==> r in routes {
      SameElements(merged, routes, r);
    }
    forall i | 0 <= i < |merged|
      ensures merged[i].operations != [] && StrictlyAscending(merged[i].operations, Verb)
    {
      assert merged[i] in routes;
      SortedVerbs(byPath[merged[i].path]);
    }
    forall path, verb ensures First(merged, path, verb) == First(sources, path, verb) {
      assert FirstOp(Collected(byPath, path), verb) == First(sources, path, verb);
      if path in byPath {
        FirstOfSorted(byPath, merged, path, verb);
      }
    }
  }

  lemma FirstOfSorted(byPath: map<string, seq<Operation>>, merged: seq<Route>, path: string, verb: string)
    requires forall j, k :: 0 <= j < k < |merged| ==> merged[j].path != merged[k].path
    requires path in byPath && Sorted(byPath, path) in merged
    requires forall j, k :: 0 <= j < k < |byPath[path]| ==> byPath[path][j].verb != byPath[path][k].verb
    ensures First(merged, path, verb) == FirstOp(byPath[path], verb)
  {
    var i :| 0 <= i < |merged| && merged[i] == Sorted(byPath, path);
    FirstFinds(merged, i, verb);
    SortedVerbs(byPath[path]);
  }

  /** Sorting operations with different methods keeps them and puts the methods in order. */
  lemma SortedVerbs(ops: seq<Operation>)
    requires forall j, k :: 0 <= j < k < |ops| ==> ops[j].verb != ops[k].verb
    ensures StrictlyAscending(SortBy(ops, Verb), Verb)
    ensures forall verb :: FirstOp(SortBy(ops, Verb), verb) == FirstOp(ops, verb)
  {
    var sorted := SortBy(ops, Verb);
    SortsStrictly(ops, Verb);
    DistinctVerbs(sorted);
    forall op ensures op in sorted <==> op in ops {
      SameElements(sorted, ops, op);
    }
    forall verb ensures FirstOp(sorted, verb) == FirstOp(ops, verb) {
      SameFirstOp(sorted, ops, verb);
    }
  }

  lemma SameFirstOp(sorted: seq<Operation>, ops: seq<Operation>, verb: string)
    requires forall j, k :: 0 <= j < k < |sorted| ==> sorted[j].verb != sorted[k].verb
    requires forall op :: op in sorted <==> op in ops
    ensures FirstOp(sorted, verb) == FirstOp(ops, verb)
  {
    if FirstOp(ops, verb).Some? {
      var op := FirstOp(ops, verb).value;
      var i :| 0 <= i < |sorted| && sorted[i] == op;
      FirstOpFinds(sorted, i);
    }
  }

  // The catalogue of the API, all of it or none

  datatype Snapshot = Snapshot(routes: seq<Route>, branches: seq<string>, live: bool)

  /** A snapshot built from an answer for every branch. */
  ghost predicate IsComplete(s: Snapshot, branches: seq<string>, schemas: seq<Option<seq<Route>>>) {
    && |schemas| == |branches| && (forall i :: 0 <= i < |schemas| ==> schemas[i].Some?)
    && s.live && s.branches == branches
    && IsMerge(Flatten(Answered(schemas)), s.routes)
  }

  function Answered(schemas: seq<Option<seq<Route>>>): seq<seq<Route>> {
    if schemas == [] then []
    else Answered(schemas[..|schemas| - 1])
         + (var last := schemas[|schemas| - 1]; if last.Some? then [last.value] else [])
  }

  /** One schema that cannot be fetched or read discards them all. */
  method FetchCatalogue(branches: seq<string>, schemas: seq<Option<seq<Route>>>) returns (fetched: Option<Snapshot>)
    requires |schemas| == |branches|
    ensures fetched.Some? <==> forall i :: 0 <= i < |schemas| ==> schemas[i].Some?
    ensures fetched.Some? ==> IsComplete(fetched.value, branches, schemas)
  {
    var slots := Fetch(schemas);
    var batches: seq<seq<Route>> := [];
    assert schemas[..0] == [];
    for i := 0 to |slots|
      invariant batches == Answered(schemas[..i])
      invariant forall j :: 0 <= j < i ==> schemas[j].Some?
    {
      assert schemas[..i + 1][..i] == schemas[..i];
      if slots[i].None? {
        return None;
      }
      batches := batches + [slots[i].value];
    }
    assert schemas[..|schemas|] == schemas;
    var routes := Merge(batches);
    return Some(Snapshot(routes, branches, true));
  }

  /** A complete catalogue lists a path with a method exactly when some branch does. */
  lemma CompleteListsEverything(s: Snapshot, branches: seq<string>, schemas: seq<Option<seq<Route>>>, path: string,
                                verb: string)
    requires IsComplete(s, branches, schemas)
    ensures First(s.routes, path, verb).Some? <==>
            exists b :: 0 <= b < |schemas| && First(schemas[b].value, path, verb).Some?
  {
    AnsweredAll(schemas);
    FirstOfFlat(Answered(schemas), path, verb);
    assert First(s.routes, path, verb) == First(Flatten(Answered(schemas)), path, verb);
    if b :| 0 <= b < |schemas| && First(schemas[b].value, path, verb).Some? {
      assert First(Answered(schemas)[b], path, verb).Some?;
    }
  }

  /** Of a path and a method that several branches list, it has what the first of them says. */
  lemma FirstBranchIsKept(s: Snapshot, branches: seq<string>, schemas: seq<Option<seq<Route>>>, path: string,
                          verb: string, b: nat)
    requires IsComplete(s, branches, schemas)
    requires b < |schemas| && First(schemas[b].value, path, verb).Some?
    requires forall k :: 0 <= k < b ==> First(schemas[k].value, path, verb).None?
    ensures First(s.routes, path, verb) == First(schemas[b].value, path, verb)
  {
    AnsweredAll(schemas);
    FirstOfBatches(Answered(schemas), path, verb, b);
  }

  lemma {:induction false} FirstOfBatches(batches: seq<seq<Route>>, path: string, verb: string, b: nat)
    requires b < |batches| && First(batches[b], path, verb).Some?
    requires forall k :: 0 <= k < b ==> First(batches[k], path, verb).None?
    ensures First(Flatten(batches), path, verb) == First(batches[b], path, verb)
  {
    var tail := batches[1..];
    FirstAppend(batches[0], Flatten(tail), path, verb);
    if b > 0 {
      assert tail[b - 1] == batches[b];
      forall k | 0 <= k < b - 1 ensures First(tail[k], path, verb).None? {
        assert tail[k] == batches[k + 1];
      }
      FirstOfBatches(tail, path, verb, b - 1);
    }
  }

  lemma {:induction false} AnsweredAll(schemas: seq<Option<seq<Route>>>)
    requires forall i :: 0 <= i < |schemas| ==> schemas[i].Some?
    ensures |Answered(schemas)| == |schemas|
    ensures forall i :: 0 <= i < |schemas| ==> Answered(schemas)[i] == schemas[i].value
  {
    if schemas != [] {
      AnsweredAll(schemas[..|schemas| - 1]);
    }
  }

  lemma {:induction false} FirstOfFlat(batches: seq<seq<Route>>, path: string, verb: string)
    ensures First(Flatten(batches), path, verb).Some? <==>
            exists b :: 0 <= b < |batches| && First(batches[b], path, verb).Some?
  {
    if batches != [] {
      FirstOfFlat(batches[1..], path, verb);
      FirstAppend(batches[0], Flatten(batches[1..]), path, verb);
      if b :| 0 <= b < |batches[1..]| && First(batches[1..][b], path, verb).Some? {
        assert First(batches[b + 1], path, verb).Some?;
      }
      if b :| 0 <= b < |batches| && First(batches[b], path, verb).Some? {
        assert b > 0 ==> First(batches[1..][b - 1], path, verb).Some?;
      }
    }
  }
}
