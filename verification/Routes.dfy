/** Documented routes and the rule paths they become (internal/catalog/schema.go). */
module Routes {
  import opened Glob
  import opened Credentials
  import opened Audit
  import opened Inspection

  /** Where the brace closing a placeholder is, in the text after its opening brace. */
  function ClosingBrace(s: string): (at: Option<nat>)
    ensures at.Some? ==> at.value < |s| && s[at.value] == '}'
                         && forall i :: 0 <= i < at.value ==> s[i] !in {'/', '{', '}'}
    ensures at.None? ==> forall e :: 0 <= e < |s| && s[e] == '}' ==> exists i :: 0 <= i < e && s[i] in {'/', '{'}
  {
    if s == "" || s[0] in {'/', '{'} then None
    else if s[0] == '}' then Some(0)
    else match ClosingBrace(s[1..])
      case None =>
        assert forall e :: 1 <= e < |s| ==> s[e] == s[1..][e - 1];
        None
      case Some(k) => Some(k + 1)
  }

  /** The length of the placeholder s starts with, 0 when it starts with none. */
  function Placeholder(s: string): (length: nat)
    ensures length == 0 || 2 <= length <= |s|
  {
    if s != "" && s[0] == '{' && ClosingBrace(s[1..]).Some? then ClosingBrace(s[1..]).value + 2 else 0
  }

  /** The path a rule can carry: every placeholder replaced by a star, leftmost first. */
  function RulePath(documented: string): string
    decreases |documented|
  {
    if documented == "" then ""
    else if Placeholder(documented) > 0 then "*" + RulePath(documented[Placeholder(documented)..])
    else [documented[0]] + RulePath(documented[1..])
  }

  predicate Parameterised(documented: string) {
    exists i :: 0 <= i <= |documented| && Placeholder(documented[i..]) > 0
  }

  // What a placeholder is, letter by letter

  /** A name in braces, with no slash and no brace in it. */
  predicate Braced(s: string, i: int, j: int) {
    0 <= i < j < |s| && s[i] == '{' && s[j] == '}' && forall k :: i < k < j ==> s[k] !in {'/', '{', '}'}
  }

  lemma PlaceholderIsBraced(s: string, i: nat)
    requires i < |s|
    ensures Placeholder(s[i..]) > 0 <==> exists j :: Braced(s, i, j)
    ensures forall j :: Braced(s, i, j) ==> Placeholder(s[i..]) == j - i + 1
  {
    var tail, inner := s[i..], s[i..][1..];
    assert forall k :: 0 <= k < |inner| ==> inner[k] == s[i + 1 + k];
    if s[i] == '{' && ClosingBrace(inner).Some? {
      assert Braced(s, i, i + 1 + ClosingBrace(inner).value);
    }
    forall j | Braced(s, i, j) ensures Placeholder(tail) == j - i + 1 {
      assert inner[j - i - 1] == '}';
    }
  }

  lemma BracedInTail(s: string, i: int, j: int)
    requires s != ""
    ensures Braced(s[1..], i, j) <==> Braced(s, i + 1, j + 1) && i >= 0
  {
    var tail := s[1..];
    assert forall k :: 0 <= k < |tail| ==> tail[k] == s[k + 1];
    if Braced(s, i + 1, j + 1) && i >= 0 {
      forall k | i < k < j ensures tail[k] !in {'/', '{', '}'} {
        assert s[k + 1] !in {'/', '{', '}'};
      }
    }
  }

  ghost predicate NoneBracedBefore(s: string, n: int) {
    forall i, j :: i < n ==> !Braced(s, i, j)
  }

  lemma NoneBracedInTail(s: string, n: nat)
    requires n > 0 && s != "" && NoneBracedBefore(s, n)
    ensures NoneBracedBefore(s[1..], n - 1) && Placeholder(s) == 0
  {
    assert s[0..] == s;
    PlaceholderIsBraced(s, 0);
    forall i, j | i < n - 1 ensures !Braced(s[1..], i, j) {
      BracedInTail(s, i, j);
    }
  }

  /** The leftmost name in braces becomes a star; what is in front of it stays. */
  lemma {:induction false} LeftmostNameBecomesAStar(s: string, i: nat, j: nat)
    requires Braced(s, i, j) && NoneBracedBefore(s, i)
    ensures RulePath(s) == s[..i] + ("*" + RulePath(s[j + 1..]))
    decreases i
  {
    if i == 0 {
      assert s[0..] == s && s[..0] == "";
      PlaceholderIsBraced(s, 0);
    } else {
      var tail := s[1..];
      NoneBracedInTail(s, i);
      BracedInTail(s, i - 1, j - 1);
      LeftmostNameBecomesAStar(tail, i - 1, j - 1);
      assert tail[j..] == s[j + 1..];
      PutBack(s, i, "*" + RulePath(s[j + 1..]));
    }
  }

  lemma PutBack(s: string, i: nat, more: string)
    requires 0 < i <= |s|
    ensures [s[0]] + (s[1..][..i - 1] + more) == s[..i] + more
  {
    assert [s[0]] + s[1..][..i - 1] == s[..i];
  }

  /** A route without one is left as it is, and no other route is. */
  lemma KeptWithoutNamesExactly(s: string)
    ensures RulePath(s) == s <==> forall i, j :: !Braced(s, i, j)
  {
    ParameterisedMeansWidened(s);
    if Parameterised(s) {
      var i :| 0 <= i <= |s| && Placeholder(s[i..]) > 0;
      PlaceholderIsBraced(s, i);
    }
    if i, j :| Braced(s, i, j) {
      PlaceholderIsBraced(s, i);
    }
  }

  // What a documented route stands for

  function Holes(documented: string): nat
    decreases |documented|
  {
    if documented == "" then 0
    else if Placeholder(documented) > 0 then 1 + Holes(documented[Placeholder(documented)..])
    else Holes(documented[1..])
  }

  /** The call a documented route becomes once its placeholders are given values. */
  function Call(documented: string, values: seq<string>): string
    requires |values| == Holes(documented)
    decreases |documented|
  {
    if documented == "" then ""
    else if Placeholder(documented) > 0 then values[0] + Call(documented[Placeholder(documented)..], values[1..])
    else [documented[0]] + Call(documented[1..], values)
  }

  ghost predicate IsCall(documented: string, path: string) {
    exists values: seq<string> :: |values| == Holes(documented) && Call(documented, values) == path
  }

  function Repeat(value: string, n: nat): (values: seq<string>)
    ensures |values| == n && forall i :: 0 <= i < n ==> values[i] == value
  {
    seq(n, i => value)
  }

  /** Every call of a documented route is covered by the rule built from it. */
  lemma {:induction false} RulePathCoversEveryCall(documented: string, values: seq<string>)
    requires |values| == Holes(documented)
    ensures Matches(RulePath(documented), Call(documented, values))
    decreases |documented|
  {
    if documented != "" {
      var n := Placeholder(documented);
      if n > 0 {
        RulePathCoversEveryCall(documented[n..], values[1..]);
        FillStar(values[0], RulePath(documented[n..]), Call(documented[n..], values[1..]));
      } else {
        var rest := Call(documented[1..], values);
        RulePathCoversEveryCall(documented[1..], values);
        assert ([documented[0]] + RulePath(documented[1..]))[1..] == RulePath(documented[1..]);
        assert ([documented[0]] + rest)[1..] == rest;
      }
    }
  }

  /** The text of a documented route outside its placeholders. */
  function Plain(documented: string): string {
    Call(documented, Repeat("", Holes(documented)))
  }

  /** Without a literal star, the rule covers nothing but calls of the route. */
  lemma {:induction false} RulePathCoversOnlyCalls(documented: string, path: string) returns (values: seq<string>)
    requires '*' !in Plain(documented)
    requires Matches(RulePath(documented), path)
    ensures |values| == Holes(documented) && Call(documented, values) == path
    decreases |documented|
  {
    if documented == "" {
      values := [];
    } else {
      var n := Placeholder(documented);
      var rest := if n > 0 then documented[n..] else documented[1..];
      var pattern := RulePath(documented);
      assert pattern[1..] == RulePath(rest);
      PlainTail(documented);
      if n > 0 {
        var k :| 0 <= k <= |path| && Matches(RulePath(rest), path[k..]);
        var more := RulePathCoversOnlyCalls(rest, path[k..]);
        values := [path[..k]] + more;
        assert path == path[..k] + path[k..];
      } else {
        values := RulePathCoversOnlyCalls(rest, path[1..]);
        assert path == [path[0]] + path[1..];
      }
    }
  }

  lemma PlainTail(documented: string)
    requires documented != ""
    ensures Plain(documented) ==
            if Placeholder(documented) > 0 then Plain(documented[Placeholder(documented)..])
            else [documented[0]] + Plain(documented[1..])
  {
    var n := Placeholder(documented);
    if n > 0 {
      assert Repeat("", Holes(documented))[1..] == Repeat("", Holes(documented[n..]));
    } else {
      assert Repeat("", Holes(documented)) == Repeat("", Holes(documented[1..]));
    }
  }

  /** A literal star of the route stays in every call. */
  lemma {:induction false} LiteralStarStays(documented: string, values: seq<string>)
    requires |values| == Holes(documented) && '*' in Plain(documented)
    ensures '*' in Call(documented, values)
    decreases |documented|
  {
    PlainTail(documented);
    var n := Placeholder(documented);
    if n > 0 {
      LiteralStarStays(documented[n..], values[1..]);
      HasStar(values[0], Call(documented[n..], values[1..]));
    } else {
      HasStar([documented[0]], Plain(documented[1..]));
      if documented[0] != '*' {
        LiteralStarStays(documented[1..], values);
      }
      HasStar([documented[0]], Call(documented[1..], values));
    }
  }

  lemma HasStar(a: string, b: string)
    ensures '*' in a + b <==> '*' in a || '*' in b
  {
  }

  /** The rule covers exactly the calls of the route, unless the route has a star of its own. */
  lemma RulePathIsExact(documented: string)
    ensures (forall path :: Matches(RulePath(documented), path) <==> IsCall(documented, path))
            <==> '*' !in Plain(documented)
  {
    forall values: seq<string> | |values| == Holes(documented)
      ensures Matches(RulePath(documented), Call(documented, values))
    {
      RulePathCoversEveryCall(documented, values);
    }
    if '*' in Plain(documented) {
      var bare := Bare(RulePath(documented));
      forall values: seq<string> | |values| == Holes(documented) ensures Call(documented, values) != bare {
        LiteralStarStays(documented, values);
      }
      assert Matches(RulePath(documented), bare) && !IsCall(documented, bare);
    } else {
      forall path | Matches(RulePath(documented), path) ensures IsCall(documented, path) {
        var values := RulePathCoversOnlyCalls(documented, path);
      }
    }
  }

  /** A route is said to be widened exactly when its rule path differs from it. */
  lemma {:induction false} ParameterisedMeansWidened(documented: string)
    ensures Parameterised(documented) <==> RulePath(documented) != documented
    ensures |RulePath(documented)| <= |documented|
    ensures |RulePath(documented)| == |documented| ==> RulePath(documented) == documented
    decreases |documented|
  {
    if documented != "" {
      assert documented[0..] == documented;
      var n := Placeholder(documented);
      if n > 0 {
        ParameterisedMeansWidened(documented[n..]);
      } else {
        ParameterisedMeansWidened(documented[1..]);
        assert documented == [documented[0]] + documented[1..];
        assert forall i :: 1 <= i <= |documented| ==> documented[i..] == documented[1..][i - 1..];
        if Parameterised(documented[1..]) {
          var i :| 0 <= i <= |documented[1..]| && Placeholder(documented[1..][i..]) > 0;
          assert documented[1..][i..] == documented[i + 1..];
        }
      }
    }
  }

  // Rules built from routes of a sensitive branch

  lemma {:induction false} CallKeepsStart(start: string, documented: string, values: seq<string>)
    requires |values| == Holes(documented)
    requires '{' !in start && start <= documented
    ensures start <= Call(documented, values)
  {
    if start != "" {
      assert documented[0] == start[0];
      assert start[1..] <= documented[1..];
      CallKeepsStart(start[1..], documented[1..], values);
      assert start == [start[0]] + start[1..];
    }
  }

  lemma {:induction false} CallWithoutPlaceholders(documented: string)
    requires '{' !in documented
    ensures Holes(documented) == 0 && Call(documented, []) == documented
  {
    if documented != "" {
      CallWithoutPlaceholders(documented[1..]);
      assert documented == [documented[0]] + documented[1..];
    }
  }

  lemma {:induction false} CallEndsPlainly(documented: string)
    requires documented != "" && documented[|documented| - 1] != '/'
    ensures var call := Call(documented, Repeat("x", Holes(documented)));
            call != "" && call[|call| - 1] != '/'
    decreases |documented|
  {
    var start, rest := CallGoesOn(documented);
    if rest != "" {
      CallEndsPlainly(rest);
      EndsLike(start, Call(rest, Repeat("x", Holes(rest))));
    }
  }

  /** A call filled in with one text is what stands at the start, and the call of the rest. */
  lemma CallGoesOn(documented: string) returns (start: string, rest: string)
    requires documented != ""
    ensures |rest| < |documented| && documented[|documented| - |rest|..] == rest
    ensures Call(documented, Repeat("x", Holes(documented))) == start + Call(rest, Repeat("x", Holes(rest)))
    ensures start == "x" || start == [documented[|documented| - |rest| - 1]]
  {
    var n := Placeholder(documented);
    if n > 0 {
      start, rest := "x", documented[n..];
      assert Repeat("x", Holes(rest) + 1)[1..] == Repeat("x", Holes(rest));
    } else {
      start, rest := [documented[0]], documented[1..];
    }
  }

  lemma EndsLike(start: string, end: string)
    ensures end != "" ==> start + end != "" && (start + end)[|start + end| - 1] == end[|end| - 1]
    ensures end == "" ==> start + end == start
  {
  }

  /** The rule built from a documented route of a brace-free branch reaches that branch. */
  lemma RouteRuleReachesItsBranch(branch: string, documented: string)
    requires '{' !in branch
    requires RouteOf(branch, documented)
    ensures ReachesPath(branch, RulePath(documented))
  {
    if documented == "" {
      assert branch == "";
    } else {
      var values := Repeat("x", Holes(documented));
      var call := Call(documented, values);
      EndsInSlash(documented);
      EndsInSlash(call);
      CallEndsPlainly(documented);
      if documented == branch {
        CallWithoutPlaceholders(documented);
      } else {
        CallKeepsStart(branch + "/", documented, values);
      }
      RulePathCoversEveryCall(documented, values);
      ReachesNeverMisses(branch, RulePath(documented), call);
    }
  }

  /** Whoever takes from the explorer a rule on a route of a sensitive branch, for a method the
      branch counts, gets a key the audit reports. */
  lemma ExplorerRuleIsReported(branches: seq<Branch>, c: Credential, now: int, b: nat, documented: string, i: nat)
    requires Sensitive(branches) && Examines(c) && b < |branches| && i < |c.rules|
    requires '{' !in branches[b].path && RouteOf(branches[b].path, documented)
    requires Admits(branches[b], c.rules[i].verb) && c.rules[i].path == RulePath(documented)
    ensures Raised(branches, c, now, branches[b].finding) || Raised(branches, c, now, BroadAccess)
  {
    RouteRuleReachesItsBranch(branches[b].path, documented);
    ReachedBranchIsReported(branches, c, now, b, i);
  }
}
