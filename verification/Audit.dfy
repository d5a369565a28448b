/** What the audit says about one credential: the branches its rules reach and the findings it
    raises (internal/audit/audit.go). */
module Audit {
  import opened Text
  import opened Glob
  import opened Credentials

  datatype Code =
    | BroadAccess | NoIPRestriction | NoExpiry | ExpiresSoon | NeverUsed | Dormant | NoDescription
    | SupportIssued | AccountControl | BillingAccess | WiderThanNeeded | SameAsAnother | AwaitsValidation

  datatype Severity = Risk | Caution | Note

  datatype Finding = Finding(code: Code, severity: Severity)

  /** No method means every method. */
  datatype Branch = Branch(finding: Code, path: string, verbs: seq<string>)

  const WRITES := ["POST", "PUT", "DELETE"]

  const SENSITIVE_BRANCHES: seq<Branch> := [
    Branch(AccountControl, "/me/accessRestriction", WRITES),
    Branch(AccountControl, "/me/identity", WRITES),
    Branch(AccountControl, "/me/subAccount", ["POST", "PUT"]),
    Branch(AccountControl, "/me/api/oauth2/client", ["POST", "PUT"]),
    Branch(AccountControl, "/me/api/credential", ["PUT"]),
    Branch(AccountControl, "/me/changeEmail", ["POST"]),
    Branch(AccountControl, "/me/changePassword", ["POST"]),
    Branch(AccountControl, "/me/passwordRecover", ["POST"]),
    Branch(AccountControl, "/me/sshKey", ["POST", "DELETE"]),
    Branch(BillingAccess, "/me/autorenew", []),
    Branch(BillingAccess, "/me/availableAutomaticPaymentMeans", []),
    Branch(BillingAccess, "/me/bill", []),
    Branch(BillingAccess, "/me/billing", []),
    Branch(BillingAccess, "/me/consumption", []),
    Branch(BillingAccess, "/me/correctiveInvoice", []),
    Branch(BillingAccess, "/me/credit", []),
    Branch(BillingAccess, "/me/debtAccount", []),
    Branch(BillingAccess, "/me/deposit", []),
    Branch(BillingAccess, "/me/downPaymentInvoice", []),
    Branch(BillingAccess, "/me/fidelityAccount", []),
    Branch(BillingAccess, "/me/order", []),
    Branch(BillingAccess, "/me/ovhAccount", []),
    Branch(BillingAccess, "/me/payment", []),
    Branch(BillingAccess, "/me/paymentMean", []),
    Branch(BillingAccess, "/me/refund", []),
    Branch(BillingAccess, "/me/reverseBill", []),
    Branch(BillingAccess, "/me/voucher", []),
    Branch(BillingAccess, "/me/withdrawal", [])
  ]

  // Reaching a branch

  predicate Within(path: string, branch: string) {
    path == branch || branch + "/" <= path
  }

  predicate Admits(branch: Branch, verb: string) {
    |branch.verbs| == 0 || exists i :: 0 <= i < |branch.verbs| && EqualFold(branch.verbs[i], verb)
  }

  /** The path half of the test: the branch is compared with the part before the first star. */
  predicate ReachesPath(branch: string, path: string) {
    var star := Index(path, "*");
    if star < 0 then !(|path| > 1 && HasSuffix(path, "/")) && Within(path, branch)
    else Within(TrimSuffix(path[..star], "/"), branch) || path[..star] <= branch
  }

  predicate Reaches(branch: Branch, rule: AccessRule) {
    Admits(branch, rule.verb) && ReachesPath(branch.path, rule.path)
  }

  /** A route of the branch: at or under its path. No route ends in a slash. */
  predicate RouteOf(branch: string, route: string) {
    Within(route, branch) && !HasSuffix(route, "/")
  }

  ghost predicate CoversRouteOf(branch: string, path: string) {
    exists route :: RouteOf(branch, route) && Matches(path, route)
  }

  /** What Reaches is meant to decide: the rule covers a call to a route of the branch. */
  ghost predicate CoversCall(branch: Branch, rule: AccessRule) {
    Admits(branch, rule.verb) && CoversRouteOf(branch.path, rule.path)
  }

  /** A path is its star-free start, then a star and the rest. */
  lemma AtFirstStar(path: string) returns (fixed: string, rest: string)
    requires Index(path, "*") >= 0
    ensures fixed == path[..Index(path, "*")] && path == fixed + ("*" + rest)
    ensures '*' !in fixed
  {
    var star := Index(path, "*");
    fixed, rest := path[..star], path[star + 1..];
    assert path[star..] == "*" + rest;
    forall i | 0 <= i < |fixed| ensures fixed[i] != '*' {
      assert !At(path, "*", i);
      assert path[i..][0] == path[i];
    }
  }

  lemma NoStar(path: string)
    requires Index(path, "*") < 0
    ensures '*' !in path
  {
    forall i | 0 <= i < |path| ensures path[i] != '*' {
      assert !At(path, "*", i);
      assert path[i..] == [path[i]] + path[i + 1..];
    }
  }

  lemma NoStarNamesItself(path: string, route: string)
    requires '*' !in path
    ensures Matches(path, route) <==> route == path
  {
    FixedStart(path, "", route);
    assert path + "" == path;
    if path <= route && route[|path|..] == "" {
      assert route == path + route[|path|..];
    }
  }

  /** The test never misses a route a rule covers. */
  lemma ReachesNeverMisses(branch: string, path: string, route: string)
    requires RouteOf(branch, route) && Matches(path, route)
    ensures ReachesPath(branch, path)
  {
    var star := Index(path, "*");
    if star < 0 {
      NoStar(path);
      NoStarNamesItself(path, route);
    } else {
      var fixed, rest := AtFirstStar(path);
      FixedStart(fixed, "*" + rest, route);
      if |fixed| <= |branch| {
        assert fixed <= branch;
      } else {
        assert branch + "/" <= route && branch + "/" <= fixed;
        if HasSuffix(fixed, "/") && |fixed| == |branch| + 1 {
          assert fixed == branch + "/";
        }
        assert Within(TrimSuffix(fixed, "/"), branch);
      }
    }
  }

  lemma EndsInSlash(s: string)
    ensures HasSuffix(s, "/") <==> s != "" && s[|s| - 1] == '/'
  {
    if s != "" {
      assert s[|s| - 1..] == [s[|s| - 1]];
    }
  }

  lemma FillFirstStar(fixed: string, fill: string, rest: string, more: string)
    requires '*' !in fixed && Matches(rest, more)
    ensures Matches(fixed + ("*" + rest), fixed + (fill + more))
  {
    FillStar(fill, rest, more);
    assert (fixed + (fill + more))[|fixed|..] == fill + more;
    FixedStart(fixed, "*" + rest, fixed + (fill + more));
  }

  /** A fill of the first star that puts the route under the branch. */
  lemma FillUnder(branch: string, fixed: string) returns (fill: string)
    requires Within(TrimSuffix(fixed, "/"), branch) || fixed <= branch
    ensures |fill| > 0 && fill[|fill| - 1] == 'x' && branch + "/" <= fixed + fill
  {
    if fixed <= branch {
      fill := branch[|fixed|..] + "/x";
      assert fixed + fill == branch + "/" + "x";
    } else {
      fill := "/x";
      assert branch <= TrimSuffix(fixed, "/") <= fixed;
      assert fixed[|branch|] == '/';
    }
  }

  /** Filling the first star so that the route lands under the branch. */
  lemma FilledRoute(branch: string, fixed: string, rest: string) returns (route: string)
    requires '*' !in fixed && !HasSuffix(rest, "/")
    requires Within(TrimSuffix(fixed, "/"), branch) || fixed <= branch
    ensures RouteOf(branch, route) && Matches(fixed + ("*" + rest), route)
  {
    var more := SomeMatch(rest);
    var fill := FillUnder(branch, fixed);
    route := fixed + (fill + more);
    FillFirstStar(fixed, fill, rest, more);
    assert route == (fixed + fill) + more;
    EndsInSlash(more);
    EndsInSlash(route);
  }

  /** When the test says yes and the path does not end in a slash, here is a route it covers. */
  lemma ReachedRoute(branch: string, path: string) returns (route: string)
    requires ReachesPath(branch, path) && !HasSuffix(path, "/")
    ensures RouteOf(branch, route) && Matches(path, route)
  {
    if Index(path, "*") < 0 {
      NoStar(path);
      route := path;
      NoStarNamesItself(path, route);
    } else {
      var fixed, rest := AtFirstStar(path);
      EndsInSlash(path);
      EndsInSlash(rest);
      route := FilledRoute(branch, fixed, rest);
    }
  }

  /** A path ending in a slash covers no route at all, whatever the test says. */
  lemma SlashCoversNothing(branch: string, path: string)
    requires HasSuffix(path, "/")
    ensures !CoversRouteOf(branch, path)
  {
    forall route | Matches(path, route) ensures HasSuffix(route, "/") {
      assert path[|path| - 1..] == "/";
      LastCharacter(path, route);
      assert route[|route| - 1..] == "/";
    }
  }

  /** What the test decides, exactly, for every rule and every branch. */
  lemma ReachesDecides(branch: Branch, rule: AccessRule)
    ensures CoversCall(branch, rule) <==> Reaches(branch, rule) && !HasSuffix(rule.path, "/")
  {
    if HasSuffix(rule.path, "/") {
      SlashCoversNothing(branch.path, rule.path);
    } else if Reaches(branch, rule) {
      var route := ReachedRoute(branch.path, rule.path);
    }
    if CoversCall(branch, rule) {
      var route :| RouteOf(branch.path, route) && Matches(rule.path, route);
      ReachesNeverMisses(branch.path, rule.path, route);
    }
  }

  /** The shape of a rule path on which the test is right for every branch there could be: it does
      not end in a slash, or it is refused for ending in one. */
  predicate SlashSafe(path: string) {
    !HasSuffix(path, "/") || ('*' !in path && |path| > 1)
  }

  lemma ReachesExactOnEveryBranch(rule: AccessRule)
    ensures SlashSafe(rule.path) <==> forall branch: Branch :: Reaches(branch, rule) <==> CoversCall(branch, rule)
  {
    forall branch: Branch
      ensures CoversCall(branch, rule) <==> Reaches(branch, rule) && !HasSuffix(rule.path, "/")
    {
      ReachesDecides(branch, rule);
    }
    if HasSuffix(rule.path, "/") {
      if SlashSafe(rule.path) {
        RefusedForItsSlash(rule.path);
      } else {
        var branch := OverstatedBranch(rule.path);
        assert Reaches(Branch(BillingAccess, branch, []), rule);
      }
    }
  }

  lemma RefusedForItsSlash(path: string)
    requires HasSuffix(path, "/") && SlashSafe(path)
    ensures forall branch :: !ReachesPath(branch, path)
  {
    if Index(path, "*") >= 0 {
      var fixed, rest := AtFirstStar(path);
      assert false;
    }
  }

  /** A branch the test reports for a path that ends in a slash and is not refused for it. */
  lemma OverstatedBranch(path: string) returns (branch: string)
    requires !SlashSafe(path)
    ensures ReachesPath(branch, path)
  {
    if Index(path, "*") < 0 {
      NoStar(path);
      branch := path;
    } else {
      branch := path[..Index(path, "*")];
    }
  }

  /** A wildcard rule ending in a slash is reported on a branch it covers no route of. */
  lemma SlashOverstatesReach()
    ensures var branch := Branch(BillingAccess, "/me/bill", []);
            var rule := AccessRule("GET", "/me/*/");
            Reaches(branch, rule) && !CoversCall(branch, rule)
  {
    var path := "/me/*/";
    assert path[..4] == "/me/";
    assert path[4..] == "*/" && "*" <= path[4..];
    assert At(path, "*", 4);
    assert forall i :: 0 <= i < 4 ==> path[i..][0] == path[i] != '*';
    assert Index(path, "*") == 4;
    assert "/me/" <= "/me/bill";
    assert ReachesPath("/me/bill", path);
    assert path[5..] == "/";
    SlashCoversNothing("/me/bill", path);
  }
}
