/** What the broad finding stands for: the findings it is raised in place of, and the rules that cover
    the whole account (internal/audit/audit.go). */
module Breadth {
  import opened Text
  import opened Glob
  import opened Credentials
  import opened Audit
  import opened Inspection

  // The findings the broad one is raised in place of

  predicate SomeReaches(branch: Branch, rules: seq<AccessRule>) {
    exists i :: 0 <= i < |rules| && Reaches(branch, rules[i])
  }

  /** Some rule reaches the branch and only the broad finding is raised, though no broad rule reaches it. */
  predicate Hidden(branch: Branch, rules: seq<AccessRule>) {
    RaisesBroad(rules) && SomeReaches(branch, rules) && !BroadlyReached(branch, rules)
  }

  /** A broad rule whose method the branch does not admit, beside a scoped one that reaches it: the
      key gets the broad finding, not that of the branch, and no broad rule of it reaches the branch. */
  lemma ABroadRuleHidesAScopedOne(branches: seq<Branch>, b: nat, c: Credential, now: int,
                                  broad: AccessRule, scoped: AccessRule)
    requires Sensitive(branches) && b < |branches| && Examines(c) && c.rules == [broad, scoped]
    requires IsBroad(broad.path) && !Admits(branches[b], broad.verb)
    requires !IsBroad(scoped.path) && Reaches(branches[b], scoped)
    ensures Raised(branches, c, now, BroadAccess) && !Raised(branches, c, now, branches[b].finding)
    ensures Hidden(branches[b], c.rules)
  {
    assert c.rules[0] == broad && c.rules[1] == scoped;
    assert RaisesBroad(c.rules);
    BranchFindingRaised(branches, c, now, branches[b].finding);
    HiddenBehind(branches[b], c.rules, broad, scoped);
  }

  lemma HiddenBehind(branch: Branch, rules: seq<AccessRule>, broad: AccessRule, scoped: AccessRule)
    requires rules == [broad, scoped] && IsBroad(broad.path) && !Admits(branch, broad.verb)
    requires !IsBroad(scoped.path) && Reaches(branch, scoped)
    ensures Hidden(branch, rules)
  {
    assert rules[0] == broad && rules[1] == scoped;
    assert forall i :: 0 <= i < |rules| && IsBroad(rules[i].path) ==> rules[i] == broad;
  }

  /** GET on everything hides POST on the users of the account. */
  lemma ReadingHidesWriting(branches: seq<Branch>, b: nat, c: Credential, now: int)
    requires Sensitive(branches) && b < |branches| && branches[b] == Branch(AccountControl, "/me/identity", WRITES)
    requires Examines(c) && c.rules == [AccessRule("GET", "/*"), AccessRule("POST", "/me/identity")]
    ensures Raised(branches, c, now, BroadAccess) && !Raised(branches, c, now, AccountControl)
    ensures Hidden(branches[b], c.rules)
  {
    var broad, scoped := AccessRule("GET", "/*"), AccessRule("POST", "/me/identity");
    ReadingIsNoWrite(branches[b]);
    EverythingIsBroad(broad.path);
    NamesItsBranch(branches[b], scoped);
    ABroadRuleHidesAScopedOne(branches, b, c, now, broad, scoped);
  }

  lemma ReadingIsNoWrite(branch: Branch)
    requires branch.verbs == WRITES
    ensures !Admits(branch, "GET") && Admits(branch, "POST")
  {
    assert branch.verbs[0] == "POST";
    assert Upper("GET")[0] == 'G' && Upper("POST")[0] == 'P' && Upper("PUT")[0] == 'P' && Upper("DELETE")[0] == 'D';
  }

  lemma EverythingIsBroad(path: string)
    requires path == "/*"
    ensures IsBroad(path)
  {
    assert "/" + "*" == path;
    BroadFixedParts("/");
    BroadBeginning(path, "/");
  }

  lemma NamesItsBranch(branch: Branch, rule: AccessRule)
    requires branch.path == rule.path == "/me/identity" && Admits(branch, rule.verb)
    ensures Reaches(branch, rule) && !IsBroad(rule.path)
  {
    StarAtIndex(rule.path);
    assert '*' !in rule.path;
    NotInSlash(rule.path);
  }

  lemma NotInSlash(path: string)
    requires path == "/me/identity"
    ensures !HasSuffix(path, "/")
  {
    EndsInSlash(path);
  }

  /** It is one of the branches of the audit. */
  lemma IdentityIsABranch()
    ensures |SENSITIVE_BRANCHES| > 1 && SENSITIVE_BRANCHES[1] == Branch(AccountControl, "/me/identity", WRITES)
  {
  }

  /** The broad finding hides no branch of a list from a key if and only if every branch some rule
      reaches admits the method of a broad rule. */
  lemma NothingIsHiddenExactly(branches: seq<Branch>, rules: seq<AccessRule>)
    requires Sensitive(branches) && RaisesBroad(rules)
    ensures (forall b :: 0 <= b < |branches| ==> !Hidden(branches[b], rules))
            <==> forall b, i :: 0 <= b < |branches| && 0 <= i < |rules| && Reaches(branches[b], rules[i])
                                ==> BroadlyAdmitted(branches[b], rules)
  {
    forall b | 0 <= b < |branches|
      ensures BroadlyReached(branches[b], rules) <==> BroadlyAdmitted(branches[b], rules)
    {
      BroadRulesReachByMethod(branches[b], rules);
    }
  }

  /** The path can reach below the account. */
  predicate TouchesAccount(path: string) {
    var star := Index(path, "*");
    if star < 0 then "/me/" <= path && !HasSuffix(path, "/")
    else path[..star] <= "/me/" || "/me/" <= path[..star]
  }

  predicate HasBroadMethod(rules: seq<AccessRule>, verb: string) {
    exists i :: 0 <= i < |rules| && IsBroad(rules[i].path) && EqualFold(rules[i].verb, verb)
  }

  /** Whatever the list of sensitive branches, the broad finding hides none of them from a key if and
      only if each rule that can reach below the account has the method of a broad one. */
  lemma HidesNothingExactly(rules: seq<AccessRule>)
    requires RaisesBroad(rules)
    ensures (forall branch: Branch :: IsSensitive(branch) ==> !Hidden(branch, rules))
            <==> forall i :: 0 <= i < |rules| && TouchesAccount(rules[i].path) ==> HasBroadMethod(rules, rules[i].verb)
  {
    if forall branch: Branch :: IsSensitive(branch) ==> !Hidden(branch, rules) {
      forall i | 0 <= i < |rules| && TouchesAccount(rules[i].path) ensures HasBroadMethod(rules, rules[i].verb) {
        TouchedBranch(rules, i);
      }
    }
    if forall i :: 0 <= i < |rules| && TouchesAccount(rules[i].path) ==> HasBroadMethod(rules, rules[i].verb) {
      forall branch: Branch | IsSensitive(branch) ensures !Hidden(branch, rules) {
        if SomeReaches(branch, rules) {
          var i :| 0 <= i < |rules| && Reaches(branch, rules[i]);
          ReachingTouches(branch.path, rules[i].path);
          SpokenFor(branch, rules, rules[i].verb);
        }
      }
    }
  }

  /** A branch hidden from the key, unless a broad rule has the method of the rule given. */
  lemma TouchedBranch(rules: seq<AccessRule>, i: nat)
    requires RaisesBroad(rules) && i < |rules| && TouchesAccount(rules[i].path)
    requires forall branch: Branch :: IsSensitive(branch) ==> !Hidden(branch, rules)
    ensures HasBroadMethod(rules, rules[i].verb)
  {
    var path, verb := rules[i].path, rules[i].verb;
    var branch := Branch(AccountControl, TouchedPath(path), [verb]);
    AdmitsOne(branch, verb, verb);
    assert IsSensitive(branch) && Reaches(branch, rules[i]);
    assert !Hidden(branch, rules);
    var j :| 0 <= j < |rules| && IsBroad(rules[j].path) && Reaches(branch, rules[j]);
    AdmitsOne(branch, verb, rules[j].verb);
  }

  function TouchedPath(path: string): (branch: string)
    requires TouchesAccount(path)
    ensures "/me/" <= branch && ReachesPath(branch, path)
  {
    var star := Index(path, "*");
    if star < 0 then path else if path[..star] <= "/me/" then "/me/" else path[..star]
  }

  lemma ReachingTouches(branch: string, path: string)
    requires "/me/" <= branch && ReachesPath(branch, path)
    ensures TouchesAccount(path)
  {
    var star := Index(path, "*");
    if star >= 0 && path[..star] <= branch {
      assert forall i :: 0 <= i < |path[..star]| ==> path[..star][i] == branch[i];
      assert forall i :: 0 <= i < 4 ==> "/me/"[i] == branch[i];
    }
  }

  lemma AdmitsOne(branch: Branch, only: string, verb: string)
    requires branch.verbs == [only]
    ensures Admits(branch, verb) <==> EqualFold(verb, only)
  {
    assert branch.verbs[0] == only;
  }

  lemma SpokenFor(branch: Branch, rules: seq<AccessRule>, verb: string)
    requires IsSensitive(branch) && Admits(branch, verb) && HasBroadMethod(rules, verb)
    ensures BroadlyReached(branch, rules)
  {
    var i :| 0 <= i < |rules| && IsBroad(rules[i].path) && EqualFold(rules[i].verb, verb);
    BroadReachesEveryBranch(rules[i].path, branch);
    AdmittedAlike(branch, rules[i].verb, verb);
  }

  lemma AdmittedAlike(branch: Branch, verb: string, other: string)
    requires EqualFold(verb, other)
    ensures Admits(branch, verb) <==> Admits(branch, other)
  {
  }

  // The rules that cover the whole account

  /** A rule covers everything under the account if and only if it ends in a star and covers the
      account path itself. */
  lemma AccountRulesExactly(path: string)
    ensures CoversAccount(path) <==> HasSuffix(path, "*") && Matches(path, "/me/")
  {
    if CoversAccount(path) {
      assert "/me/" + "" == "/me/";
      assert Matches(path, "/me/" + "");
      OnlyStarsEndAnyhow(path);
    }
    if HasSuffix(path, "*") && Matches(path, "/me/") {
      forall more: string ensures Matches(path, "/me/" + more) {
        StarEndsAnyhow(path, "/me/", more);
      }
    }
  }

  lemma OnlyStarsEndAnyhow(path: string)
    requires CoversAccount(path)
    ensures HasSuffix(path, "*")
  {
    assert Matches(path, "/me/" + "x") && Matches(path, "/me/" + "y");
    if path != "" && path[|path| - 1] != '*' {
      LastCharacter(path, "/me/" + "x");
      LastCharacter(path, "/me/" + "y");
      assert false;
    } else if path != "" {
      assert path[|path| - 1..] == "*";
    }
  }

  lemma StarEndsAnyhow(path: string, start: string, more: string)
    requires HasSuffix(path, "*") && Matches(path, start)
    ensures Matches(path, start + more)
  {
    assert path[|path| - 1] == path[|path| - 1..][0] == '*';
    TrailingStar(path, start, more);
  }

  /** More than stars may stand behind the beginning of such a rule. */
  lemma SlashesMayStandBetween()
    ensures CoversAccount("/*/*") && IsBroad("/*/*")
  {
    var path, rest := "/*/*", "/*";
    assert path == "/" + ("*" + rest) && "/me/" == "/" + ("me" + "/");
    assert rest == "/" + "*" && "/" <= "/";
    StarCoversStart("/", "/");
    FillFirstStar("/", "me", rest, "/");
    assert path[3..] == "*";
    AccountRulesExactly(path);
    assert "/" + "*" <= path;
    BroadFixedParts("/");
    BroadBeginning(path, "/");
  }
}
