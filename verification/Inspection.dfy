/** The findings of one credential, and what the reach and breadth findings tell about the calls
    its rules permit (internal/audit/audit.go). */
module Inspection {
  import opened Text
  import opened Glob
  import opened Net
  import opened Credentials
  import opened Audit

  const DAY := 24 * 3600 * 1_000_000_000
  const UNUSED_GRACE := 30 * DAY
  const DORMANT_AFTER := 180 * DAY
  const EXPIRING_WITHIN := 7 * DAY

  // Broad rules

  predicate Everything(trimmed: string) {
    trimmed == "" || trimmed == "/me"
  }

  /** Nothing before the star, or the whole account, one closing slash aside. */
  predicate OpensAll(fixed: string) {
    Everything(TrimSuffix(fixed, "/"))
  }

  predicate IsBroad(path: string) {
    var star := Index(path, "*");
    star >= 0 && OpensAll(path[..star])
  }

  predicate Opening(fixed: string) {
    fixed == "" || fixed == "/" || fixed == "/me" || fixed == "/me/"
  }

  method HasBroadRule(rules: seq<AccessRule>) returns (broad: bool)
    ensures broad <==> exists i :: 0 <= i < |rules| && IsBroad(rules[i].path)
  {
    for i := 0 to |rules|
      invariant forall j :: 0 <= j < i ==> !IsBroad(rules[j].path)
    {
      var path := rules[i].path;
      var star := Index(path, "*");
      if star < 0 {
        continue;
      }
      var fixed := TrimSuffix(path[..star], "/");
      if fixed == "" || fixed == "/me" {
        assert Everything(fixed);
        return true;
      }
    }
    return false;
  }

  lemma BroadBeginning(path: string, fixed: string)
    requires '*' !in fixed && fixed + "*" <= path
    ensures IsBroad(path) <==> OpensAll(fixed)
  {
    assert path[|fixed|] == (fixed + "*")[|fixed|];
    assert forall i :: 0 <= i < |fixed| ==> path[i] == (fixed + "*")[i] == fixed[i];
    IndexOfFirst(path, '*', |fixed|);
    assert path[..|fixed|] == fixed;
  }

  lemma BroadFixedParts(fixed: string)
    ensures OpensAll(fixed) <==> Opening(fixed)
  {
    EndsInSlash(fixed);
    var trimmed := TrimSuffix(fixed, "/");
    assert fixed == trimmed || fixed == trimmed + "/";
    assert "" + "/" == "/" && "/me" + "/" == "/me/";
  }

  lemma BroadStart(path: string) returns (fixed: string)
    requires IsBroad(path)
    ensures Opening(fixed) && fixed + "*" <= path
  {
    var rest: string;
    fixed, rest := AtFirstStar(path);
    BroadFixedParts(fixed);
    Prefixed(fixed, "*", rest);
  }

  /** Broad, read off the text: one of four beginnings. */
  lemma BroadShape(path: string)
    ensures IsBroad(path) <==> exists fixed :: Opening(fixed) && fixed + "*" <= path
  {
    if IsBroad(path) {
      var fixed := BroadStart(path);
    }
    if fixed :| Opening(fixed) && fixed + "*" <= path {
      BroadFixedParts(fixed);
      BroadBeginning(path, fixed);
    }
  }

  /** What is relied on of a list of branches: they lie under the account and raise one of the two
      findings about them. */
  predicate IsSensitive(b: Branch) {
    "/me/" <= b.path && (b.finding == AccountControl || b.finding == BillingAccess)
  }

  predicate Sensitive(branches: seq<Branch>) {
    forall b :: 0 <= b < |branches| ==> IsSensitive(branches[b])
  }

  /** The branches of the audit are such a list. */
  lemma TheBranchesAreSensitive()
    ensures Sensitive(SENSITIVE_BRANCHES)
  {
    forall b | 0 <= b < |SENSITIVE_BRANCHES| ensures IsSensitive(SENSITIVE_BRANCHES[b]) {
      if b < 9 {
        AccountBranches(b);
      } else if b < 18 {
        BillingBranches(b);
      } else {
        MoreBillingBranches(b);
      }
    }
  }

  lemma AccountBranches(b: nat)
    requires b < 9
    ensures IsSensitive(SENSITIVE_BRANCHES[b])
  {
  }

  lemma BillingBranches(b: nat)
    requires 9 <= b < 18
    ensures IsSensitive(SENSITIVE_BRANCHES[b])
  {
  }

  lemma MoreBillingBranches(b: nat)
    requires 18 <= b < |SENSITIVE_BRANCHES|
    ensures IsSensitive(SENSITIVE_BRANCHES[b])
  {
  }

  /** The path of a broad rule reaches every such branch; whether the rule does is up to its method. */
  lemma BroadReachesEveryBranch(path: string, branch: Branch)
    requires IsBroad(path) && IsSensitive(branch)
    ensures ReachesPath(branch.path, path)
  {
    var fixed, rest := AtFirstStar(path);
    BroadFixedParts(fixed);
    OpeningsBegin(fixed, branch.path);
  }

  lemma OpeningsBegin(fixed: string, path: string)
    requires Opening(fixed) && "/me/" <= path
    ensures fixed <= path
  {
    assert "/me/"[..1] == "/" && "/me/"[..3] == "/me";
  }

  /** A rule path whose language holds every path under the account. */
  ghost predicate CoversAccount(path: string) {
    forall more: string :: Matches(path, "/me/" + more)
  }

  /** Of the rules that cover the whole account, exactly those starting with /m and a star escape
      the broad finding. */
  lemma BroadAmongAccountRules(path: string)
    requires CoversAccount(path)
    ensures IsBroad(path) <==> !("/m*" <= path)
  {
    assert "/me/" + "" == "/me/" && "/me/" + "x" == "/me/x";
    assert Matches(path, "/me/" + "") && Matches(path, "/me/" + "x");
    if Index(path, "*") < 0 {
      NoStar(path);
      NoStarNamesItself(path, "/me/");
      NoStarNamesItself(path, "/me/x");
      assert false;
    } else {
      BroadIfItMatchesTheAccount(path);
    }
  }

  lemma BroadIfItMatchesTheAccount(path: string)
    requires Matches(path, "/me/") && Index(path, "*") >= 0
    ensures IsBroad(path) <==> !("/m*" <= path)
  {
    var fixed, rest := AtFirstStar(path);
    FixedStart(fixed, "*" + rest, "/me/");
    PrefixesOfAccount(fixed);
    BroadOrShort(fixed, rest);
  }

  lemma BroadOrShort(fixed: string, rest: string)
    requires fixed in ["", "/", "/m", "/me", "/me/"]
    ensures IsBroad(fixed + ("*" + rest)) <==> !("/m*" <= fixed + ("*" + rest))
  {
    var path := fixed + ("*" + rest);
    assert path == fixed + "*" + rest;
    BroadBeginning(path, fixed);
    BroadFixedParts(fixed);
    assert path[|fixed|] == '*';
    assert fixed == "/m" ==> fixed + "*" == "/m*";
    if "/m*" <= path {
      assert path[0] == '/' && path[1] == 'm' && path[2] == '*';
    }
  }

  lemma PrefixesOfAccount(fixed: string)
    requires fixed <= "/me/"
    ensures fixed in ["", "/", "/m", "/me", "/me/"]
  {
    assert fixed == "/me/"[..|fixed|];
    assert "/me/"[..0] == "" && "/me/"[..1] == "/" && "/me/"[..2] == "/m" && "/me/"[..3] == "/me";
    assert "/me/"[..4] == "/me/";
  }

  const WIDE := "/m*"
  const NARROW := "/me/*"

  /** The first covers all that the second does, and the second alone is called broad. */
  lemma BreadthIsNotMonotone()
    ensures CoversAccount(WIDE) && IsBroad(NARROW) && !IsBroad(WIDE)
    ensures forall path :: Matches(NARROW, path) ==> Matches(WIDE, path)
  {
    var m, me := "/m", "/me/";
    ShortAndLong(m, me);
    BroadOrShort(m, "");
    BroadOrShort(me, "");
    assert WIDE == m + "*" == m + ("*" + "") && NARROW == me + "*" == me + ("*" + "");
    assert NARROW[2] == 'e';
  }

  /** Of two fixed parts, the one that only begins the other covers more, and the account where it begins it. */
  lemma ShortAndLong(short: string, long: string)
    requires '*' !in long && short <= long
    ensures forall path :: Matches(long + "*", path) ==> Matches(short + "*", path)
    ensures short <= "/me/" ==> CoversAccount(short + "*")
  {
    forall path ensures Matches(long + "*", path) ==> Matches(short + "*", path) {
      StarCoversStart(long, path);
      StarCoversStart(short, path);
    }
    forall more: string | short <= "/me/" ensures Matches(short + "*", "/me/" + more) {
      StarCoversStart(short, "/me/" + more);
    }
  }

  lemma StarCoversStart(fixed: string, path: string)
    requires '*' !in fixed
    ensures Matches(fixed + "*", path) <==> fixed <= path
  {
    FixedStart(fixed, "*", path);
    if fixed <= path {
      StarMatchesAll(path[|fixed|..]);
    }
  }

  lemma StarMatchesAll(path: string)
    ensures Matches("*", path)
  {
    assert "*"[1..] == "" && path[|path|..] == "";
    assert Matches("", path[|path|..]);
  }

  // The findings

  predicate Examines(c: Credential) {
    !c.application.deleted && (c.status.Validated? || c.status.PendingValidation?)
  }

  predicate RestrictsAddresses(allowed: seq<Prefix>) {
    |allowed| > 0 && forall i :: 0 <= i < |allowed| ==> allowed[i].bits != 0
  }

  predicate Blank(s: string) {
    forall i :: 0 <= i < |s| ==> IsSpace(s[i])
  }

  predicate RaisesBroad(rules: seq<AccessRule>) {
    exists i :: 0 <= i < |rules| && IsBroad(rules[i].path)
  }

  predicate Raises(branches: seq<Branch>, rules: seq<AccessRule>, code: Code) {
    exists b, i :: 0 <= b < |branches| && 0 <= i < |rules|
                   && branches[b].finding == code && Reaches(branches[b], rules[i])
  }

  method ReachesAny(branches: seq<Branch>, rules: seq<AccessRule>, code: Code) returns (reached: bool)
    ensures reached <==> Raises(branches, rules, code)
  {
    for b := 0 to |branches|
      invariant forall a, j :: 0 <= a < b && 0 <= j < |rules| && branches[a].finding == code
                               ==> !Reaches(branches[a], rules[j])
    {
      var branch := branches[b];
      if branch.finding != code {
        continue;
      }
      for i := 0 to |rules|
        invariant forall j :: 0 <= j < i ==> !Reaches(branch, rules[j])
      {
        if Reaches(branch, rules[i]) {
          return true;
        }
      }
    }
    return false;
  }

  function When(raised: bool, code: Code, severity: Severity): seq<Finding> {
    if raised then [Finding(code, severity)] else []
  }

  function UseFindings(c: Credential, now: int): seq<Finding> {
    if c.lastUsedAt.None? then
      When(c.createdAt.Some? && now - c.createdAt.value > UNUSED_GRACE, NeverUsed, Caution)
    else
      When(now - c.lastUsedAt.value > DORMANT_AFTER, Dormant, Caution)
  }

  function ReachList(broad: bool, account: bool, billing: bool): seq<Finding> {
    if broad then [Finding(BroadAccess, Risk)]
    else When(account, AccountControl, Risk) + When(billing, BillingAccess, Caution)
  }

  function ExpiryFindings(c: Credential, now: int): seq<Finding> {
    if c.expiresAt.None? then
      [Finding(NoExpiry, Caution)]
    else
      When(now < c.expiresAt.value && c.expiresAt.value - now <= EXPIRING_WITHIN, ExpiresSoon, Caution)
  }

  function DateFindings(c: Credential, now: int): seq<Finding> {
    ExpiryFindings(c, now) + (if c.status.PendingValidation? then [] else UseFindings(c, now))
  }

  function Labels(blank: bool, support: bool): seq<Finding> {
    When(blank, NoDescription, Note) + When(support, SupportIssued, Caution)
  }

  function Parts(pending: bool, reach: seq<Finding>, anywhere: bool, dates: seq<Finding>, blank: bool,
                 support: bool): seq<Finding> {
    When(pending, AwaitsValidation, Caution) + reach + When(anywhere, NoIPRestriction, Caution) + dates
    + Labels(blank, support)
  }

  /** Everything wrong with a credential, in the order it is reported, given whether a rule of it is
      broad or reaches a branch of either kind. */
  function FindingsGiven(c: Credential, now: int, broad: bool, account: bool, billing: bool): seq<Finding> {
    if !Examines(c) then []
    else Parts(c.status.PendingValidation?, ReachList(broad, account, billing), !RestrictsAddresses(c.allowed),
               DateFindings(c, now), Blank(c.application.description), c.issuedBySupport)
  }

  function Findings(branches: seq<Branch>, c: Credential, now: int): seq<Finding> {
    FindingsGiven(c, now, RaisesBroad(c.rules), Raises(branches, c.rules, AccountControl),
                  Raises(branches, c.rules, BillingAccess))
  }

  method Inspect(branches: seq<Branch>, c: Credential, now: int) returns (findings: seq<Finding>)
    ensures findings == Findings(branches, c, now)
  {
    findings := [];
    if !Examines(c) {
      return;
    }
    if c.status.PendingValidation? {
      findings := findings + [Finding(AwaitsValidation, Caution)];
    }
    ghost var done := When(c.status.PendingValidation?, AwaitsValidation, Caution);
    assert findings == done;

    var reach := InspectReach(branches, c.rules);
    findings, done := findings + reach, done + reach;
    if !RestrictsAddresses(c.allowed) {
      findings := findings + [Finding(NoIPRestriction, Caution)];
    }
    done := done + When(!RestrictsAddresses(c.allowed), NoIPRestriction, Caution);
    assert findings == done;

    var dates := InspectDates(c, now);
    findings := findings + dates;
    done := done + DateFindings(c, now);
    assert findings == done;

    var labels := InspectLabels(c);
    findings := findings + labels;
  }

  method InspectLabels(c: Credential) returns (findings: seq<Finding>)
    ensures findings == Labels(Blank(c.application.description), c.issuedBySupport)
  {
    findings := [];
    if Blank(c.application.description) {
      findings := findings + [Finding(NoDescription, Note)];
    }
    if c.issuedBySupport {
      findings := findings + [Finding(SupportIssued, Caution)];
    }
  }

  method InspectDates(c: Credential, now: int) returns (findings: seq<Finding>)
    ensures findings == DateFindings(c, now)
  {
    findings := [];
    if c.expiresAt.None? {
      findings := findings + [Finding(NoExpiry, Caution)];
    } else if now < c.expiresAt.value && c.expiresAt.value - now <= EXPIRING_WITHIN {
      findings := findings + [Finding(ExpiresSoon, Caution)];
    }
    if !c.status.PendingValidation? {
      if c.lastUsedAt.None? {
        if c.createdAt.Some? && now - c.createdAt.value > UNUSED_GRACE {
          findings := findings + [Finding(NeverUsed, Caution)];
        }
      } else if now - c.lastUsedAt.value > DORMANT_AFTER {
        findings := findings + [Finding(Dormant, Caution)];
      }
    }
  }

  method InspectReach(branches: seq<Branch>, rules: seq<AccessRule>) returns (findings: seq<Finding>)
    ensures findings == ReachList(RaisesBroad(rules), Raises(branches, rules, AccountControl),
                                  Raises(branches, rules, BillingAccess))
  {
    var broad := HasBroadRule(rules);
    if broad {
      return [Finding(BroadAccess, Risk)];
    }
    findings := [];
    var account := ReachesAny(branches, rules, AccountControl);
    if account {
      findings := findings + [Finding(AccountControl, Risk)];
    }
    var billing := ReachesAny(branches, rules, BillingAccess);
    if billing {
      findings := findings + [Finding(BillingAccess, Caution)];
    }
    assert findings == ReachList(false, account, billing);
  }

  predicate Has(findings: seq<Finding>, code: Code) {
    exists i :: 0 <= i < |findings| && findings[i].code == code
  }

  lemma HasConcat(a: seq<Finding>, b: seq<Finding>, code: Code)
    ensures Has(a + b, code) <==> Has(a, code) || Has(b, code)
  {
    if i :| 0 <= i < |b| && b[i].code == code {
      assert (a + b)[|a| + i].code == code;
    }
    if i :| 0 <= i < |a| && a[i].code == code {
      assert (a + b)[i].code == code;
    }
  }

  predicate Raised(branches: seq<Branch>, c: Credential, now: int, code: Code) {
    Has(Findings(branches, c, now), code)
  }

  /** A call under a sensitive branch that the rules permit. */
  ghost predicate SensitiveCall(branches: seq<Branch>, rules: seq<AccessRule>, b: nat, verb: string, route: string) {
    b < |branches| && Admits(branches[b], verb)
    && RouteOf(branches[b].path, route) && Permitted(rules, verb, route)
  }

  /** What each finding means, given whether a rule is broad or reaches a branch of either kind. The
      codes about the use of a key wait until it is validated. */
  predicate GroundsGiven(c: Credential, now: int, broad: bool, account: bool, billing: bool, code: Code) {
    match code
    case BroadAccess => broad
    case AccountControl => !broad && account
    case BillingAccess => !broad && billing
    case NoIPRestriction => !RestrictsAddresses(c.allowed)
    case NoExpiry => c.expiresAt.None?
    case ExpiresSoon => c.expiresAt.Some? && now < c.expiresAt.value <= now + EXPIRING_WITHIN
    case NeverUsed =>
      c.status.Validated? && c.lastUsedAt.None? && c.createdAt.Some? && c.createdAt.value + UNUSED_GRACE < now
    case Dormant => c.status.Validated? && c.lastUsedAt.Some? && c.lastUsedAt.value + DORMANT_AFTER < now
    case NoDescription => Blank(c.application.description)
    case SupportIssued => c.issuedBySupport
    case AwaitsValidation => c.status.PendingValidation?
    case _ => false
  }

  /** Each finding is raised exactly on its grounds, for a credential that is examined. */
  lemma RaisedOnItsGrounds(c: Credential, now: int, broad: bool, account: bool, billing: bool, code: Code)
    ensures Has(FindingsGiven(c, now, broad, account, billing), code)
            <==> Examines(c) && GroundsGiven(c, now, broad, account, billing, code)
  {
    if Examines(c) {
      ReachListRaised(broad, account, billing, code);
      DatesRaised(c, now, code);
      PartsRaised(c.status.PendingValidation?, ReachList(broad, account, billing), !RestrictsAddresses(c.allowed),
                  DateFindings(c, now), Blank(c.application.description), c.issuedBySupport, code);
      GroundsAddUp(c, now, broad, account, billing, code);
    }
  }

  /** The grounds, part by part of the list. */
  lemma GroundsAddUp(c: Credential, now: int, broad: bool, account: bool, billing: bool, code: Code)
    ensures GroundsGiven(c, now, broad, account, billing, code) <==>
            || (if broad then code == BroadAccess
                else (code == AccountControl && account) || (code == BillingAccess && billing))
            || (code in {NoExpiry, ExpiresSoon, NeverUsed, Dormant} && GroundsGiven(c, now, false, false, false, code))
            || (c.status.PendingValidation? && code == AwaitsValidation)
            || (!RestrictsAddresses(c.allowed) && code == NoIPRestriction)
            || (Blank(c.application.description) && code == NoDescription)
            || (c.issuedBySupport && code == SupportIssued)
  {
  }

  lemma PartsRaised(pending: bool, reach: seq<Finding>, anywhere: bool, dates: seq<Finding>, blank: bool, support: bool,
                    code: Code)
    ensures Has(Parts(pending, reach, anywhere, dates, blank, support), code) <==>
            || Has(reach, code) || Has(dates, code)
            || (pending && code == AwaitsValidation) || (anywhere && code == NoIPRestriction)
            || (blank && code == NoDescription) || (support && code == SupportIssued)
  {
    var f1, f3 := When(pending, AwaitsValidation, Caution), When(anywhere, NoIPRestriction, Caution);
    var f5, f6 := When(blank, NoDescription, Note), When(support, SupportIssued, Caution);
    HasConcat(f1, reach, code);
    HasConcat(f1 + reach, f3, code);
    HasConcat(f1 + reach + f3, dates, code);
    HasConcat(f5, f6, code);
    HasConcat(f1 + reach + f3 + dates, f5 + f6, code);
    WhenRaises(pending, AwaitsValidation, Caution, code);
    WhenRaises(anywhere, NoIPRestriction, Caution, code);
    WhenRaises(blank, NoDescription, Note, code);
    WhenRaises(support, SupportIssued, Caution, code);
  }

  lemma ReachListRaised(broad: bool, account: bool, billing: bool, code: Code)
    ensures Has(ReachList(broad, account, billing), code) <==>
            if broad then code == BroadAccess
            else (code == AccountControl && account) || (code == BillingAccess && billing)
  {
    WhenRaises(broad, BroadAccess, Risk, code);
    HasConcat(When(account, AccountControl, Risk), When(billing, BillingAccess, Caution), code);
    WhenRaises(account, AccountControl, Risk, code);
    WhenRaises(billing, BillingAccess, Caution, code);
  }

  lemma WhenRaises(raised: bool, code: Code, severity: Severity, asked: Code)
    ensures Has(When(raised, code, severity), asked) <==> raised && code == asked
  {
    if raised {
      assert When(raised, code, severity)[0].code == code;
    }
  }

  lemma DatesRaised(c: Credential, now: int, code: Code)
    requires Examines(c)
    ensures Has(DateFindings(c, now), code)
            <==> code in {NoExpiry, ExpiresSoon, NeverUsed, Dormant} && GroundsGiven(c, now, false, false, false, code)
  {
    HasConcat(ExpiryFindings(c, now), if c.status.PendingValidation? then [] else UseFindings(c, now), code);
    if c.expiresAt.None? {
      WhenRaises(true, NoExpiry, Caution, code);
    } else {
      WhenRaises(now < c.expiresAt.value && c.expiresAt.value - now <= EXPIRING_WITHIN, ExpiresSoon, Caution, code);
    }
    if c.lastUsedAt.None? {
      WhenRaises(c.createdAt.Some? && now - c.createdAt.value > UNUSED_GRACE, NeverUsed, Caution, code);
    } else {
      WhenRaises(now - c.lastUsedAt.value > DORMANT_AFTER, Dormant, Caution, code);
    }
  }

  lemma BranchFindingRaised(branches: seq<Branch>, c: Credential, now: int, code: Code)
    requires code in {AccountControl, BillingAccess}
    ensures Raised(branches, c, now, code) <==> Examines(c) && !RaisesBroad(c.rules) && Raises(branches, c.rules, code)
    ensures Raised(branches, c, now, BroadAccess) <==> Examines(c) && RaisesBroad(c.rules)
  {
    var broad, account, billing := RaisesBroad(c.rules), Raises(branches, c.rules, AccountControl),
                                   Raises(branches, c.rules, BillingAccess);
    RaisedOnItsGrounds(c, now, broad, account, billing, code);
    RaisedOnItsGrounds(c, now, broad, account, billing, BroadAccess);
  }

  // The order of the findings

  function Rank(code: Code): nat {
    match code
    case AwaitsValidation => 0
    case BroadAccess => 1
    case AccountControl => 2
    case BillingAccess => 3
    case NoIPRestriction => 4
    case NoExpiry => 5
    case ExpiresSoon => 6
    case NeverUsed => 7
    case Dormant => 8
    case NoDescription => 9
    case SupportIssued => 10
    case _ => 11
  }

  function SeverityOf(code: Code): Severity {
    match code
    case BroadAccess => Risk
    case AccountControl => Risk
    case NoDescription => Note
    case _ => Caution
  }

  /** Findings between two ranks, each once, in their order and with their severity. */
  predicate Ordered(fs: seq<Finding>, low: nat, high: nat) {
    && (forall i :: 0 <= i < |fs| ==> low <= Rank(fs[i].code) < high && fs[i].severity == SeverityOf(fs[i].code))
    && (forall i, j :: 0 <= i < j < |fs| ==> Rank(fs[i].code) < Rank(fs[j].code))
  }

  lemma OrderedConcat(a: seq<Finding>, b: seq<Finding>, low: nat, middle: nat, high: nat)
    requires Ordered(a, low, middle) && Ordered(b, middle, high) && low <= middle <= high
    ensures Ordered(a + b, low, high)
  {
  }

  lemma WhenIsOrdered(raised: bool, code: Code)
    ensures Ordered(When(raised, code, SeverityOf(code)), Rank(code), Rank(code) + 1)
  {
  }

  lemma ReachIsOrdered(broad: bool, account: bool, billing: bool)
    ensures Ordered(ReachList(broad, account, billing), 1, 4)
  {
  }

  lemma DatesAreOrdered(c: Credential, now: int)
    ensures Ordered(DateFindings(c, now), 5, 9)
  {
    OrderedConcat(ExpiryFindings(c, now), if c.status.PendingValidation? then [] else UseFindings(c, now), 5, 7, 9);
  }

  lemma LabelsAreOrdered(blank: bool, support: bool)
    ensures Ordered(Labels(blank, support), 9, 11)
  {
  }

  lemma FiveAreOrdered(f1: seq<Finding>, f2: seq<Finding>, f3: seq<Finding>, f4: seq<Finding>, f5: seq<Finding>)
    requires Ordered(f1, 0, 1) && Ordered(f2, 1, 4) && Ordered(f3, 4, 5) && Ordered(f4, 5, 9) && Ordered(f5, 9, 11)
    ensures Ordered(f1 + f2 + f3 + f4 + f5, 0, 11)
  {
    OrderedConcat(f1, f2, 0, 1, 4);
    OrderedConcat(f1 + f2, f3, 0, 4, 5);
    OrderedConcat(f1 + f2 + f3, f4, 0, 5, 9);
    OrderedConcat(f1 + f2 + f3 + f4, f5, 0, 9, 11);
  }

  lemma PartsAreOrdered(pending: bool, reach: seq<Finding>, anywhere: bool, dates: seq<Finding>, blank: bool,
                        support: bool)
    requires Ordered(reach, 1, 4) && Ordered(dates, 5, 9)
    ensures Ordered(Parts(pending, reach, anywhere, dates, blank, support), 0, 11)
  {
    WhenIsOrdered(pending, AwaitsValidation);
    WhenIsOrdered(anywhere, NoIPRestriction);
    LabelsAreOrdered(blank, support);
    FiveAreOrdered(When(pending, AwaitsValidation, Caution), reach, When(anywhere, NoIPRestriction, Caution), dates,
                   Labels(blank, support));
  }

  /** Every finding is listed once, under its own severity, in one order for all credentials. */
  lemma FindingsAreOrdered(c: Credential, now: int, broad: bool, account: bool, billing: bool)
    ensures Ordered(FindingsGiven(c, now, broad, account, billing), 0, 11)
  {
    ReachIsOrdered(broad, account, billing);
    DatesAreOrdered(c, now);
    PartsAreOrdered(c.status.PendingValidation?, ReachList(broad, account, billing), !RestrictsAddresses(c.allowed),
                    DateFindings(c, now), Blank(c.application.description), c.issuedBySupport);
  }

  lemma {:induction false} OrderedListsAreDetermined(a: seq<Finding>, b: seq<Finding>, low: nat, high: nat)
    requires Ordered(a, low, high) && Ordered(b, low, high) && high <= 11
    requires forall code :: Has(a, code) <==> Has(b, code)
    ensures a == b
  {
    if a == [] {
      assert b != [] ==> Has(b, b[0].code);
    } else {
      assert Has(a, a[0].code) && Has(b, a[0].code);
      assert Has(b, b[0].code) && Has(a, b[0].code);
      SameCode(a[0].code, b[0].code);
      forall code ensures Has(a[1..], code) <==> Has(b[1..], code) {
        HasConcat([a[0]], a[1..], code);
        HasConcat([b[0]], b[1..], code);
        assert a == [a[0]] + a[1..] && b == [b[0]] + b[1..];
        assert Has(a[1..], code) ==> code != a[0].code;
        assert Has(b[1..], code) ==> code != b[0].code;
      }
      OrderedListsAreDetermined(a[1..], b[1..], low, high);
    }
  }

  /** The grounds and the order leave one list: whatever meets both is what is reported. */
  lemma FindingsAreDetermined(c: Credential, now: int, broad: bool, account: bool, billing: bool, fs: seq<Finding>)
    ensures fs == FindingsGiven(c, now, broad, account, billing) <==>
            Ordered(fs, 0, 11)
            && forall code :: Has(fs, code) <==> Examines(c) && GroundsGiven(c, now, broad, account, billing, code)
  {
    var all := FindingsGiven(c, now, broad, account, billing);
    FindingsAreOrdered(c, now, broad, account, billing);
    forall code ensures Has(all, code) <==> Examines(c) && GroundsGiven(c, now, broad, account, billing, code) {
      RaisedOnItsGrounds(c, now, broad, account, billing, code);
    }
    if Ordered(fs, 0, 11)
       && forall code :: Has(fs, code) <==> Examines(c) && GroundsGiven(c, now, broad, account, billing, code) {
      OrderedListsAreDetermined(fs, all, 0, 11);
    }
  }

  lemma SameCode(a: Code, b: Code)
    ensures Rank(a) == Rank(b) && Rank(a) < 11 ==> a == b
  {
  }

  lemma ReachedBranchIsReported(branches: seq<Branch>, c: Credential, now: int, b: nat, i: nat)
    requires Sensitive(branches) && Examines(c) && b < |branches| && i < |c.rules|
    requires Reaches(branches[b], c.rules[i])
    ensures Raised(branches, c, now, branches[b].finding) || Raised(branches, c, now, BroadAccess)
  {
    var code := branches[b].finding;
    assert code in {AccountControl, BillingAccess};
    assert Raises(branches, c.rules, code);
    BranchFindingRaised(branches, c, now, code);
  }

  /** A broad rule reaches the branch. */
  predicate BroadlyReached(branch: Branch, rules: seq<AccessRule>) {
    exists i :: 0 <= i < |rules| && IsBroad(rules[i].path) && Reaches(branch, rules[i])
  }

  /** The method of a broad rule is one the branch admits. */
  predicate BroadlyAdmitted(branch: Branch, rules: seq<AccessRule>) {
    exists i :: 0 <= i < |rules| && IsBroad(rules[i].path) && Admits(branch, rules[i].verb)
  }

  lemma BroadRulesReachByMethod(branch: Branch, rules: seq<AccessRule>)
    requires IsSensitive(branch)
    ensures BroadlyReached(branch, rules) <==> BroadlyAdmitted(branch, rules)
  {
    if i :| 0 <= i < |rules| && IsBroad(rules[i].path) && Admits(branch, rules[i].verb) {
      BroadReachesEveryBranch(rules[i].path, branch);
    }
  }

  /** A permitted call under a sensitive branch raises the finding of the branch or, in its place, the
      broad one, which speaks for that branch exactly when the branch admits a broad rule's method. */
  lemma SensitiveCallsAreReported(branches: seq<Branch>, c: Credential, now: int, b: nat, verb: string, route: string)
    requires Sensitive(branches) && Examines(c) && SensitiveCall(branches, c.rules, b, verb, route)
    ensures Raised(branches, c, now, branches[b].finding) || Raised(branches, c, now, BroadAccess)
    ensures BroadlyReached(branches[b], c.rules) <==> BroadlyAdmitted(branches[b], c.rules)
  {
    var branch := branches[b];
    BroadRulesReachByMethod(branch, c.rules);
    var i :| 0 <= i < |c.rules| && EqualFold(c.rules[i].verb, verb) && Matches(c.rules[i].path, route);
    ReachesNeverMisses(branch.path, c.rules[i].path, route);
    ReachedBranchIsReported(branches, c, now, b, i);
  }

  /** A rule without a star that ends in a slash reaches no sensitive branch. */
  lemma PlainSlashReachesNothing(branch: Branch, rule: AccessRule)
    requires IsSensitive(branch) && '*' !in rule.path && HasSuffix(rule.path, "/")
    ensures !Reaches(branch, rule)
  {
    EndsInSlash(rule.path);
    StarAtIndex(rule.path);
  }

  lemma StarAtIndex(path: string)
    ensures Index(path, "*") >= 0 ==> '*' in path
  {
    if Index(path, "*") >= 0 {
      var fixed, rest := AtFirstStar(path);
      assert path[|fixed|] == '*';
    }
  }

  /** When no rule has a star and ends in a slash, a branch finding is raised exactly when some call
      under such a branch is permitted and no rule is broad. */
  lemma BranchFindingsAreExact(branches: seq<Branch>, c: Credential, now: int, code: Code)
    requires Sensitive(branches) && code in {AccountControl, BillingAccess}
    requires forall i :: 0 <= i < |c.rules| && '*' in c.rules[i].path ==> !HasSuffix(c.rules[i].path, "/")
    ensures Raised(branches, c, now, code) <==>
            Examines(c) && !Raised(branches, c, now, BroadAccess)
            && exists b: nat, verb, route ::
                 SensitiveCall(branches, c.rules, b, verb, route) && branches[b].finding == code
  {
    BranchFindingRaised(branches, c, now, code);
    if Raised(branches, c, now, code) {
      var b, verb, route := CallOfBranch(branches, c.rules, code);
      assert SensitiveCall(branches, c.rules, b, verb, route) && branches[b].finding == code;
    }
    forall b: nat, verb, route | SensitiveCall(branches, c.rules, b, verb, route)
      ensures Examines(c) ==> Raised(branches, c, now, branches[b].finding) || Raised(branches, c, now, BroadAccess)
    {
      if Examines(c) {
        SensitiveCallsAreReported(branches, c, now, b, verb, route);
      }
    }
  }

  lemma CallOfBranch(branches: seq<Branch>, rules: seq<AccessRule>, code: Code)
    returns (b: nat, verb: string, route: string)
    requires Sensitive(branches) && Raises(branches, rules, code)
    requires forall i :: 0 <= i < |rules| && '*' in rules[i].path ==> !HasSuffix(rules[i].path, "/")
    ensures SensitiveCall(branches, rules, b, verb, route) && branches[b].finding == code
  {
    var k, i :| 0 <= k < |branches| && 0 <= i < |rules|
                && branches[k].finding == code && Reaches(branches[k], rules[i]);
    if HasSuffix(rules[i].path, "/") {
      PlainSlashReachesNothing(branches[k], rules[i]);
      assert false;
    }
    b, verb := k, rules[i].verb;
    route := ReachedRoute(branches[b].path, rules[i].path);
  }
}
