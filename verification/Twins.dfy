/** Credentials nothing tells apart (internal/audit/audit.go). */
module Twins {
  import opened Text
  import opened Sorting
  import opened Net
  import opened Credentials
  import opened Inspection

  // What two credentials must share

  /** A rule with its method in upper case. */
  function Folded(rule: AccessRule): AccessRule {
    AccessRule(Upper(rule.verb), rule.path)
  }

  /** Folding leaves the path, and makes methods one when they differ in letter case alone. */
  lemma FoldedExactly(r: AccessRule, s: AccessRule)
    ensures Folded(r) == Folded(s) <==> EqualFold(r.verb, s.verb) && r.path == s.path
  {
  }

  function Map<A, B>(xs: seq<A>, f: A -> B): (ys: seq<B>)
    ensures |ys| == |xs| && forall i :: 0 <= i < |xs| ==> ys[i] == f(xs[i])
  {
    seq(|xs|, i requires 0 <= i < |xs| => f(xs[i]))
  }

  /** The same application, the same rules up to method case, the same addresses, order aside. */
  predicate SameGrants(c: Credential, d: Credential) {
    && c.application.id == d.application.id
    && multiset(Map(c.rules, Folded)) == multiset(Map(d.rules, Folded))
    && multiset(c.allowed) == multiset(d.allowed)
  }

  // The fingerprint

  function Line(rule: AccessRule): string {
    Upper(rule.verb) + " " + rule.path
  }

  function SortedLines(c: Credential): seq<string> {
    SortBy(Map(c.rules, Line), Self)
  }

  function SortedAddresses(c: Credential, show: Prefix -> string): seq<string> {
    SortBy(Map(c.allowed, show), Self)
  }

  function Fingerprint(c: Credential, show: Prefix -> string): string {
    Decimal(c.application.id) + "\n" + Join(SortedLines(c), "\n") + "\n" + Join(SortedAddresses(c, show), "\n")
  }

  /** How a block is printed: never as nothing, on one line, without spaces, and as no other block. */
  ghost predicate Prints(show: Prefix -> string) {
    && (forall p :: show(p) != "" && '\n' !in show(p) && ' ' !in show(p))
    && (forall p, q :: show(p) == show(q) ==> p == q)
  }

  predicate OneLine(r: AccessRule) {
    '\n' !in r.verb && '\n' !in r.path
  }

  /** What the API returns: methods without spaces, methods and paths on one line. */
  predicate Plain(c: Credential) {
    forall i :: 0 <= i < |c.rules| ==> ' ' !in c.rules[i].verb && OneLine(c.rules[i])
  }

  // Multisets under a function

  /** Taking one element out takes its image out. */
  lemma MapWithout<A, B>(a: seq<A>, k: nat, f: A -> B) returns (rest: seq<A>)
    requires k < |a|
    ensures |rest| == |a| - 1 && rest == a[..k] + a[k + 1..]
    ensures multiset(a) == multiset(rest) + multiset{a[k]}
    ensures multiset(Map(a, f)) == multiset(Map(rest, f)) + multiset{f(a[k])}
  {
    rest := a[..k] + a[k + 1..];
    WithoutOne(a, k);
    WithoutOne(Map(a, f), k);
    assert Map(rest, f) == Map(a, f)[..k] + Map(a, f)[k + 1..];
  }

  lemma WithoutOne<T>(xs: seq<T>, k: nat)
    requires k < |xs|
    ensures multiset(xs) == multiset(xs[..k] + xs[k + 1..]) + multiset{xs[k]}
  {
    assert xs == xs[..k] + [xs[k]] + xs[k + 1..];
  }

  lemma LessTheSame<T>(x: multiset<T>, y: multiset<T>, one: T)
    requires x + multiset{one} == y + multiset{one}
    ensures x == y
  {
    assert x == x + multiset{one} - multiset{one} && y == y + multiset{one} - multiset{one};
  }

  lemma {:induction false} MapRespects<A, B>(a: seq<A>, b: seq<A>, f: A -> B)
    requires multiset(a) == multiset(b)
    ensures multiset(Map(a, f)) == multiset(Map(b, f))
    decreases |a|
  {
    assert |a| == |multiset(a)| == |multiset(b)| == |b|;
    if a != [] {
      SameElements(a, b, a[0]);
      var k :| 0 <= k < |b| && b[k] == a[0];
      var fewer := MapWithout(a, 0, f);
      var rest := MapWithout(b, k, f);
      LessTheSame(multiset(fewer), multiset(rest), a[0]);
      MapRespects(fewer, rest, f);
    }
  }

  lemma {:induction false} MapReflects<A, B>(a: seq<A>, b: seq<A>, f: A -> B)
    requires multiset(Map(a, f)) == multiset(Map(b, f))
    requires forall x, y :: x in a && y in b && f(x) == f(y) ==> x == y
    ensures multiset(a) == multiset(b)
    decreases |a|
  {
    assert |a| == |multiset(Map(a, f))| == |multiset(Map(b, f))| == |b|;
    if a != [] {
      SameElements(Map(a, f), Map(b, f), Map(a, f)[0]);
      var k :| 0 <= k < |b| && Map(b, f)[k] == f(a[0]);
      assert b[k] == a[0];
      var fewer := MapWithout(a, 0, f);
      var rest := MapWithout(b, k, f);
      LessTheSame(multiset(Map(fewer, f)), multiset(Map(rest, f)), f(a[0]));
      assert forall x :: x in fewer ==> x in a;
      assert forall y :: y in rest ==> y in b;
      MapReflects(fewer, rest, f);
    }
  }

  // Lines

  lemma UpperIsPlain(verb: string)
    ensures ' ' in Upper(verb) <==> ' ' in verb
    ensures '\n' in Upper(verb) <==> '\n' in verb
    ensures Upper(Upper(verb)) == Upper(verb)
  {
    var upper := Upper(verb);
    if ' ' in verb {
      var i :| 0 <= i < |verb| && verb[i] == ' ';
      assert upper[i] == ' ';
    }
    if '\n' in verb {
      var i :| 0 <= i < |verb| && verb[i] == '\n';
      assert upper[i] == '\n';
    }
    assert Upper(upper) == upper;
  }

  /** The method of a line ends at its first space. */
  lemma FirstSpace(r: AccessRule)
    requires ' ' !in r.verb
    ensures Line(r)[|r.verb|] == ' ' && forall k :: 0 <= k < |r.verb| ==> Line(r)[k] != ' '
    ensures Line(r)[..|r.verb|] == Upper(r.verb) && Line(r)[|r.verb| + 1..] == r.path
  {
    UpperIsPlain(r.verb);
    assert forall k :: 0 <= k < |r.verb| ==> Line(r)[k] == Upper(r.verb)[k];
  }

  /** A line gives its rule back. */
  lemma LineIsInjective(r: AccessRule, s: AccessRule)
    requires ' ' !in r.verb && ' ' !in s.verb
    ensures Line(r) == Line(s) <==> Folded(r) == Folded(s)
  {
    FirstSpace(r);
    FirstSpace(s);
    if Line(r) == Line(s) {
      assert |r.verb| == |s.verb|;
    }
  }

  lemma FoldedLine(r: AccessRule)
    requires ' ' !in r.verb
    ensures ' ' !in Folded(r).verb && Line(Folded(r)) == Line(r) && Folded(Folded(r)) == Folded(r)
  {
    UpperIsPlain(r.verb);
  }

  lemma LinesDecide(c: Credential, d: Credential)
    requires Plain(c) && Plain(d)
    ensures multiset(Map(c.rules, Line)) == multiset(Map(d.rules, Line))
            <==> multiset(Map(c.rules, Folded)) == multiset(Map(d.rules, Folded))
  {
    var a, b := Map(c.rules, Folded), Map(d.rules, Folded);
    forall i | 0 <= i < |c.rules| ensures ' ' !in a[i].verb && Line(a[i]) == Line(c.rules[i]) && Folded(a[i]) == a[i] {
      FoldedLine(c.rules[i]);
    }
    forall i | 0 <= i < |d.rules| ensures ' ' !in b[i].verb && Line(b[i]) == Line(d.rules[i]) && Folded(b[i]) == b[i] {
      FoldedLine(d.rules[i]);
    }
    assert Map(a, Line) == Map(c.rules, Line) && Map(b, Line) == Map(d.rules, Line);
    if multiset(a) == multiset(b) {
      MapRespects(a, b, Line);
    }
    if multiset(Map(a, Line)) == multiset(Map(b, Line)) {
      forall x, y | x in a && y in b && Line(x) == Line(y) ensures x == y {
        LineIsInjective(x, y);
      }
      MapReflects(a, b, Line);
    }
  }

  // Reading a fingerprint back

  /** The lines a list is printed on; an empty list still takes one. */
  function Lines(xs: seq<string>): seq<string> {
    if xs == [] then [""] else xs
  }

  predicate Spaced(lines: seq<string>) {
    forall i :: 0 <= i < |lines| ==> ' ' in lines[i]
  }

  predicate Unspaced(lines: seq<string>) {
    forall i :: 0 <= i < |lines| ==> lines[i] != "" && ' ' !in lines[i]
  }

  predicate OnOneLine(lines: seq<string>) {
    forall i :: 0 <= i < |lines| ==> '\n' !in lines[i]
  }

  lemma RuleLines(c: Credential)
    requires Plain(c)
    ensures Spaced(SortedLines(c)) && OnOneLine(SortedLines(c))
  {
    var rules := SortedLines(c);
    forall i | 0 <= i < |rules| ensures ' ' in rules[i] && '\n' !in rules[i] {
      SameElements(rules, Map(c.rules, Line), rules[i]);
      var k :| 0 <= k < |c.rules| && Line(c.rules[k]) == rules[i];
      UpperIsPlain(c.rules[k].verb);
      assert rules[i][|c.rules[k].verb|] == ' ';
    }
  }

  lemma AddressLines(c: Credential, show: Prefix -> string)
    requires Prints(show)
    ensures Unspaced(SortedAddresses(c, show)) && OnOneLine(SortedAddresses(c, show))
  {
    var addresses := SortedAddresses(c, show);
    forall i | 0 <= i < |addresses| ensures addresses[i] != "" && ' ' !in addresses[i] && '\n' !in addresses[i] {
      SameElements(addresses, Map(c.allowed, show), addresses[i]);
      var k :| 0 <= k < |c.allowed| && show(c.allowed[k]) == addresses[i];
    }
  }

  lemma ThreeParts(number: string, rules: seq<string>, addresses: seq<string>)
    requires '\n' !in number && OnOneLine(rules) && OnOneLine(addresses)
    ensures Split(number + "\n" + Join(rules, "\n") + "\n" + Join(addresses, "\n"), '\n')
            == [number] + Lines(rules) + Lines(addresses)
  {
    var pieces := [number] + Lines(rules) + Lines(addresses);
    JoinConcat([number], Lines(rules), "\n");
    JoinConcat([number] + Lines(rules), Lines(addresses), "\n");
    JoinLines(rules);
    JoinLines(addresses);
    assert ['\n'] == "\n";
    SplitJoin(pieces, '\n');
  }

  lemma JoinLines(xs: seq<string>)
    ensures Join(Lines(xs), "\n") == Join(xs, "\n")
    ensures OnOneLine(xs) ==> OnOneLine(Lines(xs))
  {
  }

  /** Lines with spaces, then lines without: the two lists are told apart. */
  lemma ListsAreToldApart(rules: seq<string>, addresses: seq<string>, rules': seq<string>, addresses': seq<string>)
    requires Lines(rules) + Lines(addresses) == Lines(rules') + Lines(addresses')
    requires Spaced(rules) && Spaced(rules') && Unspaced(addresses) && Unspaced(addresses')
    ensures rules == rules' && addresses == addresses'
  {
    var all, all' := Lines(rules) + Lines(addresses), Lines(rules') + Lines(addresses');
    var m, n := |Lines(rules)|, |Lines(rules')|;
    assert all[0] == Lines(rules)[0] && all'[0] == Lines(rules')[0];
    assert rules == [] <==> all[0] == "";
    assert rules' == [] <==> all'[0] == "";
    assert all[m] == Lines(addresses)[0] && all'[n] == Lines(addresses')[0];
    assert forall k :: 0 <= k < m && rules != [] ==> all[k] == rules[k];
    assert forall k :: 0 <= k < n && rules' != [] ==> all'[k] == rules'[k];
    assert m == n;
    assert all[..m] == Lines(rules) && all[m..] == Lines(addresses);
    assert all'[..n] == Lines(rules') && all'[n..] == Lines(addresses');
    assert addresses == [] <==> Lines(addresses) == [""];
    assert addresses' == [] <==> Lines(addresses') == [""];
  }

  lemma HeadsApart(m: string, a: seq<string>, b: seq<string>, n: string, a': seq<string>, b': seq<string>)
    requires [m] + a + b == [n] + a' + b'
    ensures m == n && a + b == a' + b'
  {
    assert [m] + a + b == [m] + (a + b) && [n] + a' + b' == [n] + (a' + b');
    assert ([m] + (a + b))[0] == ([n] + (a' + b'))[0];
    assert ([m] + (a + b))[1..] == a + b && ([n] + (a' + b'))[1..] == a' + b';
  }

  lemma EqualFingerprints(c: Credential, d: Credential, show: Prefix -> string)
    requires Plain(c) && Plain(d) && Prints(show)
    requires Fingerprint(c, show) == Fingerprint(d, show)
    ensures c.application.id == d.application.id
    ensures SortedLines(c) == SortedLines(d) && SortedAddresses(c, show) == SortedAddresses(d, show)
  {
    RuleLines(c);
    RuleLines(d);
    AddressLines(c, show);
    AddressLines(d, show);
    var m, n := Decimal(c.application.id), Decimal(d.application.id);
    ThreeParts(m, SortedLines(c), SortedAddresses(c, show));
    ThreeParts(n, SortedLines(d), SortedAddresses(d, show));
    HeadsApart(m, Lines(SortedLines(c)), Lines(SortedAddresses(c, show)),
               n, Lines(SortedLines(d)), Lines(SortedAddresses(d, show)));
    DecimalIsInjective(c.application.id, d.application.id);
    ListsAreToldApart(SortedLines(c), SortedAddresses(c, show), SortedLines(d), SortedAddresses(d, show));
  }

  /** The fingerprint ignores order and method case, and tells everything else apart. */
  lemma FingerprintsAgree(c: Credential, d: Credential, show: Prefix -> string)
    requires Plain(c) && Plain(d) && Prints(show)
    ensures Fingerprint(c, show) == Fingerprint(d, show) <==> SameGrants(c, d)
  {
    LinesDecide(c, d);
    if SameGrants(c, d) {
      SameListsPrintAlike(c, d, show);
    }
    if Fingerprint(c, show) == Fingerprint(d, show) {
      EqualFingerprints(c, d, show);
      assert multiset(Map(c.rules, Line)) == multiset(SortedLines(c)) == multiset(SortedLines(d));
      AddressesReflect(c, d, show);
    }
  }

  lemma SameListsPrintAlike(c: Credential, d: Credential, show: Prefix -> string)
    requires c.application.id == d.application.id && multiset(c.allowed) == multiset(d.allowed)
    requires multiset(Map(c.rules, Line)) == multiset(Map(d.rules, Line))
    ensures Fingerprint(c, show) == Fingerprint(d, show)
  {
    MapRespects(c.allowed, d.allowed, show);
    SortedIsCanonical(SortedLines(c), SortedLines(d));
    SortedIsCanonical(SortedAddresses(c, show), SortedAddresses(d, show));
  }

  lemma AddressesReflect(c: Credential, d: Credential, show: Prefix -> string)
    requires Prints(show) && SortedAddresses(c, show) == SortedAddresses(d, show)
    ensures multiset(c.allowed) == multiset(d.allowed)
  {
    assert multiset(Map(c.allowed, show)) == multiset(SortedAddresses(c, show)) == multiset(SortedAddresses(d, show));
    MapReflects(c.allowed, d.allowed, show);
  }

  // What the fingerprint cannot tell apart

  function Holding(rules: seq<AccessRule>, allowed: seq<Prefix>): Credential {
    Credential(1, Application(7, "", "", "", false, false), Validated, rules, allowed, None, None, None, false)
  }

  lemma UpperConcat(a: string, b: string)
    ensures Upper(a + b) == Upper(a) + Upper(b)
  {
    var whole, parts := Upper(a + b), Upper(a) + Upper(b);
    forall i | 0 <= i < |a + b| ensures whole[i] == parts[i] {
      assert (a + b)[i] == if i < |a| then a[i] else b[i - |a|];
    }
    assert |whole| == |parts|;
  }

  /** The rule printed on the same line that takes the first space of a method for its end. */
  lemma ReadAtItsFirstSpace(r: AccessRule) returns (s: AccessRule)
    requires ' ' in r.verb
    ensures ' ' !in s.verb && Line(s) == Line(r) && Folded(s) != Folded(r)
    ensures OneLine(r) ==> OneLine(s)
  {
    var head, tail := FirstWord(r.verb);
    s := AccessRule(head, Upper(tail) + " " + r.path);
    UpperWords(head, tail);
    UpperIsPlain(tail);
    Associative(Upper(head), " ", Upper(tail), " " + r.path);
    Associative(Upper(head), " ", Upper(tail) + " ", r.path);
    Associative(Upper(head) + " ", Upper(tail), " ", r.path);
    assert |Folded(s).verb| < |Folded(r).verb|;
  }

  lemma {:induction false} FirstWord(verb: string) returns (head: string, tail: string)
    requires ' ' in verb
    ensures verb == head + " " + tail && ' ' !in head
  {
    if verb[0] == ' ' {
      head, tail := "", verb[1..];
    } else {
      head, tail := FirstWord(verb[1..]);
      head := [verb[0]] + head;
    }
  }

  lemma UpperWords(head: string, tail: string)
    ensures Upper(head + " " + tail) == Upper(head) + " " + Upper(tail)
  {
    UpperConcat(head + " ", tail);
    UpperConcat(head, " ");
    assert Upper(" ") == " ";
  }

  /** A method without spaces, and no other, gives every rule it is in a line of its own. */
  lemma MethodsToldApart(verb: string)
    ensures ' ' !in verb <==>
            forall path, s: AccessRule :: ' ' !in s.verb && Line(AccessRule(verb, path)) == Line(s)
                                          ==> Folded(AccessRule(verb, path)) == Folded(s)
  {
    if ' ' in verb {
      var s := ReadAtItsFirstSpace(AccessRule(verb, ""));
    } else {
      forall path, s: AccessRule | ' ' !in s.verb && Line(AccessRule(verb, path)) == Line(s)
        ensures Folded(AccessRule(verb, path)) == Folded(s)
      {
        LineIsInjective(AccessRule(verb, path), s);
      }
    }
  }

  lemma OneRuleEach(r: AccessRule, s: AccessRule, show: Prefix -> string)
    requires Line(r) == Line(s) && Folded(r) != Folded(s)
    ensures Fingerprint(Holding([r], []), show) == Fingerprint(Holding([s], []), show)
    ensures !SameGrants(Holding([r], []), Holding([s], []))
  {
    assert Map([r], Line) == [Line(r)] == Map([s], Line);
    assert Map([r], Folded) == [Folded(r)] && Map([s], Folded) == [Folded(s)];
    assert Folded(r) in multiset([Folded(r)]) && Folded(r) !in multiset([Folded(s)]);
  }

  /** Rules on one line whose methods have no space but for one method. */
  predicate PlainBut(c: Credential, verb: string) {
    forall i :: 0 <= i < |c.rules| ==> OneLine(c.rules[i]) && (' ' in c.rules[i].verb ==> c.rules[i].verb == verb)
  }

  /** Keys may hold a method beside plain ones and still be told from all plain keys they differ
      from, if and only if the method has no space. */
  lemma KeysWithAMethodToldApart(verb: string, show: Prefix -> string)
    requires Prints(show) && '\n' !in verb
    ensures ' ' !in verb <==>
            forall c, d :: PlainBut(c, verb) && Plain(d) && Fingerprint(c, show) == Fingerprint(d, show)
                           ==> SameGrants(c, d)
  {
    if ' ' in verb {
      var r := AccessRule(verb, "");
      var s := ReadAtItsFirstSpace(r);
      OneRuleEach(r, s, show);
      assert PlainBut(Holding([r], []), verb) && Plain(Holding([s], []));
    } else {
      forall c, d | PlainBut(c, verb) && Plain(d) && Fingerprint(c, show) == Fingerprint(d, show)
        ensures SameGrants(c, d)
      {
        FingerprintsAgree(c, d, show);
      }
    }
  }

  lemma InOrder(texts: seq<string>)
    requires Ascending(texts, Self)
    ensures SortBy(texts, Self) == texts
  {
    SortedIsCanonical(SortBy(texts, Self), texts);
  }

  /** Any rule at all, with two blocks beside it, prints like the rule whose path goes on with the
      first block on a line of its own. */
  lemma LineBreaksCollide(r: AccessRule, p: Prefix, q: Prefix, show: Prefix -> string)
    requires !Less(show(q), show(p))
    ensures var s := AccessRule(r.verb, r.path + ("\n" + show(p)));
            Fingerprint(Holding([r], [p, q]), show) == Fingerprint(Holding([s], [q]), show)
  {
    var s := AccessRule(r.verb, r.path + ("\n" + show(p)));
    InPrint(r, p, q, show);
    InPrint(s, p, q, show);
    PrintedAlike(r, p, q, show);
  }

  lemma InPrint(r: AccessRule, p: Prefix, q: Prefix, show: Prefix -> string)
    requires !Less(show(q), show(p))
    ensures Fingerprint(Holding([r], [p, q]), show) == Printed(r, [p, q], show)
    ensures Fingerprint(Holding([r], [q]), show) == Printed(r, [q], show)
  {
    TwoShown(p, q, show);
    OneSorted(r, [p, q], show);
    OneSorted(r, [q], show);
  }

  /** One rule and some blocks in the order of their print. */
  function Printed(r: AccessRule, blocks: seq<Prefix>, show: Prefix -> string): string {
    Decimal(7) + "\n" + Join([Line(r)], "\n") + "\n" + Join(Map(blocks, show), "\n")
  }

  lemma PrintedAlike(r: AccessRule, p: Prefix, q: Prefix, show: Prefix -> string)
    ensures Printed(r, [p, q], show) == Printed(AccessRule(r.verb, r.path + ("\n" + show(p))), [q], show)
  {
    TwoShown(p, q, show);
    LineGoesOn(r, "\n" + show(p));
    BreakMoves(Decimal(7), Line(r), show(p), show(q));
  }

  lemma TwoBlocksAreNotOne(r: AccessRule, s: AccessRule, p: Prefix, q: Prefix)
    ensures !SameGrants(Holding([r], [p, q]), Holding([s], [q]))
  {
    assert |multiset([p, q])| == 2 && |multiset([q])| == 1;
  }

  lemma TwoShown(p: Prefix, q: Prefix, show: Prefix -> string)
    ensures Map([p, q], show) == [show(p), show(q)] && Map([q], show) == [show(q)]
  {
  }

  lemma LineGoesOn(r: AccessRule, more: string)
    ensures Line(AccessRule(r.verb, r.path + more)) == Line(r) + more
  {
  }

  lemma OneSorted(r: AccessRule, blocks: seq<Prefix>, show: Prefix -> string)
    requires Ascending(Map(blocks, show), Self)
    ensures Fingerprint(Holding([r], blocks), show) == Printed(r, blocks, show)
  {
    assert Map([r], Line) == [Line(r)];
    InOrder([Line(r)]);
    InOrder(Map(blocks, show));
  }

  lemma BreakMoves(number: string, a: string, p: string, q: string)
    ensures number + "\n" + Join([a], "\n") + "\n" + Join([p, q], "\n")
            == number + "\n" + Join([a + ("\n" + p)], "\n") + "\n" + Join([q], "\n")
  {
    assert [p, q][1..] == [q];
  }

  /** Keys of a kind: with spaces in their methods or without, with line breaks or without. */
  predicate OfKind(c: Credential, spaces: bool, breaks: bool) {
    forall i :: 0 <= i < |c.rules| ==> (spaces || ' ' !in c.rules[i].verb) && (breaks || OneLine(c.rules[i]))
  }

  ghost predicate ToldApart(spaces: bool, breaks: bool, show: Prefix -> string) {
    forall c, d :: OfKind(c, spaces, breaks) && OfKind(d, spaces, breaks) ==>
                     (Fingerprint(c, show) == Fingerprint(d, show) <==> SameGrants(c, d))
  }

  lemma SpacesCollide(r: AccessRule, breaks: bool, show: Prefix -> string)
    requires ' ' in r.verb && OneLine(r)
    ensures !ToldApart(true, breaks, show)
  {
    var s := ReadAtItsFirstSpace(r);
    OneRuleEach(r, s, show);
    NotToldApart(Holding([r], []), Holding([s], []), true, breaks, show);
  }

  lemma NotToldApart(c: Credential, d: Credential, spaces: bool, breaks: bool, show: Prefix -> string)
    requires OfKind(c, spaces, breaks) && OfKind(d, spaces, breaks)
    requires Fingerprint(c, show) == Fingerprint(d, show) && !SameGrants(c, d)
    ensures !ToldApart(spaces, breaks, show)
  {
  }

  lemma BreaksCollide(spaces: bool, show: Prefix -> string)
    ensures !ToldApart(spaces, true, show)
  {
    var p, q := Prefix(Addr(V4, 0), 1), Prefix(Addr(V4, 0), 2);
    LessTotal(show(p), show(q));
    if Less(show(q), show(p)) {
      TheseCollide(q, p, spaces, show);
    } else {
      TheseCollide(p, q, spaces, show);
    }
  }

  lemma TheseCollide(p: Prefix, q: Prefix, spaces: bool, show: Prefix -> string)
    requires !Less(show(q), show(p))
    ensures !ToldApart(spaces, true, show)
  {
    var r, s := AccessRule("", ""), AccessRule("", "" + ("\n" + show(p)));
    LineBreaksCollide(r, p, q, show);
    TwoBlocksAreNotOne(r, s, p, q);
    NotToldApart(Holding([r], [p, q]), Holding([s], [q]), spaces, true, show);
  }

  /** The fingerprints of a kind are equal for the same grants alone if and only if the kind has
      neither. */
  lemma KindsToldApart(spaces: bool, breaks: bool, show: Prefix -> string)
    requires Prints(show)
    ensures ToldApart(spaces, breaks, show) <==> !spaces && !breaks
  {
    if spaces {
      SpacesCollide(AccessRule(" ", ""), breaks, show);
    } else if breaks {
      BreaksCollide(spaces, show);
    } else {
      forall c, d | OfKind(c, false, false) && OfKind(d, false, false)
        ensures Fingerprint(c, show) == Fingerprint(d, show) <==> SameGrants(c, d)
      {
        FingerprintsAgree(c, d, show);
      }
    }
  }

  // The set of twins

  predicate Compared(c: Credential) {
    Examines(c) && c.application.id != 0
  }

  ghost predicate AreTwins(cs: seq<Credential>, i: nat, j: nat, textOf: Credential -> string) {
    i < |cs| && j < |cs| && i != j && Compared(cs[i]) && Compared(cs[j])
    && textOf(cs[i]) == textOf(cs[j])
  }

  /** The identifiers, among the first n, of the compared credentials with a fingerprint. */
  function IdsHolding(cs: seq<Credential>, n: nat, key: string, textOf: Credential -> string): seq<int>
    requires n <= |cs|
  {
    if n == 0 then []
    else if Compared(cs[n - 1]) && textOf(cs[n - 1]) == key then IdsHolding(cs, n - 1, key, textOf) + [cs[n - 1].id]
    else IdsHolding(cs, n - 1, key, textOf)
  }

  /** Places in order, each holding a compared credential with the fingerprint and the identifier listed. */
  ghost predicate Placed(cs: seq<Credential>, n: nat, key: string, textOf: Credential -> string, ids: seq<int>,
                         at: seq<nat>) {
    && n <= |cs| && |at| == |ids|
    && (forall k :: 0 <= k < |at| ==>
          at[k] < n && Compared(cs[at[k]]) && textOf(cs[at[k]]) == key && cs[at[k]].id == ids[k])
    && (forall j, k :: 0 <= j < k < |at| ==> at[j] < at[k])
  }

  lemma OneMorePlace(cs: seq<Credential>, n: nat, key: string, textOf: Credential -> string, ids: seq<int>,
                     at: seq<nat>)
    requires Placed(cs, n, key, textOf, ids, at) && n < |cs| && Compared(cs[n]) && textOf(cs[n]) == key
    ensures Placed(cs, n + 1, key, textOf, ids + [cs[n].id], at + [n])
  {
  }

  /** Where they are: different identifiers on the list come from different places. */
  lemma {:induction false} Places(cs: seq<Credential>, n: nat, key: string, textOf: Credential -> string)
    returns (at: seq<nat>)
    requires n <= |cs|
    ensures Placed(cs, n, key, textOf, IdsHolding(cs, n, key, textOf), at)
  {
    if n == 0 {
      at := [];
    } else {
      at := Places(cs, n - 1, key, textOf);
      if Compared(cs[n - 1]) && textOf(cs[n - 1]) == key {
        OneMorePlace(cs, n - 1, key, textOf, IdsHolding(cs, n - 1, key, textOf), at);
        at := at + [n - 1];
      }
    }
  }

  lemma {:induction false} Holds(cs: seq<Credential>, n: nat, key: string, textOf: Credential -> string, i: nat, j: nat)
    requires n <= |cs| && i < n && Compared(cs[i]) && textOf(cs[i]) == key
    requires j < n && Compared(cs[j]) && textOf(cs[j]) == key
    ensures cs[i].id in IdsHolding(cs, n, key, textOf)
    ensures i != j ==> |IdsHolding(cs, n, key, textOf)| >= 2
  {
    if i < n - 1 && j < n - 1 {
      Holds(cs, n - 1, key, textOf, i, j);
    } else if i < n - 1 {
      Holds(cs, n - 1, key, textOf, i, i);
    } else if j < n - 1 {
      Holds(cs, n - 1, key, textOf, j, j);
    }
  }

  /** Another compared credential has the fingerprint of one with this identifier. */
  ghost predicate Marked(cs: seq<Credential>, id: int, textOf: Credential -> string) {
    exists i: nat, j: nat :: AreTwins(cs, i, j, textOf) && cs[i].id == id
  }

  ghost predicate Groups(seen: map<string, seq<int>>, cs: seq<Credential>, n: nat, textOf: Credential -> string)
    requires n <= |cs|
  {
    forall key :: IdsHolding(cs, n, key, textOf) == if key in seen then seen[key] else []
  }

  method GroupByFingerprint(cs: seq<Credential>, textOf: Credential -> string) returns (seen: map<string, seq<int>>)
    ensures Groups(seen, cs, |cs|, textOf)
  {
    seen := map[];
    for n := 0 to |cs|
      invariant Groups(seen, cs, n, textOf)
    {
      if !Compared(cs[n]) {
        continue;
      }
      var key := textOf(cs[n]);
      seen := seen[key := (if key in seen then seen[key] else []) + [cs[n].id]];
    }
  }

  lemma GroupsMark(seen: map<string, seq<int>>, cs: seq<Credential>, textOf: Credential -> string, id: int)
    requires Groups(seen, cs, |cs|, textOf)
    ensures (exists key :: key in seen && |seen[key]| >= 2 && id in seen[key]) <==> Marked(cs, id, textOf)
  {
    if key :| key in seen && |seen[key]| >= 2 && id in seen[key] {
      assert IdsHolding(cs, |cs|, key, textOf) == seen[key];
      var at := Places(cs, |cs|, key, textOf);
      var k :| 0 <= k < |at| && cs[at[k]].id == id;
      assert AreTwins(cs, at[k], at[if k == 0 then 1 else 0], textOf);
    }
    if i: nat, j: nat :| AreTwins(cs, i, j, textOf) && cs[i].id == id {
      Holds(cs, |cs|, textOf(cs[i]), textOf, i, j);
    }
  }

  /** A credential is marked when another compared one has its fingerprint. */
  method MarkTwins(cs: seq<Credential>, textOf: Credential -> string) returns (twins: set<int>)
    ensures forall id :: id in twins <==> Marked(cs, id, textOf)
  {
    var seen := GroupByFingerprint(cs, textOf);
    twins := {};
    var rest := seen.Keys;
    while rest != {}
      invariant rest <= seen.Keys
      invariant forall id :: id in twins <==>
                             exists key :: key in seen && key !in rest && |seen[key]| >= 2 && id in seen[key]
      decreases rest
    {
      var key :| key in rest;
      rest := rest - {key};
      if |seen[key]| < 2 {
        continue;
      }
      twins := twins + set id | id in seen[key];
    }
    forall id ensures id in twins <==> Marked(cs, id, textOf) {
      GroupsMark(seen, cs, textOf, id);
    }
  }

  function FingerprintWith(show: Prefix -> string): Credential -> string {
    c => Fingerprint(c, show)
  }

  /** The credentials another one cannot be told from. */
  method Twins(cs: seq<Credential>, show: Prefix -> string) returns (twins: set<int>)
    ensures forall id :: id in twins <==> Marked(cs, id, FingerprintWith(show))
  {
    twins := MarkTwins(cs, FingerprintWith(show));
  }

  /** With distinct identifiers, a credential is marked exactly when it shares all its grants with
      another examined one that names an application. */
  lemma MarkedTwinsShareTheirGrants(cs: seq<Credential>, show: Prefix -> string, i: nat)
    requires forall j, k :: 0 <= j < k < |cs| ==> cs[j].id != cs[k].id
    requires Prints(show) && forall k :: 0 <= k < |cs| ==> Plain(cs[k])
    requires i < |cs|
    ensures Marked(cs, cs[i].id, FingerprintWith(show)) <==>
            && Examines(cs[i]) && cs[i].application.id != 0
            && exists j :: 0 <= j < |cs| && j != i && Examines(cs[j]) && SameGrants(cs[i], cs[j])
  {
    if Marked(cs, cs[i].id, FingerprintWith(show)) {
      var k: nat, j: nat :| AreTwins(cs, k, j, FingerprintWith(show)) && cs[k].id == cs[i].id;
      assert k == i;
      FingerprintsAgree(cs[i], cs[j], show);
    }
    if j :| 0 <= j < |cs| && j != i && Compared(cs[i]) && Compared(cs[j]) && SameGrants(cs[i], cs[j]) {
      FingerprintsAgree(cs[i], cs[j], show);
      assert AreTwins(cs, i, j, FingerprintWith(show));
    }
  }
}
