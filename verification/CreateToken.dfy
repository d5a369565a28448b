/** The link to the page that issues a key, with its rules in the query, and reading the query back
    by section 2.1 of RFC 3986 (internal/ovh/api.go). */
module CreateToken {
  import opened Text
  import opened Credentials

  type byte = b: int | 0 <= b < 256

  /** A rule as the bytes of its method and of its path. */
  datatype Rule = Rule(verb: seq<byte>, path: seq<byte>)

  predicate Unreserved(c: char) {
    'a' <= c <= 'z' || 'A' <= c <= 'Z' || '0' <= c <= '9' || c in {'-', '_', '.', '~'}
  }

  function HexDigit(n: nat): (c: char)
    requires n < 16
    ensures Unreserved(c)
  {
    if n < 10 then '0' + n as char else 'A' + (n - 10) as char
  }

  function Percent(b: byte): string {
    ['%', HexDigit(b / 16), HexDigit(b % 16)]
  }

  /** One byte of a method, as a form field: a space becomes a plus. */
  function VerbByte(b: byte): string {
    if Unreserved(b as char) then [b as char] else if b == ' ' as int then "+" else Percent(b)
  }

  /** One byte of a path: the slash and the star stay readable. */
  function PathByte(b: byte): string {
    if Unreserved(b as char) || b == '/' as int || b == '*' as int then [b as char] else Percent(b)
  }

  function Escaped(bytes: seq<byte>, escape: byte -> string): string {
    if bytes == [] then "" else Escaped(bytes[..|bytes| - 1], escape) + escape(bytes[|bytes| - 1])
  }

  function Pair(rule: Rule): string {
    Escaped(rule.verb, VerbByte) + "=" + Escaped(rule.path, PathByte)
  }

  function Pairs(rules: seq<Rule>): seq<string> {
    seq(|rules|, i requires 0 <= i < |rules| => Pair(rules[i]))
  }

  /** Each pair but the first comes behind an ampersand. */
  function Chained(pairs: seq<string>): string {
    if pairs == [] then ""
    else if |pairs| == 1 then pairs[0]
    else Chained(pairs[..|pairs| - 1]) + "&" + pairs[|pairs| - 1]
  }

  function Query(rules: seq<Rule>): string {
    Chained(Pairs(rules))
  }

  lemma OneMorePair(pairs: seq<string>, i: nat)
    requires i < |pairs|
    ensures Chained(pairs[..i + 1]) == if i == 0 then pairs[0] else Chained(pairs[..i]) + "&" + pairs[i]
  {
    assert pairs[..i + 1][..i] == pairs[..i];
  }

  method Escape(bytes: seq<byte>, escape: byte -> string) returns (out: string)
    ensures out == Escaped(bytes, escape)
  {
    out := "";
    assert bytes[..0] == [];
    for i := 0 to |bytes|
      invariant out == Escaped(bytes[..i], escape)
    {
      assert bytes[..i + 1][..i] == bytes[..i];
      out := out + escape(bytes[i]);
    }
    assert bytes[..|bytes|] == bytes;
  }

  method WritePair(rule: Rule) returns (pair: string)
    ensures pair == Pair(rule)
  {
    var verb := Escape(rule.verb, VerbByte);
    var path := Escape(rule.path, PathByte);
    pair := verb + "=" + path;
  }

  /** The query of the link: one pair per rule, in order. */
  method CreateTokenQuery(rules: seq<Rule>) returns (query: string)
    ensures query == Query(rules)
  {
    query := "";
    ghost var pairs := Pairs(rules);
    for i := 0 to |rules|
      invariant query == Chained(pairs[..i])
    {
      if i > 0 {
        query := query + "&";
      }
      var pair := WritePair(rules[i]);
      query := query + pair;
      OneMorePair(pairs, i);
    }
    assert pairs[..|rules|] == pairs;
  }

  // A reader

  function HexValue(c: char): (v: Option<nat>)
    ensures v.Some? ==> v.value < 16
  {
    if '0' <= c <= '9' then Some((c - '0') as nat)
    else if 'A' <= c <= 'F' then Some((c - 'A') as nat + 10)
    else if 'a' <= c <= 'f' then Some((c - 'a') as nat + 10)
    else None
  }

  function Unescape(s: string, plus: bool): Option<seq<byte>> {
    if s == "" then Some([])
    else if s[0] == '%' then
      if |s| < 3 || HexValue(s[1]).None? || HexValue(s[2]).None? then None
      else
        match Unescape(s[3..], plus)
        case None => None
        case Some(rest) => Some([(HexValue(s[1]).value * 16 + HexValue(s[2]).value) as byte] + rest)
    else if s[0] as int >= 256 then None
    else
      match Unescape(s[1..], plus)
      case None => None
      case Some(rest) => Some([if plus && s[0] == '+' then ' ' as int else s[0] as int] + rest)
  }

  /** A pair is cut at its first equals sign. */
  function ReadPair(s: string): Option<Rule> {
    var k := Index(s, "=");
    if k < 0 then None
    else
      match (Unescape(s[..k], true), Unescape(s[k + 1..], false))
      case (Some(verb), Some(path)) => Some(Rule(verb, path))
      case _ => None
  }

  function ReadPairs(pairs: seq<string>): Option<seq<Rule>> {
    if pairs == [] then Some([])
    else
      match (ReadPair(pairs[0]), ReadPairs(pairs[1..]))
      case (Some(rule), Some(rules)) => Some([rule] + rules)
      case _ => None
  }

  function ReadQuery(query: string): Option<seq<Rule>> {
    if query == "" then Some([]) else ReadPairs(Split(query, '&'))
  }

  // What a query looks like

  /** Letters, digits, and - . _ ~ in ASCII. */
  predicate IsPlain(n: int) {
    || 0x61 <= n <= 0x7a || 0x41 <= n <= 0x5a || 0x30 <= n <= 0x39
    || n == 0x2d || n == 0x2e || n == 0x5f || n == 0x7e
  }

  /** A percent sign and the value in two digits, capitals for those above nine. */
  ghost predicate IsEscape(s: string, b: byte) {
    && |s| == 3 && s[0] == '%'
    && exists high, low :: 0 <= high < 16 && 0 <= low < 16 && b == 16 * high + low
                           && s[1] == "0123456789ABCDEF"[high] && s[2] == "0123456789ABCDEF"[low]
  }

  lemma PercentIsEscape(b: byte)
    ensures IsEscape(Percent(b), b)
  {
    var high, low := b / 16, b % 16;
    assert HexDigit(high) == "0123456789ABCDEF"[high] && HexDigit(low) == "0123456789ABCDEF"[low];
  }

  /** In a path slashes and stars are left as they are, and so is what is plain; in a method a space is
      a plus sign. All other bytes are escaped. */
  lemma BytesAreWritten(b: byte)
    ensures PathByte(b) == [b as char] <==> IsPlain(b) || b == 0x2f || b == 0x2a
    ensures PathByte(b) != [b as char] ==> IsEscape(PathByte(b), b)
    ensures VerbByte(b) == [b as char] <==> IsPlain(b)
    ensures VerbByte(b) != [b as char] ==> if b == 0x20 then VerbByte(b) == "+" else IsEscape(VerbByte(b), b)
  {
    PercentIsEscape(b);
  }

  /** The address of the page shows a path as it is written, when it is made of such bytes. */
  lemma {:induction false} PathsAreShown(path: seq<byte>)
    requires forall i :: 0 <= i < |path| ==> IsPlain(path[i]) || path[i] == 0x2f || path[i] == 0x2a
    ensures |Escaped(path, PathByte)| == |path|
    ensures forall i :: 0 <= i < |path| ==> Escaped(path, PathByte)[i] == path[i] as char
  {
    if path != [] {
      var init, last := path[..|path| - 1], path[|path| - 1];
      PathsAreShown(init);
      BytesAreWritten(last);
      assert Escaped(path, PathByte) == Escaped(init, PathByte) + [last as char];
    }
  }

  // Reading back

  /** An escaped text uses no character that separates pairs or parts of a pair. */
  predicate Safe(s: string) {
    forall i :: 0 <= i < |s| ==> s[i] != '&' && s[i] != '='
  }

  lemma EscapedFromTheFront(bytes: seq<byte>, escape: byte -> string)
    requires bytes != []
    ensures Escaped(bytes, escape) == escape(bytes[0]) + Escaped(bytes[1..], escape)
  {
    EscapedInOrder([bytes[0]], bytes[1..], escape);
    assert bytes == [bytes[0]] + bytes[1..] && [bytes[0]] == [] + [bytes[0]];
    EscapedToTheEnd([], bytes[0], escape);
  }

  lemma {:induction false} EscapedInOrder(bytes: seq<byte>, more: seq<byte>, escape: byte -> string)
    ensures Escaped(bytes + more, escape) == Escaped(bytes, escape) + Escaped(more, escape)
  {
    if more == [] {
      assert bytes + more == bytes;
    } else {
      var init, last := LastApart(bytes, more);
      EscapedInOrder(bytes, init, escape);
      EscapedToTheEnd(bytes + init, last, escape);
      EscapedToTheEnd(init, last, escape);
      Regrouped(Escaped(bytes, escape), Escaped(init, escape), escape(last));
    }
  }

  lemma EscapedToTheEnd(init: seq<byte>, last: byte, escape: byte -> string)
    ensures Escaped(init + [last], escape) == Escaped(init, escape) + escape(last)
  {
    assert (init + [last])[..|init|] == init;
  }

  lemma DigitBack(n: nat)
    requires n < 16
    ensures HexValue(HexDigit(n)) == Some(n)
  {
  }

  lemma PercentBack(b: byte, plus: bool, rest: string)
    requires Unescape(rest, plus).Some?
    ensures Unescape(Percent(b) + rest, plus) == Some([b] + Unescape(rest, plus).value)
  {
    var s := Percent(b) + rest;
    DigitBack(b / 16);
    DigitBack(b % 16);
    assert s[1] == HexDigit(b / 16) && s[2] == HexDigit(b % 16) && s[3..] == rest;
  }

  lemma PlainBack(c: char, plus: bool, rest: string)
    requires c != '%' && c as int < 256 && Unescape(rest, plus).Some?
    ensures Unescape([c] + rest, plus) ==
            Some([if plus && c == '+' then ' ' as int else c as int] + Unescape(rest, plus).value)
  {
    assert ([c] + rest)[1..] == rest;
  }

  lemma OneByteBack(b: byte, escape: byte -> string, plus: bool, rest: string)
    requires (escape == VerbByte && plus) || (escape == PathByte && !plus)
    requires Unescape(rest, plus).Some?
    ensures Safe(escape(b)) && Unescape(escape(b) + rest, plus) == Some([b] + Unescape(rest, plus).value)
  {
    if escape(b) == Percent(b) {
      PercentBack(b, plus, rest);
    } else {
      PlainBack(escape(b)[0], plus, rest);
      assert escape(b) == [escape(b)[0]];
    }
  }

  lemma {:induction false} EscapedReadsBack(bytes: seq<byte>, escape: byte -> string, plus: bool)
    requires (escape == VerbByte && plus) || (escape == PathByte && !plus)
    ensures Safe(Escaped(bytes, escape)) && Unescape(Escaped(bytes, escape), plus) == Some(bytes)
  {
    if bytes != [] {
      EscapedReadsBack(bytes[1..], escape, plus);
      EscapedFromTheFront(bytes, escape);
      OneByteBack(bytes[0], escape, plus, Escaped(bytes[1..], escape));
      assert bytes == [bytes[0]] + bytes[1..];
    }
  }

  lemma PairReadsBack(rule: Rule)
    ensures ReadPair(Pair(rule)) == Some(rule) && '&' !in Pair(rule)
  {
    var verb, path := Escaped(rule.verb, VerbByte), Escaped(rule.path, PathByte);
    EscapedReadsBack(rule.verb, VerbByte, true);
    EscapedReadsBack(rule.path, PathByte, false);
    CutAtEquals(verb, path);
    assert Pair(rule) == verb + "=" + path;
    assert "=" == ['='];
  }

  lemma CutAtEquals(verb: string, path: string)
    requires Safe(verb) && Safe(path)
    ensures var s := verb + "=" + path;
            Index(s, "=") == |verb| && s[..|verb|] == verb && s[|verb| + 1..] == path && '&' !in s
  {
    var s := verb + "=" + path;
    IndexOfFirst(s, '=', |verb|);
    assert "=" == ['='];
    assert forall i :: 0 <= i < |s| ==> s[i] != '&';
  }

  lemma {:induction false} JoinLast(pieces: seq<string>, last: string, separator: string)
    requires pieces != []
    ensures Join(pieces + [last], separator) == Join(pieces, separator) + separator + last
  {
    assert (pieces + [last])[1..] == pieces[1..] + [last];
    if |pieces| > 1 {
      JoinLast(pieces[1..], last, separator);
    } else {
      assert pieces[1..] + [last] == [last];
    }
  }

  lemma {:induction false} ChainIsJoin(pairs: seq<string>)
    ensures Chained(pairs) == Join(pairs, "&")
  {
    if |pairs| > 1 {
      var init, last := pairs[..|pairs| - 1], pairs[|pairs| - 1];
      ChainIsJoin(init);
      assert pairs == init + [last];
      JoinLast(init, last, "&");
    }
  }

  lemma {:induction false} PairsReadBack(rules: seq<Rule>)
    ensures ReadPairs(Pairs(rules)) == Some(rules)
    ensures forall i :: 0 <= i < |rules| ==> '&' !in Pairs(rules)[i]
  {
    if rules != [] {
      PairReadsBack(rules[0]);
      PairsReadBack(rules[1..]);
      PairsStep(rules);
      OneMoreRead(Pair(rules[0]), Pairs(rules[1..]));
    }
  }

  lemma PairsStep(rules: seq<Rule>)
    requires rules != []
    ensures Pairs(rules) == [Pair(rules[0])] + Pairs(rules[1..]) && rules == [rules[0]] + rules[1..]
  {
  }

  lemma OneMoreRead(pair: string, pairs: seq<string>)
    requires ReadPair(pair).Some? && ReadPairs(pairs).Some?
    ensures ReadPairs([pair] + pairs) == Some([ReadPair(pair).value] + ReadPairs(pairs).value)
  {
    assert ([pair] + pairs)[1..] == pairs;
  }

  /** Whoever reads the query gets exactly the rules, in order, repeated ones included, whatever
      bytes they are made of. */
  lemma QueryReadsBack(rules: seq<Rule>)
    ensures ReadQuery(Query(rules)) == Some(rules)
  {
    if rules != [] {
      ChainIsJoin(Pairs(rules));
      PairsReadBack(rules);
      assert ['&'] == "&";
      SplitJoin(Pairs(rules), '&');
      QueryIsNotEmpty(rules);
    }
  }

  lemma QueryIsNotEmpty(rules: seq<Rule>)
    requires rules != []
    ensures Query(rules) != ""
  {
  }
}
