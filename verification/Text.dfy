/** The string operations of the Go standard library the repository is written with, each as a
    function over sequences of characters, and the order and the decimal text it sorts and prints by. */
module Text {

  /** p starts at position i of s. */
  predicate At(s: string, p: string, i: int) {
    0 <= i <= |s| && p <= s[i..]
  }

  ghost predicate Contains(s: string, p: string) {
    exists i :: At(s, p, i)
  }

  predicate HasSuffix(s: string, p: string) {
    |p| <= |s| && s[|s| - |p|..] == p
  }

  function TrimSuffix(s: string, p: string): string {
    if HasSuffix(s, p) then s[..|s| - |p|] else s
  }

  /** The leftmost position of p in s, or -1. */
  function Index(s: string, p: string): (r: int)
    ensures r >= 0 ==> At(s, p, r) && forall j :: 0 <= j < r ==> !At(s, p, j)
    ensures r < 0 ==> r == -1 && !Contains(s, p)
  {
    if p <= s then (assert s[0..] == s; 0)
    else if s == "" then -1
    else
      var k := Index(s[1..], p);
      assert forall j :: 1 <= j <= |s| ==> s[j..] == s[1..][j - 1..];
      assert forall j :: 1 <= j && At(s, p, j) ==> At(s[1..], p, j - 1);
      assert s[0..] == s;
      if k < 0 then -1 else k + 1
  }

  /** The first place of a character is its index. */
  lemma IndexOfFirst(s: string, c: char, k: nat)
    requires k < |s| && s[k] == c
    requires forall i :: 0 <= i < k ==> s[i] != c
    ensures Index(s, [c]) == k
  {
    assert s[k..] == [c] + s[k + 1..];
    assert At(s, [c], k);
    assert forall i :: 0 <= i < k ==> s[i..][0] == s[i];
  }

  /** The pieces once one character more stands in front. */
  function Before(c: char, pieces: seq<string>, separator: char): (r: seq<string>)
    requires |pieces| >= 1
    ensures |r| >= 1
  {
    if c == separator then [""] + pieces else [[c] + pieces[0]] + pieces[1..]
  }

  /** The pieces of s between the separators, at least one. */
  function Split(s: string, separator: char): (pieces: seq<string>)
    ensures |pieces| >= 1
  {
    if s == "" then [""] else Before(s[0], Split(s[1..], separator), separator)
  }

  function Join(pieces: seq<string>, separator: string): string {
    if |pieces| == 0 then ""
    else if |pieces| == 1 then pieces[0]
    else pieces[0] + separator + Join(pieces[1..], separator)
  }

  function UpperChar(c: char): char {
    if 'a' <= c <= 'z' then c - 'a' + 'A' else c
  }

  function Upper(s: string): (r: string)
    ensures |r| == |s|
    ensures forall i :: 0 <= i < |s| ==> r[i] == UpperChar(s[i])
  {
    if s == "" then "" else [UpperChar(s[0])] + Upper(s[1..])
  }

  /** Equality of methods, letter case aside. */
  predicate EqualFold(a: string, b: string) {
    Upper(a) == Upper(b)
  }

  /** The same character, or one ASCII letter in both cases. */
  predicate SameLetter(c: char, d: char) {
    || c == d
    || ('a' <= c <= 'z' && c as int - d as int == 32)
    || ('A' <= c <= 'Z' && d as int - c as int == 32)
  }

  lemma EqualFoldExactly(a: string, b: string)
    ensures EqualFold(a, b) <==> |a| == |b| && forall i :: 0 <= i < |a| ==> SameLetter(a[i], b[i])
  {
    var x, y := Upper(a), Upper(b);
    forall i | 0 <= i < |a| && i < |b| ensures x[i] == y[i] <==> SameLetter(a[i], b[i]) {
      SameUpperExactly(a[i], b[i]);
    }
    if EqualFold(a, b) {
      assert |x| == |y| && forall i :: 0 <= i < |x| ==> x[i] == y[i];
    }
  }

  lemma SameUpperExactly(c: char, d: char)
    ensures UpperChar(c) == UpperChar(d) <==> SameLetter(c, d)
  {
  }

  // White space

  predicate IsSpace(c: char) {
    c in {'\t', '\n', '\U{0B}', '\U{0C}', '\r', ' ', '\U{85}', '\U{A0}', '\U{1680}', '\U{2028}',
          '\U{2029}', '\U{202F}', '\U{205F}', '\U{3000}'} || '\U{2000}' <= c <= '\U{200A}'
  }

  function TrimSpace(s: string): string
    decreases |s|
  {
    if s == "" then s
    else if IsSpace(s[0]) then TrimSpace(s[1..])
    else if IsSpace(s[|s| - 1]) then TrimSpace(s[..|s| - 1])
    else s
  }

  /** White space in ASCII is the characters from 9 to 13 and 32; beyond it, as Unicode has it. */
  lemma SpacesByNumber(c: char)
    ensures var n := c as int;
            IsSpace(c) <==> 9 <= n <= 13 || n == 0x20 || n == 0x85 || n == 0xa0 || n == 0x1680 || 0x2000 <= n <= 0x200a
                            || n == 0x2028 || n == 0x2029 || n == 0x202f || n == 0x205f || n == 0x3000
  {
  }

  /** The text with white space around it. */
  predicate Surrounds(before: string, text: string, after: string, s: string) {
    s == before + (text + after) && AllSpace(before) && AllSpace(after)
  }

  /** Only white space is taken off; what is left has none at either end. */
  lemma {:induction false} TrimmedExactly(s: string) returns (before: string, after: string)
    ensures Surrounds(before, TrimSpace(s), after, s)
    decreases |s|
  {
    before, after := "", "";
    if s != "" && IsSpace(s[0]) {
      before, after := TrimmedExactly(s[1..]);
      SurroundsMore(s[0], before, TrimSpace(s), after, s[1..]);
      assert s == [s[0]] + s[1..];
      before := [s[0]] + before;
    } else if s != "" && IsSpace(s[|s| - 1]) {
      var init, last := LastApart("", s);
      before, after := TrimmedExactly(init);
      SurroundedMore(last, before, TrimSpace(s), after, init);
      after := after + [last];
    }
  }

  lemma {:induction false} TrimmedEnds(s: string)
    ensures var t := TrimSpace(s); t != "" ==> !IsSpace(t[0]) && !IsSpace(t[|t| - 1])
    decreases |s|
  {
    if s != "" && IsSpace(s[0]) {
      TrimmedEnds(s[1..]);
    } else if s != "" && IsSpace(s[|s| - 1]) {
      TrimmedEnds(s[..|s| - 1]);
    }
  }

  lemma SurroundsMore(c: char, before: string, text: string, after: string, s: string)
    requires IsSpace(c) && Surrounds(before, text, after, s)
    ensures Surrounds([c] + before, text, after, [c] + s)
  {
    Regrouped([c], before, text + after);
  }

  lemma SurroundedMore(c: char, before: string, text: string, after: string, s: string)
    requires IsSpace(c) && Surrounds(before, text, after, s)
    ensures Surrounds(before, text, after + [c], s + [c])
  {
    Regrouped(text, after, [c]);
    Regrouped(before, text + after, [c]);
  }

  predicate AllSpace(s: string) {
    forall i :: 0 <= i < |s| ==> IsSpace(s[i])
  }

  /** White space around a text that has none at its ends is all that is taken off. */
  lemma {:induction false} TrimmedBetween(before: string, text: string, after: string, s: string)
    requires Surrounds(before, text, after, s)
    requires text != "" && !IsSpace(text[0]) && !IsSpace(text[|text| - 1])
    ensures TrimSpace(s) == text
    decreases |s|
  {
    if before != "" {
      assert s[1..] == before[1..] + (text + after);
      TrimmedBetween(before[1..], text, after, s[1..]);
    } else if after != "" {
      var init := after[..|after| - 1];
      assert after == init + [after[|after| - 1]];
      assert s[..|s| - 1] == before + (text + init);
      TrimmedBetween(before, text, init, s[..|s| - 1]);
      assert s[0] == text[0];
    } else {
      assert s == text;
    }
  }

  lemma TrimmedAway(s: string)
    ensures TrimSpace(s) == "" <==> AllSpace(s)
  {
    var before, after := TrimmedExactly(s);
    TrimmedEnds(s);
    var t := TrimSpace(s);
    if t != "" {
      assert s[|before|] == t[0];
    }
  }

  // Pieces

  lemma {:induction false} SplitWithoutSeparator(s: string, separator: char)
    ensures |Split(s, separator)| == 1 <==> separator !in s
    ensures separator !in s ==> Split(s, separator) == [s]
  {
    if s != "" {
      SplitWithoutSeparator(s[1..], separator);
      assert s == [s[0]] + s[1..];
    }
  }

  /** Splitting at the separator undoes joining pieces that are free of it. */
  lemma {:induction false} SplitJoin(pieces: seq<string>, separator: char)
    requires |pieces| >= 1
    requires forall i :: 0 <= i < |pieces| ==> separator !in pieces[i]
    ensures Split(Join(pieces, [separator]), separator) == pieces
  {
    if |pieces| == 1 {
      SplitWithoutSeparator(pieces[0], separator);
    } else {
      SplitJoin(pieces[1..], separator);
      SplitWithoutSeparator(pieces[0], separator);
      SplitConcat(pieces[0], Join(pieces[1..], [separator]), separator);
      assert Join(pieces, [separator]) == pieces[0] + [separator] + Join(pieces[1..], [separator]);
    }
  }

  /** Splitting goes piece by piece on both sides of a separator. */
  lemma {:induction false} SplitConcat(head: string, tail: string, separator: char)
    ensures Split(head + [separator] + tail, separator) == Split(head, separator) + Split(tail, separator)
  {
    if head == "" {
      assert ([separator] + tail)[1..] == tail;
      assert head + [separator] + tail == [separator] + tail;
    } else {
      SplitConcat(head[1..], tail, separator);
      assert (head + [separator] + tail)[1..] == head[1..] + [separator] + tail;
      BeforeConcat(head[0], Split(head[1..], separator), Split(tail, separator), separator);
    }
  }

  lemma BeforeConcat(c: char, a: seq<string>, b: seq<string>, separator: char)
    requires |a| >= 1
    ensures Before(c, a + b, separator) == Before(c, a, separator) + b
  {
    assert (a + b)[1..] == a[1..] + b;
  }

  lemma {:induction false} JoinConcat(a: seq<string>, b: seq<string>, separator: string)
    requires a != [] && b != []
    ensures Join(a + b, separator) == Join(a, separator) + separator + Join(b, separator)
  {
    assert (a + b)[1..] == a[1..] + b;
    if |a| > 1 {
      JoinConcat(a[1..], b, separator);
    } else {
      assert a[1..] == [] && a + b == [a[0]] + b;
    }
  }

  /** Every piece of a text is free of the separator, and joining the pieces gives the text back. */
  lemma {:induction false} JoinSplit(s: string, separator: char)
    ensures Join(Split(s, separator), [separator]) == s
    ensures forall i :: 0 <= i < |Split(s, separator)| ==> separator !in Split(s, separator)[i]
  {
    if s != "" {
      JoinSplit(s[1..], separator);
      JoinBefore(s[0], Split(s[1..], separator), separator);
      assert s == [s[0]] + s[1..];
    }
  }

  lemma JoinBefore(c: char, pieces: seq<string>, separator: char)
    requires |pieces| >= 1
    ensures Join(Before(c, pieces, separator), [separator]) == [c] + Join(pieces, [separator])
  {
    if c == separator {
      JoinFirst("", pieces, [separator]);
      assert "" + [separator] == [c];
    } else {
      LongerFirst(c, pieces[0], pieces[1..], [separator]);
      assert pieces == [pieces[0]] + pieces[1..];
    }
  }

  lemma LongerFirst(c: char, first: string, rest: seq<string>, separator: string)
    ensures Join([[c] + first] + rest, separator) == [c] + Join([first] + rest, separator)
  {
    if rest != [] {
      JoinFirst([c] + first, rest, separator);
      JoinFirst(first, rest, separator);
      Associative([c], first, separator, Join(rest, separator));
    }
  }

  lemma Associative(a: string, b: string, c: string, d: string)
    ensures a + b + c + d == a + (b + c + d)
  {
  }

  lemma Assoc(a: string, b: string, c: string)
    ensures a + b + c == a + (b + c)
  {
  }

  /** Concatenation, of lists of anything. */
  lemma Regrouped<T>(a: seq<T>, b: seq<T>, c: seq<T>)
    ensures a + b + c == a + (b + c)
  {
  }

  lemma LastApart<T>(a: seq<T>, b: seq<T>) returns (init: seq<T>, last: T)
    requires b != []
    ensures init == b[..|b| - 1] && last == b[|b| - 1] && b == init + [last] && a + b == (a + init) + [last]
  {
    init, last := b[..|b| - 1], b[|b| - 1];
  }

  lemma Prefixed(a: string, b: string, c: string)
    ensures a + b <= a + (b + c)
  {
    Assoc(a, b, c);
  }

  lemma JoinFirst(first: string, rest: seq<string>, separator: string)
    requires rest != []
    ensures Join([first] + rest, separator) == first + separator + Join(rest, separator)
  {
    assert ([first] + rest)[1..] == rest;
  }

  // Numbers as text

  function Digit(d: nat): char
    requires d < 10
  {
    ['0', '1', '2', '3', '4', '5', '6', '7', '8', '9'][d]
  }

  function Digits(n: nat): (s: string)
    ensures s != ""
    ensures forall i :: 0 <= i < |s| ==> '0' <= s[i] <= '9'
  {
    if n < 10 then [Digit(n)] else Digits(n / 10) + [Digit(n % 10)]
  }

  function Decimal(n: int): (s: string)
    ensures s != ""
    ensures forall i :: 0 <= i < |s| ==> '0' <= s[i] <= '9' || s[i] == '-'
  {
    if n < 0 then "-" + Digits(-n) else Digits(n)
  }

  function DigitsValue(s: string): nat
    requires forall i :: 0 <= i < |s| ==> '0' <= s[i] <= '9'
  {
    if s == "" then 0 else 10 * DigitsValue(s[..|s| - 1]) + (s[|s| - 1] - '0') as nat
  }

  lemma {:induction false} DigitsReadBack(n: nat)
    ensures DigitsValue(Digits(n)) == n
  {
    if n >= 10 {
      DigitsReadBack(n / 10);
      assert Digits(n)[..|Digits(n)| - 1] == Digits(n / 10);
    } else {
      assert DigitsValue("") == 0;
      assert [Digit(n)][..0] == "";
    }
  }

  lemma DecimalIsInjective(m: int, n: int)
    ensures Decimal(m) == Decimal(n) <==> m == n
  {
    DigitsReadBack(if m < 0 then -m else m);
    DigitsReadBack(if n < 0 then -n else n);
    if Decimal(m) == Decimal(n) {
      assert Decimal(m)[0] == '-' <==> m < 0;
      assert Decimal(n)[0] == '-' <==> n < 0;
      if m < 0 {
        assert Decimal(m)[1..] == Digits(-m) && Decimal(n)[1..] == Digits(-n);
      }
    }
  }
}
