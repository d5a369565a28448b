/** The order of texts, and sorting by it. */
module Sorting {

  /** a comes before b, character by character. */
  predicate Less(a: string, b: string) {
    b != "" && (a == "" || a[0] < b[0] || (a[0] == b[0] && Less(a[1..], b[1..])))
  }

  /** That is: it is a proper beginning of b, or smaller in the first character they differ in. */
  lemma {:induction false} LessExactly(a: string, b: string)
    ensures Less(a, b) <==> exists k :: ComesFirst(a, b, k)
  {
    if a != "" && b != "" && a[0] == b[0] {
      LessExactly(a[1..], b[1..]);
      if k :| ComesFirst(a[1..], b[1..], k) {
        assert a == [a[0]] + a[1..] && b == [b[0]] + b[1..];
        assert ComesFirst(a, b, k + 1);
      }
      if k :| ComesFirst(a, b, k) {
        assert a[1..][..k - 1] == a[..k][1..] && b[1..][..k - 1] == b[..k][1..];
        assert ComesFirst(a[1..], b[1..], k - 1);
      }
    } else if b != "" {
      assert a[..0] == b[..0];
      assert a == "" || a[0] < b[0] ==> ComesFirst(a, b, 0);
      forall k | k > 0 ensures !ComesFirst(a, b, k) {
        DifferAtOnce(a, b, k);
      }
    }
  }

  lemma DifferAtOnce(a: string, b: string, k: int)
    requires k > 0 && b != "" && (a == "" || a[0] != b[0])
    ensures !ComesFirst(a, b, k)
  {
    if 0 < k <= |a| && k < |b| {
      assert a[..k][0] == a[0] && b[..k][0] == b[0];
    }
  }

  predicate ComesFirst(a: string, b: string, k: int) {
    0 <= k <= |a| && k < |b| && a[..k] == b[..k] && (k == |a| || a[k] < b[k])
  }

  lemma {:induction false} LessTransitive(a: string, b: string, c: string)
    requires Less(a, b) && Less(b, c)
    ensures Less(a, c)
  {
    if a != "" && a[0] == b[0] && b[0] == c[0] {
      LessTransitive(a[1..], b[1..], c[1..]);
    }
  }

  lemma {:induction false} LessTotal(a: string, b: string)
    ensures Less(a, b) || Less(b, a) || a == b
    ensures !(Less(a, b) && Less(b, a))
    ensures !Less(a, a)
  {
    if a != "" && b != "" {
      LessTotal(a[1..], b[1..]);
      assert a == [a[0]] + a[1..] && b == [b[0]] + b[1..];
    }
    if a != "" {
      LessTotal(a[1..], a[1..]);
    }
  }

  predicate Ascending<T>(xs: seq<T>, key: T -> string) {
    forall i, j :: 0 <= i < j < |xs| ==> !Less(key(xs[j]), key(xs[i]))
  }

  predicate StrictlyAscending<T>(xs: seq<T>, key: T -> string) {
    forall i, j :: 0 <= i < j < |xs| ==> Less(key(xs[i]), key(xs[j]))
  }

  /** x put where it belongs among sorted elements. */
  function Insert<T>(x: T, xs: seq<T>, key: T -> string): (r: seq<T>)
    requires Ascending(xs, key)
    ensures multiset(r) == multiset(xs) + multiset{x}
    ensures Ascending(r, key)
  {
    if xs == [] then [x]
    else if Less(key(xs[0]), key(x)) then
      assert xs == [xs[0]] + xs[1..];
      var r := Insert(x, xs[1..], key);
      InsertBehind(x, xs, r, key);
      [xs[0]] + r
    else
      assert xs == [xs[0]] + xs[1..];
      InsertBefore(x, xs, key);
      [x] + xs
  }

  lemma InsertBefore<T>(x: T, xs: seq<T>, key: T -> string)
    requires Ascending(xs, key) && xs != [] && !Less(key(xs[0]), key(x))
    ensures Ascending([x] + xs, key)
  {
    forall j | 0 <= j < |xs| ensures !Less(key(xs[j]), key(x)) {
      if Less(key(xs[j]), key(x)) {
        LessTotal(key(xs[0]), key(xs[j]));
        if key(xs[0]) != key(xs[j]) {
          LessTransitive(key(xs[0]), key(xs[j]), key(x));
        }
      }
    }
  }

  lemma InsertBehind<T>(x: T, xs: seq<T>, r: seq<T>, key: T -> string)
    requires Ascending(xs, key) && xs != [] && Less(key(xs[0]), key(x))
    requires multiset(r) == multiset(xs[1..]) + multiset{x} && Ascending(r, key)
    ensures Ascending([xs[0]] + r, key)
  {
    forall j | 0 <= j < |r| ensures !Less(key(r[j]), key(xs[0])) {
      assert r[j] in multiset(r);
      if r[j] == x {
        LessTotal(key(xs[0]), key(x));
      } else {
        assert r[j] in xs[1..];
      }
    }
  }

  function SortBy<T>(xs: seq<T>, key: T -> string): (r: seq<T>)
    ensures multiset(r) == multiset(xs)
    ensures Ascending(r, key)
    ensures |r| == |xs|
  {
    if xs == [] then []
    else
      assert xs == [xs[0]] + xs[1..];
      var r := Insert(xs[0], SortBy(xs[1..], key), key);
      assert |multiset(r)| == |multiset(xs)|;
      r
  }

  lemma SameElements<T>(a: seq<T>, b: seq<T>, x: T)
    requires multiset(a) == multiset(b)
    ensures x in a <==> x in b
  {
    assert x in a <==> x in multiset(a);
    assert x in b <==> x in multiset(b);
  }

  lemma {:induction false} InsertStrictly<T>(x: T, xs: seq<T>, key: T -> string)
    requires Ascending(xs, key) && StrictlyAscending(xs, key)
    requires forall i :: 0 <= i < |xs| ==> key(xs[i]) != key(x)
    ensures StrictlyAscending(Insert(x, xs, key), key)
  {
    if xs != [] {
      LessTotal(key(xs[0]), key(x));
      if Less(key(xs[0]), key(x)) {
        var r := Insert(x, xs[1..], key);
        InsertStrictly(x, xs[1..], key);
        forall j | 0 <= j < |r| ensures Less(key(xs[0]), key(r[j])) {
          assert r[j] in multiset(r);
          assert r[j] == x || r[j] in xs[1..];
        }
      } else {
        forall j | 0 <= j < |xs| ensures Less(key(x), key(xs[j])) {
          if j > 0 {
            LessTransitive(key(x), key(xs[0]), key(xs[j]));
          }
        }
      }
    }
  }

  /** Elements with different keys are sorted strictly. */
  lemma {:induction false} SortsStrictly<T>(xs: seq<T>, key: T -> string)
    requires forall i, j :: 0 <= i < j < |xs| ==> key(xs[i]) != key(xs[j])
    ensures StrictlyAscending(SortBy(xs, key), key)
  {
    if xs != [] {
      SortsStrictly(xs[1..], key);
      var rest := SortBy(xs[1..], key);
      forall i | 0 <= i < |rest| ensures key(rest[i]) != key(xs[0]) {
        SameElements(rest, xs[1..], rest[i]);
        var k :| 0 <= k < |xs[1..]| && xs[1..][k] == rest[i];
        assert xs[k + 1] == rest[i];
      }
      InsertStrictly(xs[0], rest, key);
    }
  }

  function Self(s: string): string {
    s
  }

  lemma FirstIsLeast(a: seq<string>, b: seq<string>)
    requires Ascending(a, Self) && multiset(a) == multiset(b) && a != [] && b != []
    ensures !Less(b[0], a[0])
  {
    SameElements(a, b, b[0]);
    var k :| 0 <= k < |a| && a[k] == b[0];
    LessTotal(a[0], a[0]);
    assert !Less(Self(a[k]), Self(a[0]));
  }

  lemma WithoutFirst<T>(xs: seq<T>)
    requires xs != []
    ensures xs == [xs[0]] + xs[1..] && multiset(xs[1..]) == multiset(xs) - multiset{xs[0]}
  {
    assert xs == [xs[0]] + xs[1..];
  }

  /** Sorting texts forgets nothing but their order. */
  lemma {:induction false} SortedIsCanonical(a: seq<string>, b: seq<string>)
    requires Ascending(a, Self) && Ascending(b, Self)
    requires multiset(a) == multiset(b)
    ensures a == b
  {
    assert |a| == |multiset(a)| == |multiset(b)| == |b|;
    if a != [] {
      FirstIsLeast(a, b);
      FirstIsLeast(b, a);
      LessTotal(a[0], b[0]);
      WithoutFirst(a);
      WithoutFirst(b);
      SortedIsCanonical(a[1..], b[1..]);
    }
  }
}
