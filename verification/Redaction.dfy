/** The log redactor (internal/logging/redact.go): what it takes for a registered value to be
    kept out of every record, whatever else is registered. */
module Redaction {
  import opened Text

  const PLACEHOLDER := "[redacted]"

  /** Replacing every occurrence, leftmost first and without overlap. */
  function ReplaceAll(s: string, target: string): string
    requires target != ""
    decreases |s|
  {
    if |s| < |target| then s
    else if target <= s then PLACEHOLDER + ReplaceAll(s[|target|..], target)
    else [s[0]] + ReplaceAll(s[1..], target)
  }

  predicate Nonempty(secrets: seq<string>) {
    forall i :: 0 <= i < |secrets| ==> secrets[i] != ""
  }

  /** One replacement per secret, in the order of registration. */
  function ScrubWith(secrets: seq<string>, s: string): string
    requires Nonempty(secrets)
  {
    if secrets == [] then s else ScrubWith(secrets[1..], ReplaceAll(s, secrets[0]))
  }

  /** The values after those before, each new one behind them in its turn. */
  function Registered(secrets: seq<string>, values: seq<string>): seq<string> {
    if values == [] then secrets
    else
      var before, v := Registered(secrets, values[..|values| - 1]), values[|values| - 1];
      if v == "" || v in before then before else before + [v]
  }

  /** Registering goes value by value, in the order given. */
  lemma {:induction false} RegisteredInOrder(secrets: seq<string>, values: seq<string>, more: seq<string>)
    ensures Registered(secrets, values + more) == Registered(Registered(secrets, values), more)
    ensures forall v :: Registered(secrets, [v]) == if v == "" || v in secrets then secrets else secrets + [v]
  {
    if more == [] {
      assert values + more == values;
    } else {
      var init, last := LastApart(values, more);
      RegisteredInOrder(secrets, values, init);
      assert (values + more)[..|values + more| - 1] == values + init;
    }
  }

  /** So does scrubbing: each value is replaced in what the one before it left. */
  lemma {:induction false} ScrubbedInOrder(secrets: seq<string>, more: seq<string>, s: string)
    requires Nonempty(secrets) && Nonempty(more)
    ensures Nonempty(secrets + more) && ScrubWith(secrets + more, s) == ScrubWith(more, ScrubWith(secrets, s))
    ensures |secrets| == 1 ==> ScrubWith(secrets, s) == ReplaceAll(s, secrets[0])
  {
    if secrets == [] {
      assert secrets + more == more;
    } else {
      assert (secrets + more)[1..] == secrets[1..] + more;
      ScrubbedInOrder(secrets[1..], more, ReplaceAll(s, secrets[0]));
    }
  }

  class Redactor {
    var secrets: seq<string>

    ghost predicate Valid()
      reads this
    {
      Nonempty(secrets) && forall i, j :: 0 <= i < j < |secrets| ==> secrets[i] != secrets[j]
    }

    constructor ()
      ensures Valid() && secrets == []
    {
      secrets := [];
    }

    method Add(values: seq<string>)
      requires Valid()
      modifies this
      ensures Valid()
      ensures secrets == Registered(old(secrets), values) && old(secrets) <= secrets
      ensures forall v :: v in secrets <==> v in old(secrets) || (v in values && v != "")
    {
      assert values[..0] == [];
      for k := 0 to |values|
        invariant Valid() && secrets == Registered(old(secrets), values[..k]) && old(secrets) <= secrets
        invariant forall v :: v in secrets <==> v in old(secrets) || (v in values[..k] && v != "")
      {
        var v := values[k];
        assert values[..k + 1] == values[..k] + [v] && values[..k + 1][..k] == values[..k];
        if v == "" || v in secrets {
          continue;
        }
        secrets := secrets + [v];
      }
      assert values[..|values|] == values;
    }

    method Scrub(s: string) returns (scrubbed: string)
      requires Valid()
      ensures scrubbed == ScrubWith(secrets, s)
    {
      scrubbed := s;
      assert secrets[0..] == secrets;
      for k := 0 to |secrets|
        invariant ScrubWith(secrets, s) == ScrubWith(secrets[k..], scrubbed)
      {
        assert secrets[k..][1..] == secrets[k + 1..];
        scrubbed := ReplaceAll(scrubbed, secrets[k]);
      }
    }
  }

  // When a value cannot come back around a placeholder

  /** One text starts with the other. */
  predicate Aligned(a: string, b: string) {
    a <= b || b <= a
  }

  /** The value cannot share a character with a placeholder, wherever the two lie. */
  predicate ApartFromPlaceholder(secret: string) {
    && (forall j :: 0 <= j < |secret| ==> !Aligned(secret[j..], PLACEHOLDER))
    && (forall i :: 0 <= i < |PLACEHOLDER| ==> !Aligned(secret, PLACEHOLDER[i..]))
  }

  lemma PrefixesAlign(start: string, more: string)
    requires start <= PLACEHOLDER + more
    ensures Aligned(start, PLACEHOLDER)
  {
    var text := PLACEHOLDER + more;
    if |start| <= |PLACEHOLDER| {
      assert forall i :: 0 <= i < |start| ==> start[i] == text[i] == PLACEHOLDER[i];
    } else {
      assert forall i :: 0 <= i < |PLACEHOLDER| ==> start[i] == text[i] == PLACEHOLDER[i];
    }
  }

  /** What starts a replaced text, if it stays clear of placeholders, started the text itself. */
  lemma {:induction false} StartSurvives(s: string, target: string, start: string)
    requires target != "" && start <= ReplaceAll(s, target)
    requires forall j :: 0 <= j < |start| ==> !Aligned(start[j..], PLACEHOLDER)
    ensures start <= s
    decreases |s|
  {
    if start != "" && |s| >= |target| {
      assert start[0..] == start;
      if target <= s {
        PrefixesAlign(start, ReplaceAll(s[|target|..], target));
        assert false;
      } else {
        assert start[1..] <= ReplaceAll(s[1..], target);
        assert forall j :: 0 <= j < |start[1..]| ==> start[1..][j..] == start[j + 1..];
        StartSurvives(s[1..], target, start[1..]);
        assert s == [s[0]] + s[1..] && start == [start[0]] + start[1..];
      }
    }
  }

  lemma AbsentLater(s: string, secret: string, k: nat)
    requires k <= |s|
    ensures !Contains(s, secret) ==> !Contains(s[k..], secret)
  {
    if i :| At(s[k..], secret, i) {
      assert s[k..][i..] == s[k + i..];
      assert At(s, secret, k + i);
    }
  }

  lemma BehindPlaceholder(more: string, secret: string)
    requires ApartFromPlaceholder(secret) && !Contains(more, secret)
    ensures !Contains(PLACEHOLDER + more, secret)
  {
    var out := PLACEHOLDER + more;
    forall i | 0 <= i <= |out| ensures !At(out, secret, i) {
      if i < |PLACEHOLDER| {
        assert out[i..] == PLACEHOLDER[i..] + more;
        assert !Aligned(secret, PLACEHOLDER[i..]);
      } else {
        assert out[i..] == more[i - |PLACEHOLDER|..];
        assert !At(more, secret, i - |PLACEHOLDER|);
      }
    }
  }

  /** A replacement leaves no occurrence of a value apart from the placeholder, provided there was
      none or it is the value replaced. */
  lemma {:induction false} ReplacementIsClean(s: string, target: string, secret: string)
    requires target != "" && secret != "" && ApartFromPlaceholder(secret)
    requires secret == target || !Contains(s, secret)
    ensures !Contains(ReplaceAll(s, target), secret)
    decreases |s|
  {
    var out := ReplaceAll(s, target);
    if |s| < |target| {
      assert forall i :: 0 <= i <= |s| ==> |s[i..]| < |target|;
    } else if target <= s {
      var rest := s[|target|..];
      AbsentLater(s, secret, |target|);
      ReplacementIsClean(rest, target, secret);
      BehindPlaceholder(ReplaceAll(rest, target), secret);
    } else {
      var rest := s[1..];
      AbsentLater(s, secret, 1);
      ReplacementIsClean(rest, target, secret);
      assert out[0..] == out && s[0..] == s;
      assert !At(s, secret, 0);
      if secret <= out {
        StartSurvives(s, target, secret);
      }
      forall i | 1 <= i <= |out| ensures !At(out, secret, i) {
        assert out[i..] == ReplaceAll(rest, target)[i - 1..];
        assert !At(ReplaceAll(rest, target), secret, i - 1);
      }
    }
  }

  lemma {:induction false} LaterSecretsKeepClean(secrets: seq<string>, s: string, secret: string)
    requires Nonempty(secrets) && secret != "" && ApartFromPlaceholder(secret)
    requires secret in secrets || !Contains(s, secret)
    ensures !Contains(ScrubWith(secrets, s), secret)
  {
    if secrets != [] {
      if secret == secrets[0] || !Contains(s, secret) {
        ReplacementIsClean(s, secrets[0], secret);
      }
      LaterSecretsKeepClean(secrets[1..], ReplaceAll(s, secrets[0]), secret);
    }
  }

  /** The value never reaches a record, in whatever company it is registered. */
  ghost predicate AlwaysKeptOut(secret: string) {
    forall secrets: seq<string>, s: string :: Nonempty(secrets) && secret in secrets
                                              ==> !Contains(ScrubWith(secrets, s), secret)
  }

  /** Registering values apart from the placeholder keeps each of them out of every text. */
  lemma ScrubIsClean(secrets: seq<string>, s: string, k: nat)
    requires Nonempty(secrets) && k < |secrets| && ApartFromPlaceholder(secrets[k])
    ensures !Contains(ScrubWith(secrets, s), secrets[k])
  {
    LaterSecretsKeepClean(secrets, s, secrets[k]);
  }

  lemma {:induction false} CleanIsUnchanged(s: string, target: string)
    requires target != "" && !Contains(s, target)
    ensures ReplaceAll(s, target) == s
    decreases |s|
  {
    if |s| >= |target| {
      assert s[0..] == s;
      assert !At(s, target, 0);
      assert forall i :: 0 <= i < |s| ==> s[1..][i..] == s[i + 1..];
      assert forall i :: At(s[1..], target, i) ==> At(s, target, i + 1);
      CleanIsUnchanged(s[1..], target);
      assert s == [s[0]] + s[1..];
    }
  }

  predicate AllApart(secrets: seq<string>) {
    forall i :: 0 <= i < |secrets| ==> ApartFromPlaceholder(secrets[i])
  }

  ghost predicate Clean(secrets: seq<string>, s: string) {
    forall i :: 0 <= i < |secrets| ==> !Contains(s, secrets[i])
  }

  lemma {:induction false} CleanIsKept(secrets: seq<string>, s: string)
    requires Nonempty(secrets) && Clean(secrets, s)
    ensures ScrubWith(secrets, s) == s
  {
    if secrets != [] {
      CleanIsUnchanged(s, secrets[0]);
      CleanIsKept(secrets[1..], s);
    }
  }

  /** Scrubbing leaves alone exactly the clean texts, and a second pass changes nothing. */
  lemma ScrubSettles(secrets: seq<string>, s: string)
    requires Nonempty(secrets) && AllApart(secrets)
    ensures Clean(secrets, ScrubWith(secrets, s))
    ensures ScrubWith(secrets, s) == s <==> Clean(secrets, s)
    ensures ScrubWith(secrets, ScrubWith(secrets, s)) == ScrubWith(secrets, s)
  {
    forall k | 0 <= k < |secrets| ensures !Contains(ScrubWith(secrets, s), secrets[k]) {
      ScrubIsClean(secrets, s, k);
    }
    if Clean(secrets, s) {
      CleanIsKept(secrets, s);
    }
    CleanIsKept(secrets, ScrubWith(secrets, s));
  }

  // No value that can touch a placeholder is safe in every company

  /** A value longer than n with no character of the placeholder. */
  function Marker(n: nat): (z: string)
    ensures |z| == n + 1 && z[n] == '!' && forall i :: 0 <= i < n ==> z[i] == '#'
  {
    seq(n + 1, i => if i < n then '#' else '!')
  }

  lemma {:induction false} MarkerIsReplaced(before: string, after: string, n: nat)
    requires |before| <= n && |after| <= n
    ensures ReplaceAll(before + Marker(n) + after, Marker(n)) == before + PLACEHOLDER + after
    decreases |before|
  {
    var z := Marker(n);
    var s := before + z + after;
    if before == "" {
      assert s[..|z|] == z && s[|z|..] == after;
      assert z <= s;
      assert ReplaceAll(after, z) == after;
      assert s == z + after;
    } else {
      assert s[n] == z[n - |before|] == '#' && z[n] == '!';
      MarkerIsReplaced(before[1..], after, n);
      FirstFirst(before, z, after);
      FirstFirst(before, PLACEHOLDER, after);
    }
  }

  lemma FirstFirst(before: string, middle: string, after: string)
    requires before != ""
    ensures var s := before + middle + after;
            s == [before[0]] + (before[1..] + middle + after) && s[1..] == before[1..] + middle + after
  {
    assert before == [before[0]] + before[1..];
  }

  /** Around a marker the value does not occur, if around a placeholder it would use its characters. */
  lemma MarkerHides(secret: string, before: string, after: string)
    requires |before| < |secret| && |after| < |secret|
    requires secret[|before|] in PLACEHOLDER
    requires after != "" ==> secret[|secret| - |after| - 1] in PLACEHOLDER
    ensures !Contains(before + Marker(|secret|) + after, secret)
  {
    var n := |secret|;
    var s := before + Marker(n) + after;
    assert forall k :: |before| <= k < |before| + n + 1 ==> s[k] == Marker(n)[k - |before|];
    assert '#' !in PLACEHOLDER && '!' !in PLACEHOLDER;
    assert forall k :: |before| <= k < |before| + n + 1 ==> s[k] !in PLACEHOLDER;
    forall i | 0 <= i && i + n <= |s| ensures !At(s, secret, i) {
      var k := if i <= n then |before| else n - |after| - 1;
      assert |before| <= i + k < |before| + n + 1;
      assert s[i..][k] == s[i + k];
    }
  }

  /** Registered beside a marker, the value reappears in a text that did not hold it. */
  lemma Reappears(secret: string, before: string, after: string)
    requires |before| < |secret| && |after| < |secret|
    requires secret[|before|] in PLACEHOLDER
    requires after != "" ==> secret[|secret| - |after| - 1] in PLACEHOLDER
    requires Contains(before + PLACEHOLDER + after, secret)
    ensures !AlwaysKeptOut(secret)
  {
    var z := Marker(|secret|);
    var s := before + z + after;
    MarkerHides(secret, before, after);
    CleanIsUnchanged(s, secret);
    MarkerIsReplaced(before, after, |secret|);
    var secrets := [secret, z];
    assert secrets[1..] == [z] && secrets[1..][1..] == [];
    assert ScrubWith(secrets, s) == ScrubWith([z], s) == ReplaceAll(s, z);
    assert Nonempty(secrets) && secret in secrets;
  }

  lemma OverlapAtItsEnd(secret: string, j: nat)
    requires j < |secret| && Aligned(secret[j..], PLACEHOLDER)
    ensures !AlwaysKeptOut(secret)
  {
    var p, before, tail := PLACEHOLDER, secret[..j], secret[j..];
    assert secret == before + tail && tail[0] == secret[j];
    if p <= tail {
      var after := tail[|p|..];
      assert tail == p + after;
      assert (before + p + after)[0..] == secret;
      assert secret[|secret| - |after| - 1] == p[|p| - 1];
      assert At(before + p + after, secret, 0);
      Reappears(secret, before, after);
    } else {
      var s := before + p + "";
      assert p == tail + p[|tail|..];
      assert s[0..] == secret + p[|tail|..];
      assert At(s, secret, 0);
      Reappears(secret, before, "");
    }
  }

  lemma OverlapAtItsStart(secret: string, i: nat)
    requires secret != "" && i < |PLACEHOLDER| && Aligned(secret, PLACEHOLDER[i..])
    ensures !AlwaysKeptOut(secret)
  {
    var p, tail := PLACEHOLDER, PLACEHOLDER[i..];
    assert tail[0] == p[i] && tail[|tail| - 1] == p[|p| - 1];
    if tail <= secret {
      var after := secret[|tail|..];
      assert secret == tail + after;
      assert ("" + p + after)[i..] == secret;
      assert secret[|secret| - |after| - 1] == tail[|tail| - 1];
      assert At("" + p + after, secret, i);
      Reappears(secret, "", after);
    } else {
      assert ("" + p + "")[i..] == tail;
      assert At("" + p + "", secret, i);
      Reappears(secret, "", "");
    }
  }

  /** A value is kept out of every record, whatever is registered with it, exactly when it cannot
      share a character with a placeholder. */
  lemma KeptOutExactly(secret: string)
    requires secret != ""
    ensures AlwaysKeptOut(secret) <==> ApartFromPlaceholder(secret)
  {
    if ApartFromPlaceholder(secret) {
      forall secrets: seq<string>, s: string | Nonempty(secrets) && secret in secrets
        ensures !Contains(ScrubWith(secrets, s), secret)
      {
        LaterSecretsKeepClean(secrets, s, secret);
      }
    } else {
      if j :| 0 <= j < |secret| && Aligned(secret[j..], PLACEHOLDER) {
        OverlapAtItsEnd(secret, j);
      } else {
        var i :| 0 <= i < |PLACEHOLDER| && Aligned(secret, PLACEHOLDER[i..]);
        OverlapAtItsStart(secret, i);
      }
    }
  }

  /** For a value without brackets, which every OVHcloud key is, that means not lying inside the
      word between them. */
  lemma BracketFreeValues(secret: string)
    requires secret != "" && '[' !in secret && ']' !in secret
    ensures ApartFromPlaceholder(secret) <==> !Contains("redacted", secret)
  {
    var p, word := PLACEHOLDER, "redacted";
    assert p == "[" + word + "]";
    assert forall j :: 0 <= j < |secret| ==> secret[j..][0] == secret[j];
    if i :| At(word, secret, i) {
      assert p[i + 1..] == word[i..] + "]";
      assert Aligned(secret, p[i + 1..]);
    }
    if i :| 0 <= i < |p| && Aligned(secret, p[i..]) {
      InsideTheWord(secret, word, p, i);
    }
  }

  lemma InsideTheWord(secret: string, word: string, p: string, i: nat)
    requires secret != "" && '[' !in secret && ']' !in secret
    requires p == "[" + word + "]" && i < |p| && Aligned(secret, p[i..])
    ensures Contains(word, secret)
  {
    var tail := p[i..];
    assert tail[|tail| - 1] == ']' && tail[0] == p[i];
    assert secret <= tail;
    assert i > 0;
    assert tail == word[i - 1..] + "]";
    assert |secret| < |tail|;
    assert At(word, secret, i - 1);
  }

  /** One registered value, and a text it survives in. */
  lemma BracketValueComesBack()
    ensures Contains(ScrubWith(["]x"], "]xx"), "]x")
  {
    var s := "]xx";
    assert s[2..] == "x";
    assert ReplaceAll(s, "]x") == PLACEHOLDER + "x";
    assert (PLACEHOLDER + "x")[9..] == "]x";
    assert ["]x"][1..] == [];
    assert At(ScrubWith(["]x"], s), "]x", 9);
  }

  // A value registered alone

  /** The value never reaches a record when it is the only one registered. */
  ghost predicate KeptOutAlone(secret: string)
    requires secret != ""
  {
    forall s: string :: !Contains(ScrubWith([secret], s), secret)
  }

  /** The value starts nowhere inside a placeholder, and where a beginning of it in front of one would
      make it up, that beginning in front of the value shows the value before its end. */
  predicate ApartAlone(secret: string) {
    && (forall i :: 0 <= i < |PLACEHOLDER| ==> !Aligned(secret, PLACEHOLDER[i..]))
    && (forall j :: 0 < j < |secret| && Aligned(secret[j..], PLACEHOLDER) ==> Index(secret[..j] + secret, secret) < j)
  }

  /** The leftmost occurrence of the value. */
  ghost predicate First(s: string, target: string, k: int) {
    At(s, target, k) && forall j :: 0 <= j < k ==> !At(s, target, j)
  }

  lemma FirstOfTail(s: string, target: string, k: nat)
    requires First(s, target, k) && k > 0
    ensures First(s[1..], target, k - 1) && !(target <= s) && s != ""
  {
    assert s[0..] == s && !At(s, target, 0);
    assert s[1..][k - 1..] == s[k..];
    forall j | 0 <= j < k - 1 ensures !At(s[1..], target, j) {
      assert s[1..][j..] == s[j + 1..];
      assert !At(s, target, j + 1);
    }
  }

  /** The first occurrence becomes the placeholder, and what is behind it is replaced in turn. */
  lemma {:induction false} ReplaceAtFirst(s: string, target: string, k: nat, rest: string)
    requires target != "" && First(s, target, k) && rest == s[k + |target|..]
    ensures ReplaceAll(s, target) == s[..k] + (PLACEHOLDER + ReplaceAll(rest, target))
    decreases |s|
  {
    if k == 0 {
      ReplaceHere(s, target);
    } else {
      FirstOfTail(s, target, k);
      BehindTail(s, k + |target|);
      ReplaceAtFirst(s[1..], target, k - 1, rest);
      ReplaceLater(s, target, k, PLACEHOLDER + ReplaceAll(rest, target));
    }
  }

  lemma BehindTail(s: string, k: nat)
    requires 0 < k <= |s|
    ensures s[1..][k - 1..] == s[k..]
  {
  }

  lemma ReplaceHere(s: string, target: string)
    requires target != "" && At(s, target, 0)
    ensures ReplaceAll(s, target) == s[..0] + (PLACEHOLDER + ReplaceAll(s[0 + |target|..], target))
  {
    assert s[0..] == s;
  }

  lemma ReplaceLater(s: string, target: string, k: nat, more: string)
    requires target != "" && |target| <= |s| && !(target <= s) && 0 < k <= |s|
    requires ReplaceAll(s[1..], target) == s[1..][..k - 1] + more
    ensures ReplaceAll(s, target) == s[..k] + more
  {
    assert s[..k] == [s[0]] + s[1..][..k - 1];
    Assoc([s[0]], s[1..][..k - 1], more);
    NotHere(s, target);
  }

  lemma NotHere(s: string, target: string)
    requires target != "" && |target| <= |s| && !(target <= s)
    ensures ReplaceAll(s, target) == [s[0]] + ReplaceAll(s[1..], target)
  {
  }

  /** With the placeholder between what is in front of the first occurrence and a clean rest, no
      occurrence starts anywhere. */
  lemma NoneStartsAt(secret: string, s: string, k: nat, more: string, i: nat)
    requires secret != "" && ApartAlone(secret) && First(s, secret, k) && !Contains(more, secret)
    requires i <= k + |PLACEHOLDER| + |more|
    ensures !(secret <= (s[..k] + (PLACEHOLDER + more))[i..])
  {
    var front, out := s[..k], s[..k] + (PLACEHOLDER + more);
    if i >= k + |PLACEHOLDER| {
      BehindBoth(front, PLACEHOLDER, more, i);
      assert !At(more, secret, i - k - |PLACEHOLDER|);
    } else if i >= k {
      InTheMiddle(front, PLACEHOLDER, more, i);
      StartsInside(secret, PLACEHOLDER[i - k..], more);
    } else {
      InFront(front, PLACEHOLDER + more, i);
      assert front[i..] == s[i..k];
      NoneStartsInFront(secret, s, k, more, i);
    }
  }

  lemma BehindBoth(front: string, middle: string, more: string, i: nat)
    requires |front| + |middle| <= i <= |front| + |middle| + |more|
    ensures (front + (middle + more))[i..] == more[i - |front| - |middle|..]
  {
  }

  lemma InTheMiddle(front: string, middle: string, more: string, i: nat)
    requires |front| <= i < |front| + |middle|
    ensures (front + (middle + more))[i..] == middle[i - |front|..] + more
  {
  }

  lemma InFront(front: string, more: string, i: nat)
    requires i < |front|
    ensures (front + more)[i..] == front[i..] + more
  {
  }

  lemma StartsInside(start: string, front: string, more: string)
    requires !Aligned(start, front)
    ensures !(start <= front + more)
  {
    if start <= front + more {
      StartsAlign(start, front, more);
    }
  }

  lemma NoneStartsInFront(secret: string, s: string, k: nat, more: string, i: nat)
    requires ApartAlone(secret) && First(s, secret, k) && i < k
    ensures !(secret <= s[i..k] + (PLACEHOLDER + more))
  {
    if secret <= s[i..k] + (PLACEHOLDER + more) {
      StartsBefore(secret, s, k, i, PLACEHOLDER + more);
      PrefixesAlign(secret[k - i..], more);
      assert false;
    }
  }

  lemma StartsAlign(start: string, front: string, more: string)
    requires start <= front + more
    ensures Aligned(start, front)
  {
    if |start| <= |front| {
      assert start == (front + more)[..|start|] == front[..|start|];
    } else {
      assert front == (front + more)[..|front|] == start[..|front|];
    }
  }

  /** An occurrence that begins in front of the first one reaches into what is put in its place, and
      its beginning shows the value no earlier than the value. */
  lemma StartsBefore(secret: string, s: string, k: nat, i: nat, more: string)
    requires First(s, secret, k) && i < k && secret <= s[i..k] + more
    ensures k - i < |secret| && secret[k - i..] <= more
    ensures Index(secret[..k - i] + secret, secret) >= k - i
  {
    assert !At(s, secret, i);
    CutsAcross(secret, s, k, i, more);
    NotEarlier(secret, s, k, i);
  }

  lemma CutsAcross(secret: string, s: string, k: nat, i: nat, more: string)
    requires i < k <= |s| && secret <= s[i..k] + more && !(secret <= s[i..])
    ensures k - i < |secret| && secret[..k - i] == s[i..k] && secret[k - i..] <= more
  {
    var front := s[i..k];
    StartsAlign(secret, front, more);
    assert front <= s[i..];
    Across(secret, front, more);
  }

  lemma Across(secret: string, front: string, more: string)
    requires secret <= front + more && |front| < |secret|
    ensures secret[..|front|] == front && secret[|front|..] <= more
  {
    var both, n := front + more, |front|;
    assert forall m :: 0 <= m < |secret| - n ==> secret[n..][m] == both[n + m] == more[m];
    assert forall m :: 0 <= m < n ==> secret[m] == both[m] == front[m];
  }

  lemma NotEarlier(secret: string, s: string, k: nat, i: nat)
    requires First(s, secret, k) && i < k && k - i < |secret| && secret[..k - i] == s[i..k]
    ensures Index(secret[..k - i] + secret, secret) >= k - i
  {
    var both := secret[..k - i] + secret;
    Window(s, secret, i, k);
    assert both[k - i..] == secret;
    assert At(both, secret, k - i);
    var first := Index(both, secret);
    if first < k - i {
      assert both[first..] <= s[i + first..];
      assert At(s, secret, i + first);
    }
  }

  /** What is between two places and the value at the second one are a stretch of the text. */
  lemma Window(s: string, secret: string, i: nat, k: nat)
    requires i < k && At(s, secret, k)
    ensures forall m :: 0 <= m <= k - i ==> (s[i..k] + secret)[m..] <= s[i + m..]
  {
    assert s[k..][..|secret|] == secret;
    assert s[i..k] + secret == s[i..k + |secret|];
  }

  lemma {:induction false} AloneIsClean(s: string, secret: string)
    requires secret != "" && ApartAlone(secret)
    ensures !Contains(ReplaceAll(s, secret), secret)
    decreases |s|
  {
    var k := Index(s, secret);
    if k < 0 {
      CleanIsUnchanged(s, secret);
    } else {
      var rest := s[k + |secret|..];
      AloneIsClean(rest, secret);
      ReplaceAtFirst(s, secret, k, rest);
      forall i: nat ensures !At(ReplaceAll(s, secret), secret, i) {
        if i <= |ReplaceAll(s, secret)| {
          NoneStartsAt(secret, s, k, ReplaceAll(rest, secret), i);
        }
      }
    }
  }

  /** The value between two texts too short to hold it, where it does not occur earlier. */
  lemma ReplacedBetween(before: string, secret: string, after: string)
    requires secret != "" && |after| < |secret| && Index(before + secret, secret) >= |before|
    ensures ScrubWith([secret], before + secret + after) == before + (PLACEHOLDER + after)
  {
    var s, k := before + secret + after, |before|;
    FirstBetween(before, secret, after);
    assert s[..k] == before && s[k + |secret|..] == after;
    ReplaceAtFirst(s, secret, k, after);
    OneSecret(secret, s);
  }

  lemma OneSecret(secret: string, s: string)
    requires secret != ""
    ensures ScrubWith([secret], s) == ReplaceAll(s, secret)
  {
    assert [secret][1..] == [];
  }

  lemma FirstBetween(before: string, secret: string, after: string)
    requires Index(before + secret, secret) >= |before|
    ensures First(before + secret + after, secret, |before|)
  {
    assert (before + secret + after)[|before|..] == secret + after;
    forall j | 0 <= j < |before| ensures !At(before + secret + after, secret, j) {
      assert !At(before + secret, secret, j);
      InBoth(before + secret, after, secret, j);
    }
  }

  lemma InBoth(front: string, after: string, secret: string, j: nat)
    requires j + |secret| <= |front|
    ensures At(front + after, secret, j) <==> At(front, secret, j)
  {
    assert (front + after)[j..][..|secret|] == front[j..][..|secret|];
  }

  lemma AloneComesBack(before: string, secret: string, after: string)
    requires secret != "" && |after| < |secret| && Index(before + secret, secret) >= |before|
    requires Contains(before + (PLACEHOLDER + after), secret)
    ensures !KeptOutAlone(secret)
  {
    ReplacedBetween(before, secret, after);
    assert Contains(ScrubWith([secret], before + secret + after), secret);
  }

  lemma ComesBackAtItsEnd(secret: string, j: nat)
    requires 0 < j < |secret| && Aligned(secret[j..], PLACEHOLDER) && Index(secret[..j] + secret, secret) >= j
    ensures !KeptOutAlone(secret)
  {
    var after := Completed(secret[j..]);
    Halves(secret, j);
    EndsBefore(secret, secret[..j], secret[j..], after);
  }

  lemma Halves(s: string, j: nat)
    requires j <= |s|
    ensures s == s[..j] + s[j..]
  {
  }

  lemma EndsBefore(secret: string, before: string, tail: string, after: string)
    requires secret == before + tail && before != "" && |after| <= |tail| && tail <= PLACEHOLDER + after
    requires Index(before + secret, secret) >= |before|
    ensures !KeptOutAlone(secret)
  {
    StartsWith(before, tail, PLACEHOLDER + after);
    ContainsStart(before + (PLACEHOLDER + after), secret);
    AloneComesBack(before, secret, after);
  }

  lemma ContainsStart(s: string, start: string)
    requires start <= s
    ensures Contains(s, start)
  {
    assert s[0..] == s;
    assert At(s, start, 0);
  }

  lemma Completed(tail: string) returns (after: string)
    requires Aligned(tail, PLACEHOLDER)
    ensures tail <= PLACEHOLDER + after && |after| <= |tail|
  {
    after := if PLACEHOLDER <= tail then tail[|PLACEHOLDER|..] else "";
  }

  lemma StartsWith(before: string, tail: string, more: string)
    requires tail <= more
    ensures before + tail <= before + more
  {
    assert (before + more)[..|before + tail|] == before + more[..|tail|];
  }

  lemma ComesBackAtItsStart(secret: string, i: nat)
    requires secret != "" && i < |PLACEHOLDER| && Aligned(secret, PLACEHOLDER[i..])
    ensures !KeptOutAlone(secret)
  {
    var tail := PLACEHOLDER[i..];
    var after := if tail <= secret then secret[|tail|..] else "";
    assert ("" + (PLACEHOLDER + after))[i..] == tail + after;
    assert At("" + (PLACEHOLDER + after), secret, i);
    AloneComesBack("", secret, after);
  }

  /** Registered alone, a value is kept out of every record exactly when it is apart in this sense. */
  lemma KeptOutAloneExactly(secret: string)
    requires secret != ""
    ensures KeptOutAlone(secret) <==> ApartAlone(secret)
  {
    if ApartAlone(secret) {
      forall s: string ensures !Contains(ScrubWith([secret], s), secret) {
        AloneIsClean(s, secret);
        OneSecret(secret, s);
      }
    } else if i :| 0 <= i < |PLACEHOLDER| && Aligned(secret, PLACEHOLDER[i..]) {
      ComesBackAtItsStart(secret, i);
    } else {
      var j :| 0 < j < |secret| && Aligned(secret[j..], PLACEHOLDER) && Index(secret[..j] + secret, secret) >= j;
      ComesBackAtItsEnd(secret, j);
    }
  }

  /** Two opening brackets are kept out alone, and not beside every other value. */
  lemma CompanyMatters()
    ensures KeptOutAlone("[[") && !AlwaysKeptOut("[[")
  {
    var secret := "[[";
    assert secret[..1] == "[" == secret[1..] && PLACEHOLDER[..1] == "[";
    assert ("[" + secret)[0..] == "[" + secret && secret <= "[" + secret;
    assert At("[" + secret, secret, 0);
    forall i | 0 <= i < |PLACEHOLDER| ensures !Aligned(secret, PLACEHOLDER[i..]) {
      assert PLACEHOLDER[i..][0] == PLACEHOLDER[i];
    }
    KeptOutAloneExactly(secret);
    assert Aligned(secret[1..], PLACEHOLDER);
    KeptOutExactly(secret);
  }

  // Attributes, and groups of them at any depth

  datatype Attr = Attr(key: string, value: Value)

  /** A value is a text, a group, or anything else that renders as a text. */
  datatype Value =
    | Plain(text: string)
    | Typed(payload: int, rendering: string)
    | Group(members: seq<Attr>)

  function Rendered(v: Value): string
    requires !v.Group?
  {
    if v.Plain? then v.text else v.rendering
  }

  /** A value that holds no secret keeps its type; a tainted one becomes text. */
  function ScrubAttr(secrets: seq<string>, a: Attr): Attr
    requires Nonempty(secrets)
    decreases a
  {
    var key := ScrubWith(secrets, a.key);
    match a.value
    case Group(members) =>
      Attr(key, Group(seq(|members|, i requires 0 <= i < |members| => ScrubAttr(secrets, members[i]))))
    case _ =>
      var clean := ScrubWith(secrets, Rendered(a.value));
      Attr(key, if clean != Rendered(a.value) then Plain(clean) else a.value)
  }

  /** Every text an attribute is logged with, in the order a handler meets them. */
  function Texts(a: Attr): seq<string>
    decreases a
  {
    match a.value
    case Group(members) =>
      [a.key] + Concatenated(seq(|members|, i requires 0 <= i < |members| => Texts(members[i])))
    case Plain(text) => [a.key, text]
    case Typed(_, rendering) => [a.key, rendering]
  }

  function Concatenated(lists: seq<seq<string>>): seq<string> {
    if lists == [] then [] else lists[0] + Concatenated(lists[1..])
  }

  function ScrubEach(secrets: seq<string>, texts: seq<string>): seq<string>
    requires Nonempty(secrets)
  {
    seq(|texts|, i requires 0 <= i < |texts| => ScrubWith(secrets, texts[i]))
  }

  /** The same nesting with as many members in the same order, a leaf whose text stays keeping its type. */
  predicate SameShape(a: Attr, b: Attr)
    decreases a
  {
    match a.value
    case Group(members) =>
      && b.value.Group? && |b.value.members| == |members|
      && forall i :: 0 <= i < |members| ==> SameShape(members[i], b.value.members[i])
    case _ =>
      !b.value.Group? && (b.value == a.value || (b.value.Plain? && Rendered(b.value) != Rendered(a.value)))
  }

  /** An attribute is logged with its own texts, each of them scrubbed, and keeps its shape. */
  lemma {:induction false} AttributesAreScrubbed(secrets: seq<string>, a: Attr)
    requires Nonempty(secrets)
    ensures Texts(ScrubAttr(secrets, a)) == ScrubEach(secrets, Texts(a))
    ensures SameShape(a, ScrubAttr(secrets, a))
    decreases a
  {
    if a.value.Group? {
      var members, scrubbed := a.value.members, ScrubAttr(secrets, a).value.members;
      forall i | 0 <= i < |members|
        ensures Texts(scrubbed[i]) == ScrubEach(secrets, Texts(members[i])) && SameShape(members[i], scrubbed[i])
      {
        AttributesAreScrubbed(secrets, members[i]);
      }
      GroupsAreScrubbed(secrets, seq(|members|, i requires 0 <= i < |members| => Texts(members[i])),
                        seq(|members|, i requires 0 <= i < |members| => Texts(scrubbed[i])));
      EachOfBoth(secrets, [a.key], Concatenated(seq(|members|, i requires 0 <= i < |members| => Texts(members[i]))));
    }
  }

  lemma {:induction false} GroupsAreScrubbed(secrets: seq<string>, lists: seq<seq<string>>, scrubbed: seq<seq<string>>)
    requires Nonempty(secrets) && |scrubbed| == |lists|
    requires forall i :: 0 <= i < |lists| ==> scrubbed[i] == ScrubEach(secrets, lists[i])
    ensures Concatenated(scrubbed) == ScrubEach(secrets, Concatenated(lists))
  {
    if lists != [] {
      GroupsAreScrubbed(secrets, lists[1..], scrubbed[1..]);
      EachOfBoth(secrets, lists[0], Concatenated(lists[1..]));
    }
  }

  lemma EachOfBoth(secrets: seq<string>, a: seq<string>, b: seq<string>)
    requires Nonempty(secrets)
    ensures ScrubEach(secrets, a + b) == ScrubEach(secrets, a) + ScrubEach(secrets, b)
  {
  }

  /** The text occurs in some key or some rendered value, at any depth. */
  ghost predicate Leaks(a: Attr, secret: string)
    decreases a
  {
    Contains(a.key, secret)
    || match a.value
       case Group(members) => exists i :: 0 <= i < |members| && Leaks(members[i], secret)
       case _ => Contains(Rendered(a.value), secret)
  }

  /** No registered value reaches the handler underneath, however deep its group. */
  lemma {:induction false} AttributesAreClean(secrets: seq<string>, a: Attr, k: nat)
    requires Nonempty(secrets) && k < |secrets| && ApartFromPlaceholder(secrets[k])
    ensures !Leaks(ScrubAttr(secrets, a), secrets[k])
    decreases a
  {
    ScrubIsClean(secrets, a.key, k);
    match a.value
    case Group(members) =>
      forall i | 0 <= i < |members| ensures !Leaks(ScrubAttr(secrets, members[i]), secrets[k]) {
        AttributesAreClean(secrets, members[i], k);
      }
    case _ =>
      ScrubIsClean(secrets, Rendered(a.value), k);
  }

  /** An attribute holding no registered value passes through unchanged, type and all. */
  lemma {:induction false} CleanAttributesAreKept(secrets: seq<string>, a: Attr)
    requires Nonempty(secrets)
    requires forall k :: 0 <= k < |secrets| ==> !Leaks(a, secrets[k])
    ensures ScrubAttr(secrets, a) == a
    decreases a
  {
    CleanIsKept(secrets, a.key);
    match a.value
    case Group(members) =>
      forall i | 0 <= i < |members| ensures ScrubAttr(secrets, members[i]) == members[i] {
        CleanAttributesAreKept(secrets, members[i]);
      }
      var group := ScrubAttr(secrets, a).value.members;
      assert group == members;
    case _ =>
      CleanIsKept(secrets, Rendered(a.value));
  }
}
