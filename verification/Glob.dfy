/** The wildcard language of access rules, and the matcher that decides it
    (internal/credential/credential.go). */
module Glob {
  import opened Text

  /** What a rule path means: a star stands for any run of characters, the empty run and
      separators included, and every other character for itself. */
  ghost predicate Matches(pattern: string, path: string)
    decreases |pattern|
  {
    if pattern == "" then path == ""
    else if pattern[0] == '*' then exists k :: 0 <= k <= |path| && Matches(pattern[1..], path[k..])
    else path != "" && path[0] == pattern[0] && Matches(pattern[1..], path[1..])
  }

  /** The same language read piece by piece: anything, the first piece, anything, ..., and the
      last piece at the very end. */
  ghost predicate StarTail(pieces: seq<string>, path: string)
    requires |pieces| >= 1
    decreases |pieces|
  {
    if |pieces| == 1 then HasSuffix(path, pieces[0])
    else exists k :: At(path, pieces[0], k) && StarTail(pieces[1..], path[k + |pieces[0]|..])
  }

  /** The matcher: the first piece at the start, then each middle piece at its leftmost place,
      then the last piece at the end. */
  method MatchPath(pattern: string, path: string) returns (matched: bool)
    ensures matched <==> Matches(pattern, path)
  {
    var pieces := Split(pattern, '*');
    PiecesOfPattern(pattern, path);
    if |pieces| == 1 {
      return pattern == path;
    }
    if !(pieces[0] <= path) {
      return false;
    }
    matched := FollowPieces(pieces, path[|pieces[0]|..]);
  }

  /** The pieces behind the first: the middle ones at their leftmost places, the last one at the end. */
  method FollowPieces(pieces: seq<string>, path: string) returns (matched: bool)
    requires |pieces| >= 2
    ensures matched <==> StarTail(pieces[1..], path)
  {
    var rest := path;
    var last := |pieces| - 1;
    for i := 1 to last
      invariant StarTail(pieces[1..], path) <==> StarTail(pieces[i..], rest)
    {
      var found := Index(rest, pieces[i]);
      if found < 0 {
        assert !StarTail(pieces[i..], rest);
        return false;
      }
      LeftmostLosesNothing(pieces[i..], rest, found);
      assert pieces[i..][1..] == pieces[i + 1..];
      rest := rest[found + |pieces[i]|..];
    }
    return HasSuffix(rest, pieces[last]);
  }

  /** What follows a star may start later in a longer text. */
  lemma {:induction false} StarTailAbsorbs(pieces: seq<string>, path: string, k: nat)
    requires |pieces| >= 1 && k <= |path|
    requires StarTail(pieces, path[k..])
    ensures StarTail(pieces, path)
  {
    var tail := path[k..];
    if |pieces| == 1 {
      assert path[|path| - |pieces[0]|..] == tail[|tail| - |pieces[0]|..];
    } else {
      var j :| At(tail, pieces[0], j) && StarTail(pieces[1..], tail[j + |pieces[0]|..]);
      assert tail[j..] == path[k + j..];
      assert tail[j + |pieces[0]|..] == path[k + j + |pieces[0]|..];
      assert At(path, pieces[0], k + j);
    }
  }

  /** Taking the leftmost place of a piece never rules a match out. */
  lemma {:induction false} LeftmostLosesNothing(pieces: seq<string>, path: string, found: nat)
    requires |pieces| >= 2
    requires At(path, pieces[0], found)
    requires forall j :: 0 <= j < found ==> !At(path, pieces[0], j)
    ensures StarTail(pieces, path) <==> StarTail(pieces[1..], path[found + |pieces[0]|..])
  {
    if StarTail(pieces, path) {
      var k :| At(path, pieces[0], k) && StarTail(pieces[1..], path[k + |pieces[0]|..]);
      var after := path[found + |pieces[0]|..];
      assert after[k - found..] == path[k + |pieces[0]|..];
      StarTailAbsorbs(pieces[1..], after, k - found);
    }
  }

  /** The pieces, the first one at position k and the last one at the end. */
  ghost predicate StartsHere(pieces: seq<string>, path: string, k: int)
    requires |pieces| >= 1
  {
    if |pieces| == 1 then 0 <= k <= |path| && pieces[0] == path[k..]
    else At(path, pieces[0], k) && StarTail(pieces[1..], path[k + |pieces[0]|..])
  }

  lemma StarTailStarts(pieces: seq<string>, path: string)
    requires |pieces| >= 1
    ensures StarTail(pieces, path) <==> exists k :: 0 <= k <= |path| && StartsHere(pieces, path, k)
  {
    if |pieces| == 1 {
      if HasSuffix(path, pieces[0]) {
        assert StartsHere(pieces, path, |path| - |pieces[0]|);
      }
      if k :| 0 <= k <= |path| && StartsHere(pieces, path, k) {
        assert k == |path| - |pieces[0]|;
      }
    } else {
      forall k
        ensures StartsHere(pieces, path, k) <==>
                At(path, pieces[0], k) && StarTail(pieces[1..], path[k + |pieces[0]|..])
      {}
    }
  }

  lemma PiecesStart(pieces: seq<string>, path: string, k: nat)
    requires |pieces| >= 1 && k <= |path|
    ensures StartsHere(pieces, path, k) <==>
            if |pieces| == 1 then pieces[0] == path[k..]
            else pieces[0] <= path[k..] && StarTail(pieces[1..], path[k..][|pieces[0]|..])
  {
    if pieces[0] <= path[k..] {
      assert path[k..][|pieces[0]|..] == path[k + |pieces[0]|..];
    }
  }

  lemma LongerFirstPiece(c: char, piece: string, path: string)
    requires path != "" && path[0] == c
    ensures [c] + piece <= path <==> piece <= path[1..]
    ensures piece <= path[1..] ==> path[1..][|piece|..] == path[|piece| + 1..]
  {
    assert path == [c] + path[1..];
    if [c] + piece <= path {
      assert forall i :: 0 <= i < |piece| ==> piece[i] == ([c] + piece)[i + 1];
    }
  }

  /** The pieces of a pattern carry its whole meaning. */
  lemma {:induction false} PiecesOfPattern(pattern: string, path: string)
    ensures var pieces := Split(pattern, '*');
            Matches(pattern, path) <==>
            if |pieces| == 1 then pattern == path
            else pieces[0] <= path && StarTail(pieces[1..], path[|pieces[0]|..])
    decreases |pattern|
  {
    SplitWithoutSeparator(pattern, '*');
    if pattern != "" {
      var rest := Split(pattern[1..], '*');
      SplitWithoutSeparator(pattern[1..], '*');
      if pattern[0] == '*' {
        forall k | 0 <= k <= |path|
          ensures Matches(pattern[1..], path[k..]) <==> StartsHere(rest, path, k)
        {
          PiecesOfPattern(pattern[1..], path[k..]);
          PiecesStart(rest, path, k);
        }
        StarTailStarts(rest, path);
        assert Split(pattern, '*') == [""] + rest && ([""] + rest)[1..] == rest && path[0..] == path;
      } else if path != "" && path[0] == pattern[0] {
        PiecesOfPattern(pattern[1..], path[1..]);
        LongerFirstPiece(pattern[0], rest[0], path);
        assert pattern == [pattern[0]] + pattern[1..] && path == [path[0]] + path[1..];
        assert Split(pattern, '*')[0] == [pattern[0]] + rest[0];
      }
    }
  }

  // How the meaning reacts to the fixed part, to the end and to single stars

  /** A star-free start is matched letter for letter. */
  lemma {:induction false} FixedStart(fixed: string, rest: string, path: string)
    requires '*' !in fixed
    ensures Matches(fixed + rest, path) <==> fixed <= path && Matches(rest, path[|fixed|..])
  {
    if fixed == "" {
      assert fixed + rest == rest;
      assert path[0..] == path;
    } else {
      assert (fixed + rest)[1..] == fixed[1..] + rest;
      if path != "" {
        FixedStart(fixed[1..], rest, path[1..]);
        if path[0] == fixed[0] {
          assert path == [path[0]] + path[1..];
          assert fixed == [fixed[0]] + fixed[1..];
          assert fixed <= path <==> fixed[1..] <= path[1..];
          if fixed <= path {
            assert path[1..][|fixed[1..]|..] == path[|fixed|..];
          }
        }
      }
    }
  }

  /** A text that fills the first star, followed by a match of the rest, is a match. */
  lemma FillStar(fill: string, rest: string, path: string)
    requires Matches(rest, path)
    ensures Matches("*" + rest, fill + path)
  {
    assert ("*" + rest)[1..] == rest;
    assert (fill + path)[|fill|..] == path;
  }

  /** A pattern whose last character is not a star ends every path it matches. */
  lemma {:induction false} LastCharacter(pattern: string, path: string)
    requires pattern != "" && pattern[|pattern| - 1] != '*'
    requires Matches(pattern, path)
    ensures path != "" && path[|path| - 1] == pattern[|pattern| - 1]
    decreases |pattern|
  {
    if pattern[0] == '*' {
      var k :| 0 <= k <= |path| && Matches(pattern[1..], path[k..]);
      LastCharacter(pattern[1..], path[k..]);
    } else if |pattern| > 1 {
      LastCharacter(pattern[1..], path[1..]);
    } else {
      assert path[1..] == "";
    }
  }

  /** Appending to a path keeps a match when the pattern ends in a star. */
  lemma {:induction false} TrailingStar(pattern: string, path: string, more: string)
    requires pattern != "" && pattern[|pattern| - 1] == '*'
    requires Matches(pattern, path)
    ensures Matches(pattern, path + more)
    decreases |pattern|
  {
    var rest, longer := pattern[1..], path + more;
    if rest == "" {
      assert longer[|longer|..] == "";
      assert Matches(rest, longer[|longer|..]);
    } else if pattern[0] == '*' {
      var k :| 0 <= k <= |path| && Matches(rest, path[k..]);
      TrailingStar(rest, path[k..], more);
      assert longer[k..] == path[k..] + more;
    } else {
      TrailingStar(rest, path[1..], more);
      assert longer[1..] == path[1..] + more;
    }
  }

  /** A pattern with its stars left out, which it matches. */
  function Bare(pattern: string): (bare: string)
    ensures '*' !in bare
    ensures Matches(pattern, bare)
  {
    if pattern == "" then ""
    else if pattern[0] == '*' then
      var bare := Bare(pattern[1..]);
      assert bare[0..] == bare;
      bare
    else
      var bare := Bare(pattern[1..]);
      assert ([pattern[0]] + bare)[1..] == bare;
      [pattern[0]] + bare
  }

  /** Every pattern matches some path; one that does not end in a slash, a path that does not. */
  lemma SomeMatch(pattern: string) returns (path: string)
    requires !HasSuffix(pattern, "/")
    ensures Matches(pattern, path)
    ensures !HasSuffix(path, "/")
  {
    path := Bare(pattern);
    if pattern != "" {
      if pattern[|pattern| - 1] == '*' {
        TrailingStar(pattern, path, "x");
        path := path + "x";
        assert path[|path| - 1] == 'x';
      } else {
        LastCharacter(pattern, path);
        assert pattern[|pattern| - 1..] == [pattern[|pattern| - 1]];
        assert path[|path| - 1..] == [path[|path| - 1]];
      }
    }
  }
}
