/** The wildcard matcher that decides which files the SPIFFS editor hides
    (SPIFFSEditor.cpp, matchWild): '?' stands for any one character, '*' for any
    run of characters.  The code keeps only the most recent '*' as a place to
    resume from. */
module Wildcard {

  /** What a pattern means, with every '*' free to take any number of characters. */
  ghost predicate Glob(pattern: string, testee: string) {
    if pattern == [] then testee == []
    else if pattern[0] == '*' then
      exists k :: 0 <= k <= |testee| && Glob(pattern[1..], testee[k..])
    else
      && testee != []
      && (pattern[0] == '?' || pattern[0] == testee[0])
      && Glob(pattern[1..], testee[1..])
  }

  /** The matcher as a run over its four pointers: p and t are the reading
      positions, star is the last '*' passed (-1 for a null nxPat) and mark the
      position in the testee from which it was last resumed. */
  predicate Scan(pattern: string, testee: string, p: nat, t: nat, star: int, mark: nat)
    requires p <= |pattern| && t <= |testee| && -1 <= star < p && mark <= t
    decreases |pattern| - star, |testee| - mark, |testee| - t
  {
    if t == |testee| then OnlyStars(pattern, p)
    else if p < |pattern| && (pattern[p] == '?' || pattern[p] == testee[t]) then
      Scan(pattern, testee, p + 1, t + 1, star, mark)
    else if p < |pattern| && pattern[p] == '*' then
      Scan(pattern, testee, p + 1, t, p, t)
    else if star >= 0 then
      Scan(pattern, testee, star + 1, mark + 1, star, mark + 1)
    else false
  }

  predicate OnlyStars(pattern: string, p: nat)
    requires p <= |pattern|
  {
    forall i :: p <= i < |pattern| ==> pattern[i] == '*'
  }

  predicate MatchWild(pattern: string, testee: string) {
    Scan(pattern, testee, 0, 0, -1, 0)
  }

  /** matchWild itself.  Reading the terminating NUL of the pattern is the test
      p < |pattern|. */
  method Match(pattern: string, testee: string) returns (matched: bool)
    ensures matched == MatchWild(pattern, testee)
    ensures matched ==> Glob(pattern, testee)
    ensures '*' !in testee ==> (matched <==> Glob(pattern, testee))
  {
    var p, t, star, mark := 0, 0, -1, 0;
    SoundOnEveryTestee(pattern, testee);
    if '*' !in testee {
      CompleteWithoutStar(pattern, testee);
    }
    while t < |testee|
      invariant 0 <= p <= |pattern| && 0 <= t <= |testee| && -1 <= star < p && 0 <= mark <= t
      invariant Scan(pattern, testee, p, t, star, mark) == MatchWild(pattern, testee)
      decreases |pattern| - star, |testee| - mark, |testee| - t
    {
      if p < |pattern| && (pattern[p] == '?' || pattern[p] == testee[t]) {
        p, t := p + 1, t + 1;
        continue;
      }
      if p < |pattern| && pattern[p] == '*' {
        star := p;
        p := p + 1;
        mark := t;
        continue;
      }
      if star >= 0 {
        mark := mark + 1;
        p, t := star + 1, mark;
        continue;
      }
      return false;
    }
    ghost var q := p;
    while p < |pattern| && pattern[p] == '*'
      invariant q <= p <= |pattern|
      invariant OnlyStars(pattern, q) <==> OnlyStars(pattern, p)
    {
      p := p + 1;
    }
    return p == |pattern|;
  }

  // ---------------------------------------------------------------- the two readings of a state

  /** A later resumption of the last '*' would succeed. */
  ghost predicate Resumable(pattern: string, testee: string, star: int, mark: nat)
    requires -1 <= star < |pattern|
  {
    star >= 0 && exists k :: mark < k <= |testee| && Glob(pattern[star + 1..], testee[k..])
  }

  lemma GlobStar(pattern: string, testee: string, p: nat, t: nat)
    requires p < |pattern| && pattern[p] == '*' && t <= |testee|
    ensures Glob(pattern[p..], testee[t..])
       <==> exists k :: t <= k <= |testee| && Glob(pattern[p + 1..], testee[k..])
  {
    assert pattern[p..][1..] == pattern[p + 1..];
    if Glob(pattern[p..], testee[t..]) {
      var k :| 0 <= k <= |testee[t..]| && Glob(pattern[p..][1..], testee[t..][k..]);
      assert testee[t..][k..] == testee[t + k..];
    }
    if k :| t <= k <= |testee| && Glob(pattern[p + 1..], testee[k..]) {
      assert testee[t..][k - t..] == testee[k..];
    }
  }

  lemma GlobOne(pattern: string, testee: string, p: nat, t: nat)
    requires p < |pattern| && t < |testee| && pattern[p] != '*'
    ensures Glob(pattern[p..], testee[t..])
       <==> (pattern[p] == '?' || pattern[p] == testee[t]) && Glob(pattern[p + 1..], testee[t + 1..])
  {
  }

  lemma {:induction false} GlobOfNothing(pattern: string, p: nat)
    requires p <= |pattern|
    ensures Glob(pattern[p..], []) <==> OnlyStars(pattern, p)
    decreases |pattern| - p
  {
    if p < |pattern| {
      GlobOfNothing(pattern, p + 1);
      assert pattern[p..][1..] == pattern[p + 1..];
      var none: string := [];
      assert none[0..] == none;
    }
  }

  /** A segment without '*' takes exactly as many characters as it has. */
  lemma {:induction false} SegmentIsRigid(pattern: string, testee: string, p: nat, stop: nat, t: nat)
    requires p <= stop <= |pattern| && t <= |testee|
    requires forall i :: p <= i < stop ==> pattern[i] != '*'
    requires Glob(pattern[p..], testee[t..])
    ensures t + (stop - p) <= |testee|
    ensures Glob(pattern[stop..], testee[t + (stop - p)..])
    decreases stop - p
  {
    if p < stop {
      assert pattern[p..][1..] == pattern[p + 1..];
      assert testee[t..][1..] == testee[t + 1..];
      SegmentIsRigid(pattern, testee, p + 1, stop, t + 1);
    }
  }

  // ---------------------------------------------------------------- soundness

  /** Whatever the run accepts, the pattern means. */
  lemma {:induction false} ScanIsSound(pattern: string, testee: string, p: nat, t: nat, star: int, mark: nat)
    requires p <= |pattern| && t <= |testee| && -1 <= star < p && mark <= t
    requires Scan(pattern, testee, p, t, star, mark)
    ensures Glob(pattern[p..], testee[t..]) || Resumable(pattern, testee, star, mark)
    decreases |pattern| - star, |testee| - mark, |testee| - t
  {
    if t == |testee| {
      GlobOfNothing(pattern, p);
      assert testee[t..] == [];
    } else if p < |pattern| && (pattern[p] == '?' || pattern[p] == testee[t]) {
      ScanIsSound(pattern, testee, p + 1, t + 1, star, mark);
      if Glob(pattern[p + 1..], testee[t + 1..]) {
        if pattern[p] == '*' {
          GlobStar(pattern, testee, p, t);
        } else {
          GlobOne(pattern, testee, p, t);
        }
      }
    } else if p < |pattern| && pattern[p] == '*' {
      ScanIsSound(pattern, testee, p + 1, t, p, t);
      GlobStar(pattern, testee, p, t);
    } else if star >= 0 {
      ScanIsSound(pattern, testee, star + 1, mark + 1, star, mark + 1);
    }
  }

  lemma SoundOnEveryTestee(pattern: string, testee: string)
    ensures MatchWild(pattern, testee) ==> Glob(pattern, testee)
  {
    if MatchWild(pattern, testee) {
      ScanIsSound(pattern, testee, 0, 0, -1, 0);
      assert pattern[0..] == pattern && testee[0..] == testee;
    }
  }

  // ---------------------------------------------------------------- completeness

  /** If the pattern can still match, the run accepts.  Forgetting every '*' but the
      last loses nothing, because the text between two stars is rigid. */
  lemma {:induction false} ScanIsComplete(pattern: string, testee: string, p: nat, t: nat, star: int, mark: nat)
    requires p <= |pattern| && t <= |testee| && -1 <= star < p && mark <= t
    requires '*' !in testee
    requires star >= 0 ==> t - mark == p - (star + 1)
    requires forall i :: star < i < p && star >= 0 ==> pattern[i] != '*'
    requires Glob(pattern[p..], testee[t..]) || Resumable(pattern, testee, star, mark)
    ensures Scan(pattern, testee, p, t, star, mark)
    decreases |pattern| - star, |testee| - mark, |testee| - t
  {
    if Resumable(pattern, testee, star, mark) {
      var k :| mark < k <= |testee| && Glob(pattern[star + 1..], testee[k..]);
      SegmentIsRigid(pattern, testee, star + 1, p, k);
      var later := k + (p - (star + 1));
      assert later > t && Glob(pattern[p..], testee[later..]);
      if p < |pattern| && pattern[p] == '*' {
        GlobStar(pattern, testee, p, later);
        GlobStar(pattern, testee, p, t);
      }
    }
    if t == |testee| {
      GlobOfNothing(pattern, p);
      assert testee[t..] == [];
    } else if p < |pattern| && (pattern[p] == '?' || pattern[p] == testee[t]) {
      GlobOne(pattern, testee, p, t);
      ScanIsComplete(pattern, testee, p + 1, t + 1, star, mark);
    } else if p < |pattern| && pattern[p] == '*' {
      GlobStar(pattern, testee, p, t);
      var k :| t <= k <= |testee| && Glob(pattern[p + 1..], testee[k..]);
      ScanIsComplete(pattern, testee, p + 1, t, p, t);
    } else {
      if p < |pattern| {
        GlobOne(pattern, testee, p, t);
      }
      assert Resumable(pattern, testee, star, mark);
      var k :| mark < k <= |testee| && Glob(pattern[star + 1..], testee[k..]);
      ScanIsComplete(pattern, testee, star + 1, mark + 1, star, mark + 1);
    }
  }

  lemma CompleteWithoutStar(pattern: string, testee: string)
    requires '*' !in testee
    ensures Glob(pattern, testee) ==> MatchWild(pattern, testee)
  {
    if Glob(pattern, testee) {
      assert pattern[0..] == pattern && testee[0..] == testee;
      ScanIsComplete(pattern, testee, 0, 0, -1, 0);
    }
  }

  // ---------------------------------------------------------------- names that contain a star

  function Questions(n: nat): (s: string)
    ensures |s| == n && forall i :: 0 <= i < n ==> s[i] == '?'
  {
    seq(n, _ => '?')
  }

  lemma {:induction false} GlobQuestions(testee: string)
    ensures Glob(Questions(|testee|), testee)
  {
    if testee != [] {
      GlobQuestions(testee[1..]);
      assert Questions(|testee|)[1..] == Questions(|testee[1..]|);
    }
  }

  /** Equal text in front of a pattern and a name changes nothing. */
  lemma {:induction false} GlobSamePrefix(prefix: string, pattern: string, testee: string)
    requires '*' !in prefix
    requires Glob(pattern, testee)
    ensures Glob(prefix + pattern, prefix + testee)
  {
    if prefix == [] {
      assert prefix + pattern == pattern && prefix + testee == testee;
    } else {
      GlobSamePrefix(prefix[1..], pattern, testee);
      assert (prefix + pattern)[1..] == prefix[1..] + pattern;
      assert (prefix + testee)[1..] == prefix[1..] + testee;
    }
  }

  /** With no '*' passed yet, a pattern longer than the name that agrees with it
      position by position runs off the end of the name and is refused. */
  lemma {:induction false} ScanRefusesLongerPattern(pattern: string, testee: string, t: nat)
    requires t <= |testee| < |pattern|
    requires forall i :: 0 <= i < |testee| ==> pattern[i] == '?' || pattern[i] == testee[i]
    requires pattern[|testee|] == '?'
    ensures !Scan(pattern, testee, t, t, -1, 0)
    decreases |testee| - t
  {
    if t < |testee| {
      ScanRefusesLongerPattern(pattern, testee, t + 1);
    }
  }

  /** A pattern that the code refuses although it means the given name: the name up
      to its first '*', a '*', and one '?' for every remaining character of the name
      (that first '*' included). */
  lemma StarInNameIsMissed(testee: string, first: nat) returns (pattern: string)
    requires first < |testee| && testee[first] == '*' && '*' !in testee[..first]
    ensures Glob(pattern, testee) && !MatchWild(pattern, testee)
  {
    hide Glob;
    var prefix, rest := testee[..first], testee[first..];
    pattern := prefix + (['*'] + Questions(|rest|));
    GlobQuestions(rest);
    assert (['*'] + Questions(|rest|))[1..] == Questions(|rest|) && rest[0..] == rest;
    GlobSamePrefix(prefix, ['*'] + Questions(|rest|), rest);
    assert testee == prefix + rest;
    ScanRefusesLongerPattern(pattern, testee, 0);
  }

  lemma FirstStar(testee: string) returns (first: nat)
    requires '*' in testee
    ensures first < |testee| && testee[first] == '*' && '*' !in testee[..first]
  {
    first := 0;
    while testee[first] != '*'
      invariant 0 <= first < |testee| && '*' !in testee[..first]
      decreases |testee| - first
    {
      assert '*' !in testee[..first + 1];
      first := first + 1;
    }
  }

  /** Exactly the names without '*' are matched as every pattern means. */
  lemma FaithfulExactlyOnStarFreeNames(testee: string)
    ensures (forall pattern :: MatchWild(pattern, testee) <==> Glob(pattern, testee))
       <==> '*' !in testee
  {
    if '*' in testee {
      var first := FirstStar(testee);
      var pattern := StarInNameIsMissed(testee, first);
      assert MatchWild(pattern, testee) != Glob(pattern, testee);
    } else {
      forall pattern
        ensures MatchWild(pattern, testee) <==> Glob(pattern, testee)
      {
        SoundOnEveryTestee(pattern, testee);
        CompleteWithoutStar(pattern, testee);
      }
    }
  }
}
