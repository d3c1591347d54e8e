/**
  The process-rule matcher: `?` stands for one character, `*` for any run of characters.
  The program walks the text once and, on a mismatch, goes back to the last star only.
  This module proves that the walk decides the recursive meaning of the pattern for every
  text without a star, and that texts with a star are exactly the ones it can get wrong.
 */
module Wildcard {

  /** The pattern character accepts the text character. */
  predicate Accepts(p: char, t: char) {
    p == '?' || p == t
  }

  /** The meaning of a pattern: the pattern from `p` on matches the text from `t` on. */
  predicate Matches(pattern: string, text: string, p: nat, t: nat)
    requires p <= |pattern| && t <= |text|
    decreases |pattern| - p + |text| - t
  {
    if p == |pattern| then t == |text|
    else if pattern[p] == '*' then
      Matches(pattern, text, p + 1, t) || (t < |text| && Matches(pattern, text, p, t + 1))
    else
      t < |text| && Accepts(pattern[p], text[t]) && Matches(pattern, text, p + 1, t + 1)
  }

  /**
    The walk from an intermediate position: `p` and `t` are the two cursors, `star` the index of
    the last star taken (-1 for none) and `retry` the text position that star was last tried from.
   */
  predicate Walk(pattern: string, text: string, p: nat, t: nat, star: int, retry: nat)
    requires -1 <= star < p <= |pattern| && retry <= t <= |text|
    decreases |pattern| - star, |text| - retry, |text| - t
  {
    if t < |text| then
      if p < |pattern| && Accepts(pattern[p], text[t]) then Walk(pattern, text, p + 1, t + 1, star, retry)
      else if p < |pattern| && pattern[p] == '*' then Walk(pattern, text, p + 1, t, p, t)
      else if star >= 0 then Walk(pattern, text, star + 1, retry + 1, star, retry + 1)
      else false
    else
      forall k :: p <= k < |pattern| ==> pattern[k] == '*'
  }

  /** The loop of the program. */
  method WildcardMatch(pattern: string, text: string) returns (matched: bool)
    ensures matched == Walk(pattern, text, 0, 0, -1, 0)
    ensures '*' !in text ==> matched == Matches(pattern, text, 0, 0)
    ensures matched ==> Matches(pattern, text, 0, 0)
  {
    WalkSound(pattern, text);
    if '*' !in text { WalkComplete(pattern, text); }
    var p, t, star, retry := 0, 0, -1, 0;
    while t < |text|
      invariant -1 <= star < p <= |pattern| && retry <= t <= |text|
      invariant Walk(pattern, text, 0, 0, -1, 0) == Walk(pattern, text, p, t, star, retry)
      decreases |pattern| - star, |text| - retry, |text| - t
    {
      if p < |pattern| && (pattern[p] == '?' || pattern[p] == text[t]) {
        p, t := p + 1, t + 1;
      } else if p < |pattern| && pattern[p] == '*' {
        star, retry := p, t;
        p := p + 1;
      } else if star >= 0 {
        retry := retry + 1;
        p, t := star + 1, retry;
      } else {
        return false;
      }
    }
    ghost var rest := p;
    while p < |pattern| && pattern[p] == '*'
      invariant rest <= p <= |pattern|
      invariant forall k :: rest <= k < p ==> pattern[k] == '*'
    {
      p := p + 1;
    }
    matched := p == |pattern|;
  }

  // ---- facts about the meaning ----

  lemma {:induction false} StarsMatchNothing(pattern: string, text: string, p: nat)
    requires p <= |pattern|
    ensures Matches(pattern, text, p, |text|) <==> forall k :: p <= k < |pattern| ==> pattern[k] == '*'
    decreases |pattern| - p
  {
    if p < |pattern| { StarsMatchNothing(pattern, text, p + 1); }
  }

  /** A leading star absorbs any part of the text that precedes a match. */
  lemma {:induction false} StarAbsorbs(pattern: string, text: string, p: nat, t: nat, later: nat)
    requires p < |pattern| && pattern[p] == '*' && t <= later <= |text|
    requires Matches(pattern, text, p, later)
    ensures Matches(pattern, text, p, t)
    decreases later - t
  {
    if t < later { StarAbsorbs(pattern, text, p, t + 1, later); }
  }

  /** A star-free stretch of a matching pattern matches character by character. */
  lemma {:induction false} LiteralStretch(pattern: string, text: string, p: nat, t: nat, n: nat)
    requires p + n <= |pattern| && t <= |text| && (forall k :: p <= k < p + n ==> pattern[k] != '*')
    requires Matches(pattern, text, p, t)
    ensures t + n <= |text| && Matches(pattern, text, p + n, t + n)
    decreases n
  {
    if n > 0 { LiteralStretch(pattern, text, p + 1, t + 1, n - 1); }
  }

  /** The pattern from `behind` on, where a star ended, matches some suffix that starts at `from` or later. */
  ghost predicate LaterRetry(pattern: string, text: string, behind: nat, from: nat)
    requires behind <= |pattern|
  {
    exists k :: from <= k <= |text| && Matches(pattern, text, behind, k)
  }

  /** A match of a pattern that begins with a star is a match of the rest at some suffix. */
  lemma {:induction false} StarSplits(pattern: string, text: string, p: nat, t: nat)
    requires p < |pattern| && t <= |text| && pattern[p] == '*'
    requires Matches(pattern, text, p, t)
    ensures Matches(pattern, text, p + 1, t) || LaterRetry(pattern, text, p + 1, t + 1)
    decreases |text| - t
  {
    if !Matches(pattern, text, p + 1, t) {
      StarSplits(pattern, text, p, t + 1);
    }
  }

  // ---- the walk is sound on every text ----

  lemma {:induction false} WalkFindsMatch(pattern: string, text: string, p: nat, t: nat, star: int, retry: nat)
    requires -1 <= star < p <= |pattern| && retry <= t <= |text|
    requires Walk(pattern, text, p, t, star, retry)
    ensures Matches(pattern, text, p, t) || (star >= 0 && LaterRetry(pattern, text, star + 1, retry + 1))
    decreases |pattern| - star, |text| - retry, |text| - t
  {
    if t < |text| {
      if p < |pattern| && Accepts(pattern[p], text[t]) {
        WalkFindsMatch(pattern, text, p + 1, t + 1, star, retry);
        if pattern[p] == '*' && Matches(pattern, text, p + 1, t + 1) {
          assert Matches(pattern, text, p, t + 1);
        }
      } else if p < |pattern| && pattern[p] == '*' {
        WalkFindsMatch(pattern, text, p + 1, t, p, t);
        if !Matches(pattern, text, p + 1, t) {
          var k :| t + 1 <= k <= |text| && Matches(pattern, text, p + 1, k);
          StarAbsorbs(pattern, text, p, t, k);
        }
      } else {
        WalkFindsMatch(pattern, text, star + 1, retry + 1, star, retry + 1);
      }
    } else {
      StarsMatchNothing(pattern, text, p);
    }
  }

  /** Whatever the walk accepts, the pattern means. */
  lemma WalkSound(pattern: string, text: string)
    ensures Walk(pattern, text, 0, 0, -1, 0) ==> Matches(pattern, text, 0, 0)
  {
    if Walk(pattern, text, 0, 0, -1, 0) {
      WalkFindsMatch(pattern, text, 0, 0, -1, 0);
    }
  }

  // ---- the walk is complete on texts without a star ----

  /** Since the last star, the walk matched a star-free stretch against the text from `retry` on. */
  ghost predicate Aligned(pattern: string, p: nat, t: nat, star: int, retry: nat)
    requires -1 <= star < p <= |pattern|
  {
    star >= 0 ==>
      && p - (star + 1) == t - retry
      && forall k :: star < k < p ==> pattern[k] != '*'
  }

  lemma {:induction false} WalkFindsEveryMatch(pattern: string, text: string, p: nat, t: nat, star: int, retry: nat)
    requires '*' !in text
    requires -1 <= star < p <= |pattern| && retry <= t <= |text|
    requires Aligned(pattern, p, t, star, retry)
    requires Matches(pattern, text, p, t) || (star >= 0 && LaterRetry(pattern, text, star + 1, retry + 1))
    ensures Walk(pattern, text, p, t, star, retry)
    decreases |pattern| - star, |text| - retry, |text| - t
  {
    if t < |text| {
      if p < |pattern| && Accepts(pattern[p], text[t]) {
        assert text[t] in text;
        WalkFindsEveryMatch(pattern, text, p + 1, t + 1, star, retry);
      } else if p < |pattern| && pattern[p] == '*' {
        if !Matches(pattern, text, p, t) {
          LastStarSuffices(pattern, text, p, t, star, retry);
        }
        StarSplits(pattern, text, p, t);
        WalkFindsEveryMatch(pattern, text, p + 1, t, p, t);
      } else {
        WalkFindsEveryMatch(pattern, text, star + 1, retry + 1, star, retry + 1);
      }
    } else {
      NoRoomForRetry(pattern, text, p, star, retry);
      StarsMatchNothing(pattern, text, p);
    }
  }

  /** A later retry of the old star would have to put the new star further right, which the new star covers. */
  lemma LastStarSuffices(pattern: string, text: string, p: nat, t: nat, star: int, retry: nat)
    requires 0 <= star < p < |pattern| && retry <= t <= |text| && pattern[p] == '*'
    requires Aligned(pattern, p, t, star, retry)
    requires LaterRetry(pattern, text, star + 1, retry + 1)
    ensures Matches(pattern, text, p, t)
  {
    var k :| retry + 1 <= k <= |text| && Matches(pattern, text, star + 1, k);
    LiteralStretch(pattern, text, star + 1, k, p - (star + 1));
    StarAbsorbs(pattern, text, p, t, k + (p - (star + 1)));
  }

  /** With the text used up, a later retry has fewer characters than its star-free stretch needs. */
  lemma NoRoomForRetry(pattern: string, text: string, p: nat, star: int, retry: nat)
    requires -1 <= star < p <= |pattern| && retry <= |text|
    requires Aligned(pattern, p, |text|, star, retry)
    ensures star >= 0 ==> !LaterRetry(pattern, text, star + 1, retry + 1)
  {
    if star >= 0 {
      var behind := star + 1;
      forall k | retry + 1 <= k <= |text| ensures !Matches(pattern, text, behind, k) {
        if Matches(pattern, text, behind, k) {
          LiteralStretch(pattern, text, behind, k, p - behind);
        }
      }
    }
  }

  lemma WalkComplete(pattern: string, text: string)
    requires '*' !in text
    ensures Walk(pattern, text, 0, 0, -1, 0) == Matches(pattern, text, 0, 0)
  {
    WalkSound(pattern, text);
    if Matches(pattern, text, 0, 0) {
      WalkFindsEveryMatch(pattern, text, 0, 0, -1, 0);
    }
  }

  // ---- texts with a star: the exact boundary of correctness ----

  function FirstStar(text: string): (i: nat)
    requires '*' in text
    ensures i < |text| && text[i] == '*' && forall k :: 0 <= k < i ==> text[k] != '*'
  {
    if text[0] == '*' then 0 else 1 + FirstStar(text[1..])
  }

  /** The pattern that exposes a text whose first star is at `i`: a star and one `?` per remaining character. */
  function Exposing(text: string, i: nat): (pattern: string)
    requires i < |text|
    ensures |pattern| == |text| + 1
    ensures forall k :: 0 <= k < |pattern| ==> pattern[k] == if k < i then text[k] else if k == i then '*' else '?'
  {
    text[..i] + "*" + seq(|text| - i, _ => '?')
  }

  /** Its star stands for nothing: the text before is literal and the rest is matched by the `?`s. */
  lemma {:induction false} ExposingMatches(text: string, i: nat, t: nat)
    requires i < |text| && t <= |text| && (forall k :: 0 <= k < i ==> text[k] != '*')
    ensures Matches(Exposing(text, i), text, if t < i then t else t + 1, t)
    decreases |text| - t
  {
    if t < |text| { ExposingMatches(text, i, t + 1); }
  }

  /** The walk eats the star as a literal and then runs out of text one `?` early. */
  lemma {:induction false} ExposingRejected(text: string, i: nat, t: nat)
    requires i < |text| && text[i] == '*' && (forall k :: 0 <= k < i ==> text[k] != '*')
    requires t <= |text|
    ensures !Walk(Exposing(text, i), text, t, t, -1, 0)
    decreases |text| - t
  {
    if t < |text| {
      ExposingRejected(text, i, t + 1);
    } else {
      assert Exposing(text, i)[t] == '?';
    }
  }

  /** The walk decides every pattern on a text exactly when the text holds no star. */
  lemma CorrectExactlyOnStarFreeTexts(text: string)
    ensures (forall pattern :: Walk(pattern, text, 0, 0, -1, 0) == Matches(pattern, text, 0, 0)) <==> '*' !in text
  {
    if '*' !in text {
      forall pattern ensures Walk(pattern, text, 0, 0, -1, 0) == Matches(pattern, text, 0, 0) {
        WalkComplete(pattern, text);
      }
    } else {
      var i := FirstStar(text);
      var pattern := Exposing(text, i);
      ExposingMatches(text, i, 0);
      assert Matches(pattern, text, 0, 0);
      ExposingRejected(text, i, 0);
      assert Walk(pattern, text, 0, 0, -1, 0) != Matches(pattern, text, 0, 0);
    }
  }

  /** The smallest witness: a lone star does not match `*a`. */
  lemma StarTextCounterexample()
    ensures Matches("*", "*a", 0, 0) && !Walk("*", "*a", 0, 0, -1, 0)
  {
    assert Matches("*", "*a", 1, 2) && Matches("*", "*a", 0, 2) && Matches("*", "*a", 0, 1);
    assert !Walk("*", "*a", 1, 1, -1, 0);
  }
}
