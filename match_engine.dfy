/**
 * The pure part of `handleMatchCheck`: which falling letters a pending
 * transcript matches, and which of them is resolved as the hit.
 */
module MatchEngine {
  import opened Common
  import opened Transcript
  import opened Registry

  /** `letter.letter.toLowerCase().normalize("NFC") === recognizedText`, for a
      letter whose text is defined (`normalize("NFC")` is the identity here). */
  function Matches(l: Letter, text: string): (b: bool)
    ensures b <==> && l.letter.Some? && |l.letter.value| == |text|
                   && forall i :: 0 <= i < |text| ==> LowerChar(l.letter.value[i]) == text[i]
  {
    l.letter.Some? && ToLowerCase(l.letter.value) == text
  }

  /** Some letter on screen has an undefined text, on which `toLowerCase` throws. */
  predicate HasUndefined(letters: seq<Letter>) {
    exists i :: 0 <= i < |letters| && letters[i].letter.None?
  }

  /** `letters.filter(...)`: the matching letters, in registry order. */
  function Matching(letters: seq<Letter>, text: string): (ms: seq<Letter>)
    ensures |ms| <= |letters|
    ensures forall i :: 0 <= i < |ms| ==> Matches(ms[i], text)
  {
    if letters == [] then []
    else if Matches(letters[0], text) then [letters[0]] + Matching(letters[1..], text)
    else Matching(letters[1..], text)
  }

  /** The filter keeps exactly the matching letters of the registry. */
  lemma {:induction false} MatchingMembers(letters: seq<Letter>, text: string, l: Letter)
    ensures l in Matching(letters, text) <==> l in letters && Matches(l, text)
  {
    if letters != [] {
      MatchingMembers(letters[1..], text, l);
      assert letters == [letters[0]] + letters[1..];
    }
  }

  /** Nothing is kept exactly when no letter on screen matches. */
  lemma {:induction false} MatchingEmptyIff(letters: seq<Letter>, text: string)
    ensures Matching(letters, text) == [] <==> forall i :: 0 <= i < |letters| ==> !Matches(letters[i], text)
  {
    if letters != [] {
      MatchingEmptyIff(letters[1..], text);
      if !Matches(letters[0], text) {
        forall i | 0 <= i < |letters| ensures !Matches(letters[i], text) <== Matching(letters, text) == [] {
          if i > 0 { assert letters[i] == letters[1..][i - 1]; }
        }
      }
    }
  }

  /** One step of `reduce`: keep the accumulator unless the current letter has
      a strictly smaller id. */
  function ReduceOldest(acc: Letter, rest: seq<Letter>): (r: Letter)
    ensures r == acc || r in rest
    ensures r.id <= acc.id
    ensures forall i :: 0 <= i < |rest| ==> r.id <= rest[i].id
    decreases rest
  {
    if rest == [] then acc
    else ReduceOldest(if rest[0].id < acc.id then rest[0] else acc, rest[1..])
  }

  /** `matchingLetters.reduce(...)` without an initial value: the letter with
      the smallest id, the oldest one on screen. */
  function OldestOf(ms: seq<Letter>): (oldest: Letter)
    requires |ms| > 0
    ensures oldest in ms
    ensures forall i :: 0 <= i < |ms| ==> oldest.id <= ms[i].id
  {
    ReduceOldest(ms[0], ms[1..])
  }

  lemma {:induction false} ReduceKeepsMinimum(acc: Letter, rest: seq<Letter>)
    requires forall i :: 0 <= i < |rest| ==> acc.id <= rest[i].id
    ensures ReduceOldest(acc, rest) == acc
  {
    if rest != [] {
      ReduceKeepsMinimum(acc, rest[1..]);
    }
  }

  lemma {:induction false} ReduceReachesFirstMinimum(acc: Letter, rest: seq<Letter>, k: nat)
    requires k < |rest|
    requires rest[k].id < acc.id
    requires forall i :: 0 <= i < |rest| ==> rest[k].id <= rest[i].id
    requires forall i :: 0 <= i < k ==> rest[k].id < rest[i].id
    ensures ReduceOldest(acc, rest) == rest[k]
    decreases k
  {
    if k == 0 {
      ReduceKeepsMinimum(rest[0], rest[1..]);
    } else {
      var acc' := if rest[0].id < acc.id then rest[0] else acc;
      ReduceReachesFirstMinimum(acc', rest[1..], k - 1);
    }
  }

  /** Tie-break: among letters sharing the smallest id, `reduce` keeps the
      first in registry order (it replaces the accumulator only on a strictly
      smaller id). */
  lemma OldestIsFirstMinimum(ms: seq<Letter>, k: nat)
    requires k < |ms|
    requires forall i :: 0 <= i < |ms| ==> ms[k].id <= ms[i].id
    requires forall i :: 0 <= i < k ==> ms[k].id < ms[i].id
    ensures OldestOf(ms) == ms[k]
  {
    if k == 0 {
      ReduceKeepsMinimum(ms[0], ms[1..]);
    } else {
      ReduceReachesFirstMinimum(ms[0], ms[1..], k - 1);
    }
  }

  /** When the first `k` letters do not match and the letter at `k` does, the
      matches start with that letter. */
  lemma {:induction false} MatchingStartsAt(letters: seq<Letter>, text: string, k: nat)
    requires k < |letters| && Matches(letters[k], text)
    requires forall i :: 0 <= i < k ==> !Matches(letters[i], text)
    ensures Matching(letters, text) == [letters[k]] + Matching(letters[k + 1..], text)
  {
    if k > 0 {
      MatchingStartsAt(letters[1..], text, k - 1);
      assert letters[1..][k..] == letters[k + 1..];
    }
  }

  lemma {:induction false} MatchingAboveBound(letters: seq<Letter>, text: string, lo: int)
    requires forall i :: 0 <= i < |letters| ==> lo < letters[i].id
    ensures forall i :: 0 <= i < |Matching(letters, text)| ==> lo < Matching(letters, text)[i].id
  {
    if letters != [] {
      MatchingAboveBound(letters[1..], text, lo);
    }
  }

  /** With ids in spawn order, the hit is the first matching letter on
      screen, and resolving it removes exactly that letter: every other
      letter stays, in order. */
  lemma OldestMatchIsFirstMatch(letters: seq<Letter>, text: string, k: nat)
    requires IdsIncreasing(letters)
    requires k < |letters| && Matches(letters[k], text)
    requires forall i :: 0 <= i < k ==> !Matches(letters[i], text)
    ensures |Matching(letters, text)| > 0
    ensures OldestOf(Matching(letters, text)) == letters[k]
    ensures RemoveById(letters, letters[k].id) == letters[..k] + letters[k + 1..]
  {
    var later := letters[k + 1..];
    MatchingStartsAt(letters, text, k);
    forall i | 0 <= i < |later| ensures letters[k].id < later[i].id {
      assert later[i] == letters[k + 1 + i];
    }
    MatchingAboveBound(later, text, letters[k].id);
    var ms := Matching(letters, text);
    forall i | 0 <= i < |ms| ensures letters[k].id <= ms[i].id {
      if i > 0 {
        assert ms[i] == Matching(later, text)[i - 1];
      }
    }
    OldestIsFirstMinimum(ms, 0);
    RemoveUniqueAt(letters, k);
  }

  /** A word whose text contains whitespace can never be hit: the letter
      side is only lowered, while every transcript has its whitespace removed. */
  lemma SpacedWordNeverMatches(l: Letter, transcript: string, i: nat)
    requires l.letter.Some? && i < |l.letter.value| && IsWhitespace(l.letter.value[i])
    ensures !Matches(l, Normalize(transcript))
  {
    var lowered := ToLowerCase(l.letter.value);
    assert lowered[i] == l.letter.value[i];
  }
}
