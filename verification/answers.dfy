/** `getAnswerForRiddle` (reverse lookup from riddle text to answer) and
    `isCorrectAnswer` (case-insensitive comparison with that answer). */
module Answers {
  import opened Results
  import opened Catalog
  import opened CaseFold

  /** Key `k` is an answer whose riddle text is `riddle`. */
  predicate HasText(m: map<string, string>, k: string, riddle: string)
  {
    k in m && m[k] == riddle
  }

  /** The riddle map is one-to-one: no two answers share a riddle text. */
  ghost predicate Injective(m: map<string, string>)
  {
    forall k1, k2 :: k1 in m && k2 in m && m[k1] == m[k2] ==> k1 == k2
  }

  /** The stream's `filter(...).findFirst()`: the first position in iteration order
      whose key has the given riddle text. */
  function FindFirst(m: map<string, string>, order: seq<string>, riddle: string): (r: Option<nat>)
    ensures r.Some? ==> r.value < |order| && HasText(m, order[r.value], riddle)
    ensures r.Some? ==> forall j :: 0 <= j < r.value ==> !HasText(m, order[j], riddle)
    ensures r.None? ==> forall j :: 0 <= j < |order| ==> !HasText(m, order[j], riddle)
  {
    if order == [] then None
    else if HasText(m, order[0], riddle) then Some(0)
    else
      match FindFirst(m, order[1..], riddle)
      case None => None
      case Some(i) => Some(i + 1)
  }

  /** `getAnswerForRiddle`: some answer whose riddle text is `riddle`, or `""` when
      there is none. */
  function AnswerFor(cat: RiddleCatalog, riddle: string): (a: string)
    ensures Valid(cat) && (exists k :: HasText(cat.riddles, k, riddle)) ==> HasText(cat.riddles, a, riddle)
    ensures (forall k :: !HasText(cat.riddles, k, riddle)) ==> a == ""
  {
    match FindFirst(cat.riddles, cat.order, riddle)
    case Some(i) => cat.order[i]
    case None => ""
  }

  /** When riddle texts are unique, the lookup recovers the one answer of a riddle. */
  lemma AnswerForUnique(cat: RiddleCatalog, k: string)
    requires Valid(cat) && Injective(cat.riddles)
    requires k in cat.riddles
    ensures AnswerFor(cat, cat.riddles[k]) == k
  {
    assert HasText(cat.riddles, k, cat.riddles[k]);
  }

  /** `isCorrectAnswer`: the guess equals the looked-up answer, ignoring case. */
  predicate IsCorrectAnswer(cat: RiddleCatalog, riddle: string, guess: string)
  {
    EqualsIgnoreCase(guess, AnswerFor(cat, riddle))
  }

  /** `isCorrectAnswer` compares the guess with the looked-up answer letter by
      letter, up to case. */
  lemma IsCorrectAnswerIff(cat: RiddleCatalog, riddle: string, guess: string)
    ensures IsCorrectAnswer(cat, riddle, guess) <==> ToLower(guess) == ToLower(AnswerFor(cat, riddle))
  {
    EqualsIgnoreCaseIff(guess, AnswerFor(cat, riddle));
  }

  /** The verdict does not depend on the case of the guess. */
  lemma CorrectIgnoresCase(cat: RiddleCatalog, riddle: string, guess: string)
    ensures IsCorrectAnswer(cat, riddle, ToUpper(guess)) <==> IsCorrectAnswer(cat, riddle, guess)
    ensures IsCorrectAnswer(cat, riddle, ToLower(guess)) <==> IsCorrectAnswer(cat, riddle, guess)
  {
    EqualsIgnoreCaseOfCaseChange(guess, AnswerFor(cat, riddle));
  }

  /** For a text that is no riddle of the catalog only the empty guess is accepted. */
  lemma UnknownRiddleAcceptsOnlyEmpty(cat: RiddleCatalog, riddle: string, guess: string)
    requires forall k :: !HasText(cat.riddles, k, riddle)
    ensures IsCorrectAnswer(cat, riddle, guess) <==> guess == ""
  {
  }

  /** With unique riddle texts, a guess for answer `k`'s riddle is accepted exactly
      when it is `k` up to the case of its letters. */
  lemma CorrectIffAnswer(cat: RiddleCatalog, k: string, guess: string)
    requires Valid(cat) && Injective(cat.riddles)
    requires k in cat.riddles
    ensures IsCorrectAnswer(cat, cat.riddles[k], guess) <==> ToLower(guess) == ToLower(k)
  {
    AnswerForUnique(cat, k);
    EqualsIgnoreCaseIff(guess, k);
  }

  /** When two answers share a riddle text, the lookup yields the one met first in
      iteration order, and the other answer is then rejected (unless it differs
      from the first only in case). */
  lemma SharedTextPicksFirst(cat: RiddleCatalog, i: nat, j: nat)
    requires Valid(cat)
    requires i < j < |cat.order|
    requires cat.riddles[cat.order[i]] == cat.riddles[cat.order[j]]
    requires forall l :: 0 <= l < i ==> !HasText(cat.riddles, cat.order[l], cat.riddles[cat.order[i]])
    ensures AnswerFor(cat, cat.riddles[cat.order[j]]) == cat.order[i]
    ensures ToLower(cat.order[j]) != ToLower(cat.order[i]) ==>
      !IsCorrectAnswer(cat, cat.riddles[cat.order[j]], cat.order[j])
  {
    var riddle := cat.riddles[cat.order[i]];
    var r := FindFirst(cat.riddles, cat.order, riddle);
    assert HasText(cat.riddles, cat.order[i], riddle);
    assert r.Some? && r.value == i;
    EqualsIgnoreCaseIff(cat.order[j], cat.order[i]);
  }
}
