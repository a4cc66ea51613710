/** One riddle's guessing session: `solveRiddle`, `offerHint` and `displayHint`,
    with the console input given as the sequence of lines the player types. */
module RiddleSession {
  import opened Results
  import opened Catalog
  import opened Answers
  import opened CaseFold

  /** The tenth wrong guess loses the riddle. */
  const MaxAttempts: nat := 10
  /** Hints are offered once this many wrong guesses were made. */
  const HintThreshold: nat := 3
  /** At most this many hints are handed out per riddle. */
  const MaxHints: nat := 3

  /** `solveRiddle`'s local state, plus the hints displayed so far (the console
      output the player has seen). */
  datatype Session = Session(attempts: nat, hintsUsed: nat, revealed: seq<string>)

  function Fresh(): Session
  {
    Session(0, 0, [])
  }

  /** The hint list of the riddle's looked-up answer; no list reads as empty. */
  function HintsFor(cat: RiddleCatalog, riddle: string): seq<string>
  {
    var answer := AnswerFor(cat, riddle);
    if answer in cat.hints then cat.hints[answer] else []
  }

  /** `displayHint`: the hint at `index`, shown only when the answer has a hint
      list that long. */
  function DisplayHint(cat: RiddleCatalog, riddle: string, index: nat): (h: Option<string>)
    ensures h.Some? <==> AnswerFor(cat, riddle) in cat.hints && index < |cat.hints[AnswerFor(cat, riddle)]|
    ensures h.Some? ==> h.value == cat.hints[AnswerFor(cat, riddle)][index]
  {
    var hints := HintsFor(cat, riddle);
    if index < |hints| then Some(hints[index]) else None
  }

  /** The first `n` hints of `hl`, or all of them when there are fewer. */
  function Revealed(hl: seq<string>, n: nat): seq<string>
  {
    if n <= |hl| then hl[..n] else hl
  }

  /** The session invariant: at most three hints used, and the hints shown are
      exactly the first `hintsUsed` of the list, in order, each once. */
  predicate Consistent(cat: RiddleCatalog, riddle: string, s: Session)
  {
    s.hintsUsed <= MaxHints && s.revealed == Revealed(HintsFor(cat, riddle), s.hintsUsed)
  }

  /** The answer to the hint prompt that asks for a hint. */
  predicate IsYes(reply: string)
  {
    EqualsIgnoreCase(reply, "y")
  }

  /** What is left after a hint offer. */
  datatype Offer = Offer(after: Session, rest: seq<string>)

  /** `offerHint`: with hints left, read one reply; `y` shows the hint at the
      current count and bumps the count, `n` or anything else changes nothing.
      Without hints left nothing is read. `attempts` is passed but never used. */
  function OfferHint(cat: RiddleCatalog, riddle: string, attempts: nat, s: Session, input: seq<string>): (r: Result<Offer>)
    ensures s.hintsUsed >= MaxHints ==> r == Success(Offer(s, input))
    ensures s.hintsUsed < MaxHints && input == [] ==> r == Failure(NoSuchElement)
    ensures s.hintsUsed < MaxHints && input != [] ==> r.Success? && r.value.rest == input[1..]
    ensures r.Success? ==> r.value.after.attempts == s.attempts
    ensures r.Success? && r.value.after != s ==>
      s.hintsUsed < MaxHints && (input[0] == "y" || input[0] == "Y") && r.value.after.hintsUsed == s.hintsUsed + 1
    ensures s.hintsUsed < MaxHints && input != [] && (input[0] == "y" || input[0] == "Y") ==>
      && r.value.after.hintsUsed == s.hintsUsed + 1
      && r.value.after.revealed == s.revealed +
           (if s.hintsUsed < |HintsFor(cat, riddle)| then [HintsFor(cat, riddle)[s.hintsUsed]] else [])
    ensures Consistent(cat, riddle, s) && r.Success? ==> Consistent(cat, riddle, r.value.after)
  {
    if s.hintsUsed < MaxHints then
      if input == [] then Failure(NoSuchElement)
      else
        var reply := input[0];
        IgnoreCaseSingleLetter(reply);
        if IsYes(reply) then
          var shown := match DisplayHint(cat, riddle, s.hintsUsed) case Some(h) => [h] case None => [];
          Success(Offer(Session(s.attempts, s.hintsUsed + 1, s.revealed + shown), input[1..]))
        else
          Success(Offer(s, input[1..]))
    else
      Success(Offer(s, input))
  }

  /** The `attempts` argument has no influence on a hint offer. */
  lemma OfferHintIgnoresAttempts(cat: RiddleCatalog, riddle: string, a1: nat, a2: nat, s: Session, input: seq<string>)
    ensures OfferHint(cat, riddle, a1, s, input) == OfferHint(cat, riddle, a2, s, input)
  {
  }

  /** Where one pass of the guessing loop leaves the session. */
  datatype Turn =
    | Continue(session: Session, rest: seq<string>)
    | Finished(solved: bool, session: Session, rest: seq<string>)

  /** One pass of `solveRiddle`'s loop: read a guess; a match ends the session
      solved; otherwise count the attempt, lose on the tenth, and from the third
      wrong guess on offer a hint. */
  function Step(cat: RiddleCatalog, riddle: string, s: Session, input: seq<string>): (r: Result<Turn>)
    ensures r.Failure? ==> r.error == NoSuchElement
    ensures r.Failure? <==>
      || input == []
      || (|input| == 1 && !IsCorrectAnswer(cat, riddle, input[0]) &&
          HintThreshold <= s.attempts + 1 != MaxAttempts && s.hintsUsed < MaxHints)
    ensures r.Success? ==> |r.value.rest| < |input| && r.value.rest == input[|input| - |r.value.rest|..]
    ensures r.Success? && r.value.Continue? ==>
      if HintThreshold <= s.attempts + 1 && s.hintsUsed < MaxHints then |input| >= 2 && r.value.rest == input[2..]
      else r.value.rest == input[1..]
    ensures input != [] && IsCorrectAnswer(cat, riddle, input[0]) ==> r == Success(Finished(true, s, input[1..]))
    ensures input != [] && !IsCorrectAnswer(cat, riddle, input[0]) && s.attempts + 1 == MaxAttempts ==>
      r == Success(Finished(false, s.(attempts := MaxAttempts), input[1..]))
    ensures r.Success? && r.value.Finished? && !r.value.solved ==> r.value.session.attempts == MaxAttempts
    ensures r.Success? && r.value.Finished? ==> r.value.rest == input[1..]
    ensures r.Success? && r.value.Finished? && r.value.solved ==>
      IsCorrectAnswer(cat, riddle, input[0]) && r.value.session == s && r.value.rest == input[1..]
    ensures input != [] && !IsCorrectAnswer(cat, riddle, input[0]) && s.attempts + 1 != MaxAttempts ==>
      r.Failure? || r.value.Continue?
    ensures r.Success? && r.value.Continue? ==>
      !IsCorrectAnswer(cat, riddle, input[0]) && r.value.session.attempts == s.attempts + 1 != MaxAttempts
    ensures r.Success? && r.value.Continue? ==>
      (|r.value.rest| == |input| - 2 <==> HintThreshold <= s.attempts + 1 && s.hintsUsed < MaxHints)
    ensures r.Success? && r.value.Continue? ==>
      r.value.session.hintsUsed ==
        if |r.value.rest| == |input| - 2 && (input[1] == "y" || input[1] == "Y") then s.hintsUsed + 1 else s.hintsUsed
    ensures r.Success? ==> s.hintsUsed <= r.value.session.hintsUsed
    ensures r.Success? && Consistent(cat, riddle, s) ==> Consistent(cat, riddle, r.value.session)
  {
    if input == [] then Failure(NoSuchElement)
    else
      var guess := input[0];
      if IsCorrectAnswer(cat, riddle, guess) then Success(Finished(true, s, input[1..]))
      else
        var wrong := s.(attempts := s.attempts + 1);
        if wrong.attempts == MaxAttempts then Success(Finished(false, wrong, input[1..]))
        else if wrong.attempts >= HintThreshold then
          match OfferHint(cat, riddle, wrong.attempts, wrong, input[1..])
          case Failure(e) => Failure(e)
          case Success(o) => Success(Continue(o.after, o.rest))
        else Success(Continue(wrong, input[1..]))
  }

  /** The last line read when `rest` is what is left of `input`: the guess that
      ended the session. */
  function LastRead(input: seq<string>, rest: seq<string>): string
    requires |rest| < |input|
  {
    input[|input| - |rest| - 1]
  }

  /** `solveRiddle`'s loop from session state `s`: runs until a guess matches, the
      tenth wrong guess is made, or the input runs out. */
  function Solve(cat: RiddleCatalog, riddle: string, s: Session, input: seq<string>): (r: Result<Turn>)
    ensures r.Failure? ==> r.error == NoSuchElement
    ensures r.Success? ==> r.value.Finished?
    ensures r.Success? ==> |r.value.rest| < |input| && r.value.rest == input[|input| - |r.value.rest|..]
    ensures r.Success? && s.attempts < MaxAttempts ==> (r.value.solved <==> r.value.session.attempts < MaxAttempts)
    ensures r.Success? && !r.value.solved ==> r.value.session.attempts == MaxAttempts
    ensures r.Success? ==> s.attempts <= r.value.session.attempts && s.hintsUsed <= r.value.session.hintsUsed
    ensures r.Success? && Consistent(cat, riddle, s) ==> Consistent(cat, riddle, r.value.session)
    decreases |input|
  {
    match Step(cat, riddle, s, input)
    case Failure(e) => Failure(e)
    case Success(t) =>
      if t.Finished? then Success(t) else Solve(cat, riddle, t.session, t.rest)
  }

  /** The session ends solved exactly when the last line it read, the guess that
      ended it, matches the answer: a lost session ended on a wrong guess. */
  lemma {:induction false} SolveEndsOnLastGuess(cat: RiddleCatalog, riddle: string, s: Session, input: seq<string>)
    ensures var r := Solve(cat, riddle, s, input);
      r.Success? ==> (r.value.solved <==> IsCorrectAnswer(cat, riddle, LastRead(input, r.value.rest)))
    decreases |input|
  {
    var st := Step(cat, riddle, s, input);
    if st.Success? && st.value.Continue? {
      var t := st.value;
      SolveEndsOnLastGuess(cat, riddle, t.session, t.rest);
      var r := Solve(cat, riddle, t.session, t.rest);
      if r.Success? {
        LastReadOfSuffix(input, t.rest, r.value.rest);
      }
    }
  }

  /** Reading on from a suffix of the input does not change which line was last. */
  lemma LastReadOfSuffix(input: seq<string>, mid: seq<string>, rest: seq<string>)
    requires |mid| <= |input| && mid == input[|input| - |mid|..]
    requires |rest| < |mid|
    ensures LastRead(input, rest) == LastRead(mid, rest)
  {
  }

  /** A step reads only the lines it needs: more input after them changes nothing
      but what is left unread. */
  lemma StepExtends(cat: RiddleCatalog, riddle: string, s: Session, input: seq<string>, more: seq<string>)
    requires Step(cat, riddle, s, input).Success?
    ensures var t := Step(cat, riddle, s, input).value;
      Step(cat, riddle, s, input + more) == Success(t.(rest := t.rest + more))
  {
    assert (input + more)[0] == input[0];
    assert (input + more)[1..] == input[1..] + more;
    if |input| >= 2 {
      assert (input[1..] + more)[0] == input[1..][0];
      assert (input[1..] + more)[1..] == input[2..] + more;
    }
  }

  /** The loop reads only the lines it needs: more input after them changes
      nothing but what is left unread. */
  lemma {:induction false} SolveExtends(cat: RiddleCatalog, riddle: string, s: Session, input: seq<string>, more: seq<string>)
    requires Solve(cat, riddle, s, input).Success?
    ensures var t := Solve(cat, riddle, s, input).value;
      Solve(cat, riddle, s, input + more) == Success(t.(rest := t.rest + more))
    decreases |input|
  {
    StepExtends(cat, riddle, s, input, more);
    var t := Step(cat, riddle, s, input).value;
    if t.Continue? {
      SolveExtends(cat, riddle, t.session, t.rest, more);
    }
  }

  /** The loop fails only when the input runs out: typing the answer twice more
      (once as a guess, or as the pending hint reply and then as a guess) solves
      the riddle. */
  lemma {:induction false} SolveFailsOnlyForLackOfInput(cat: RiddleCatalog, riddle: string, s: Session, input: seq<string>)
    requires Solve(cat, riddle, s, input).Failure?
    ensures var a := AnswerFor(cat, riddle);
      Solve(cat, riddle, s, input + [a, a]).Success? && Solve(cat, riddle, s, input + [a, a]).value.solved
    decreases |input|
  {
    var a := AnswerFor(cat, riddle);
    EqualsIgnoreCaseEquivalence(a, a, a);
    var st := Step(cat, riddle, s, input);
    if st.Failure? {
      if input != [] {
        var t := Step(cat, riddle, s, input + [a, a]).value;
        assert (input + [a, a])[2..] == [a];
        assert Solve(cat, riddle, t.session, [a]) == Success(Finished(true, t.session, []));
      }
    } else {
      var t := st.value;
      StepExtends(cat, riddle, s, input, [a, a]);
      SolveFailsOnlyForLackOfInput(cat, riddle, t.session, t.rest);
    }
  }

  /** `solveRiddle`: true when the riddle is solved, false after ten wrong guesses;
      hints stay within three and are shown in list order. */
  function SolveRiddle(cat: RiddleCatalog, riddle: string, input: seq<string>): (r: Result<Turn>)
    ensures r.Failure? ==> r.error == NoSuchElement
    ensures r.Success? ==> r.value.Finished? && |r.value.rest| < |input|
    ensures r.Success? ==> (r.value.solved <==> r.value.session.attempts < MaxAttempts)
    ensures r.Success? && !r.value.solved ==> r.value.session.attempts == MaxAttempts
    ensures r.Success? ==> Consistent(cat, riddle, r.value.session)
    ensures r.Success? ==> (r.value.solved <==> IsCorrectAnswer(cat, riddle, LastRead(input, r.value.rest)))
  {
    SolveEndsOnLastGuess(cat, riddle, Fresh(), input);
    Solve(cat, riddle, Fresh(), input)
  }

  /** A first guess that matches solves the riddle with no attempt counted and no
      hint used, consuming just that line. */
  lemma FirstGuessSolves(cat: RiddleCatalog, riddle: string, input: seq<string>)
    requires input != [] && IsCorrectAnswer(cat, riddle, input[0])
    ensures SolveRiddle(cat, riddle, input) == Success(Finished(true, Fresh(), input[1..]))
  {
  }

  /** Guesses with a hint reply after each: `g0 r0 g1 r1 ...`. */
  function Interleave(gs: seq<string>, rs: seq<string>): seq<string>
    requires |gs| == |rs|
  {
    if gs == [] then [] else [gs[0], rs[0]] + Interleave(gs[1..], rs[1..])
  }

  /** The input of a player who guesses wrong ten times and declines every hint:
      two guesses, then seven guess/reply pairs, then the tenth guess. */
  function LosingScript(guesses: seq<string>, replies: seq<string>): seq<string>
    requires |guesses| == MaxAttempts && |replies| == MaxAttempts - HintThreshold
  {
    guesses[..2] + Interleave(guesses[2..9], replies) + [guesses[9]]
  }

  /** A wrong guess after two to eight attempts, with a hint still available and
      declined, reads two lines and counts one attempt; the hints used and shown
      stay as they were. */
  lemma DeclinedRound(cat: RiddleCatalog, riddle: string, s: Session, g: string, reply: string, rest: seq<string>)
    requires 2 <= s.attempts < 9 && s.hintsUsed < MaxHints
    requires !IsCorrectAnswer(cat, riddle, g)
    requires reply != "y" && reply != "Y"
    ensures Solve(cat, riddle, s, [g, reply] + rest) == Solve(cat, riddle, s.(attempts := s.attempts + 1), rest)
  {
    DeclinedStep(cat, riddle, s, g, reply, rest);
  }

  /** The step of `DeclinedRound`: the declined offer leaves the session as the
      wrong guess made it. */
  lemma DeclinedStep(cat: RiddleCatalog, riddle: string, s: Session, g: string, reply: string, rest: seq<string>)
    requires 2 <= s.attempts < 9 && s.hintsUsed < MaxHints
    requires !IsCorrectAnswer(cat, riddle, g)
    requires reply != "y" && reply != "Y"
    ensures Step(cat, riddle, s, [g, reply] + rest) == Success(Continue(s.(attempts := s.attempts + 1), rest))
  {
    var input := [g, reply] + rest;
    var wrong := s.(attempts := s.attempts + 1);
    assert input[1..] == [reply] + rest;
    assert input[1..][1..] == rest;
    IgnoreCaseSingleLetter(reply);
    assert OfferHint(cat, riddle, wrong.attempts, wrong, input[1..]) == Success(Offer(wrong, rest));
  }

  /** Every guess of `gs` is wrong. */
  predicate AllWrong(cat: RiddleCatalog, riddle: string, gs: seq<string>)
  {
    gs == [] || (!IsCorrectAnswer(cat, riddle, gs[0]) && AllWrong(cat, riddle, gs[1..]))
  }

  /** No reply of `rs` asks for a hint. */
  predicate Declined(rs: seq<string>)
  {
    rs == [] || (rs[0] != "y" && rs[0] != "Y" && Declined(rs[1..]))
  }

  lemma {:induction false} AllWrongOf(cat: RiddleCatalog, riddle: string, gs: seq<string>)
    requires forall i :: 0 <= i < |gs| ==> !IsCorrectAnswer(cat, riddle, gs[i])
    ensures AllWrong(cat, riddle, gs)
  {
    if gs != [] {
      assert !IsCorrectAnswer(cat, riddle, gs[0]);
      AllWrongOf(cat, riddle, gs[1..]);
    }
  }

  lemma {:induction false} DeclinedOf(rs: seq<string>)
    requires forall i :: 0 <= i < |rs| ==> rs[i] != "y" && rs[i] != "Y"
    ensures Declined(rs)
  {
    if rs != [] {
      DeclinedOf(rs[1..]);
    }
  }

  /** From `a` wrong guesses (two to nine), declining every hint, the remaining wrong
      guesses lose the riddle exactly at the tenth, leaving the rest of the input. */
  lemma {:induction false} LoseFrom(cat: RiddleCatalog, riddle: string, a: nat,
                                    gs: seq<string>, rs: seq<string>, last: string, tail: seq<string>)
    requires 2 <= a <= 9 && |gs| == |rs| == 9 - a
    requires AllWrong(cat, riddle, gs) && Declined(rs)
    requires !IsCorrectAnswer(cat, riddle, last)
    ensures Solve(cat, riddle, Session(a, 0, []), Interleave(gs, rs) + ([last] + tail))
         == Success(Finished(false, Session(MaxAttempts, 0, []), tail))
    decreases 9 - a
  {
    if a == 9 {
      assert gs == [] && rs == [];
      assert Interleave(gs, rs) == [];
      assert Interleave(gs, rs) + ([last] + tail) == [last] + tail;
      TenthWrongGuess(cat, riddle, last, tail);
      assert Solve(cat, riddle, Session(a, 0, []), Interleave(gs, rs) + ([last] + tail)) == Success(Finished(false, Session(MaxAttempts, 0, []), tail));
    } else {
      LoseFrom(cat, riddle, a + 1, gs[1..], rs[1..], last, tail);
      DeclinedRoundIn(cat, riddle, a, gs, rs, [last] + tail);
      assert Solve(cat, riddle, Session(a, 0, []), Interleave(gs, rs) + ([last] + tail)) == Success(Finished(false, Session(MaxAttempts, 0, []), tail));
    }
  }

  /** `DeclinedRound` on the first guess/reply pair of an interleaved script. */
  lemma DeclinedRoundIn(cat: RiddleCatalog, riddle: string, a: nat, gs: seq<string>, rs: seq<string>, more: seq<string>)
    requires 2 <= a < 9 && |gs| == |rs| > 0
    requires AllWrong(cat, riddle, gs) && Declined(rs)
    ensures Solve(cat, riddle, Session(a, 0, []), Interleave(gs, rs) + more)
         == Solve(cat, riddle, Session(a + 1, 0, []), Interleave(gs[1..], rs[1..]) + more)
  {
    InterleaveFirst(gs, rs, more);
    DeclinedRound(cat, riddle, Session(a, 0, []), gs[0], rs[0], Interleave(gs[1..], rs[1..]) + more);
  }

  lemma {:induction false} InterleaveFirst(gs: seq<string>, rs: seq<string>, more: seq<string>)
    requires |gs| == |rs| > 0
    ensures Interleave(gs, rs) + more == [gs[0], rs[0]] + (Interleave(gs[1..], rs[1..]) + more)
  {
    var tl := Interleave(gs[1..], rs[1..]);
    assert Interleave(gs, rs) == [gs[0], rs[0]] + tl;
    assert ([gs[0], rs[0]] + tl) + more == [gs[0], rs[0]] + (tl + more);
  }

  /** After nine wrong guesses without hints, a tenth wrong guess loses at once. */
  lemma TenthWrongGuess(cat: RiddleCatalog, riddle: string, last: string, tail: seq<string>)
    requires !IsCorrectAnswer(cat, riddle, last)
    ensures Solve(cat, riddle, Session(9, 0, []), [last] + tail)
         == Success(Finished(false, Session(MaxAttempts, 0, []), tail))
  {
    assert ([last] + tail)[1..] == tail;
  }

  /** The first two wrong guesses count an attempt each and bring no hint prompt. */
  lemma EarlyMiss(cat: RiddleCatalog, riddle: string, a: nat, g: string, rest: seq<string>)
    requires a < HintThreshold - 1
    requires !IsCorrectAnswer(cat, riddle, g)
    ensures Solve(cat, riddle, Session(a, 0, []), [g] + rest) == Solve(cat, riddle, Session(a + 1, 0, []), rest)
  {
    assert ([g] + rest)[1..] == rest;
    assert Step(cat, riddle, Session(a, 0, []), [g] + rest) == Success(Continue(Session(a + 1, 0, []), rest));
  }

  /** Ten wrong guesses, with every hint declined (any reply but `y`/`Y`), lose the
      riddle; the tenth guess ends it before any further prompt, so whatever
      follows is left unread. */
  lemma TenWrongGuessesLose(cat: RiddleCatalog, riddle: string,
                            guesses: seq<string>, replies: seq<string>, tail: seq<string>)
    requires |guesses| == MaxAttempts && |replies| == MaxAttempts - HintThreshold
    requires forall i :: 0 <= i < |guesses| ==> !IsCorrectAnswer(cat, riddle, guesses[i])
    requires forall i :: 0 <= i < |replies| ==> replies[i] != "y" && replies[i] != "Y"
    ensures SolveRiddle(cat, riddle, LosingScript(guesses, replies) + tail)
         == Success(Finished(false, Session(MaxAttempts, 0, []), tail))
  {
    var gs := guesses[2..9];
    var after := Interleave(gs, replies) + ([guesses[9]] + tail);
    assert LosingScript(guesses, replies) == guesses[..2] + Interleave(gs, replies) + [guesses[9]];
    Regroup(guesses[..2], Interleave(gs, replies), guesses[9], tail);
    assert !IsCorrectAnswer(cat, riddle, guesses[0]);
    assert !IsCorrectAnswer(cat, riddle, guesses[1]);
    assert !IsCorrectAnswer(cat, riddle, guesses[9]);
    AllWrongOf(cat, riddle, gs);
    DeclinedOf(replies);
    EarlyMiss(cat, riddle, 0, guesses[0], [guesses[1]] + after);
    EarlyMiss(cat, riddle, 1, guesses[1], after);
    LoseFrom(cat, riddle, 2, gs, replies, guesses[9], tail);
  }

  lemma Regroup(pair: seq<string>, mid: seq<string>, z: string, tail: seq<string>)
    requires |pair| == 2
    ensures pair + mid + [z] + tail == [pair[0]] + ([pair[1]] + (mid + ([z] + tail)))
  {
    assert pair == [pair[0]] + [pair[1]];
  }

  /** Three wrong guesses bring the first hint prompt; answering `y` reveals the
      first hint of the list (if it has one) and counts one hint. */
  lemma ThirdWrongGuessOffersFirstHint(cat: RiddleCatalog, riddle: string,
                                       g1: string, g2: string, g3: string, rest: seq<string>)
    requires !IsCorrectAnswer(cat, riddle, g1)
    requires !IsCorrectAnswer(cat, riddle, g2)
    requires !IsCorrectAnswer(cat, riddle, g3)
    ensures SolveRiddle(cat, riddle, [g1, g2, g3, "y"] + rest)
         == Solve(cat, riddle, Session(3, 1, Revealed(HintsFor(cat, riddle), 1)), rest)
  {
    var input := [g1, g2, g3, "y"] + rest;
    assert input == [g1] + ([g2] + ([g3, "y"] + rest));
    EarlyMiss(cat, riddle, 0, g1, [g2] + ([g3, "y"] + rest));
    EarlyMiss(cat, riddle, 1, g2, [g3, "y"] + rest);
    FirstHintAccepted(cat, riddle, g3, rest);
  }

  /** The third wrong guess followed by `y` reveals the first hint. */
  lemma FirstHintAccepted(cat: RiddleCatalog, riddle: string, g3: string, rest: seq<string>)
    requires !IsCorrectAnswer(cat, riddle, g3)
    ensures Solve(cat, riddle, Session(2, 0, []), [g3, "y"] + rest)
         == Solve(cat, riddle, Session(3, 1, Revealed(HintsFor(cat, riddle), 1)), rest)
  {
    var input := [g3, "y"] + rest;
    assert input[1..] == ["y"] + rest;
    assert input[1..][1..] == rest;
    IgnoreCaseSingleLetter("y");
    var o := OfferHint(cat, riddle, 3, Session(3, 0, []), ["y"] + rest);
    assert o.Success? && o.value.rest == rest;
    assert o.value.after == Session(3, 1, Revealed(HintsFor(cat, riddle), 1));
    assert Step(cat, riddle, Session(2, 0, []), input)
        == Success(Continue(Session(3, 1, Revealed(HintsFor(cat, riddle), 1)), rest));
  }

  /** One pass of the `while (!solved)` body with the locals of `solveRiddle`:
      read a guess; on a miss count it, stop at the tenth, and offer a hint from
      the third on. */
  method GuessRound(cat: RiddleCatalog, riddle: string, attempts: nat, hintsUsed: nat,
                    revealed: seq<string>, lines: seq<string>) returns (r: Result<Turn>)
    ensures r == Step(cat, riddle, Session(attempts, hintsUsed, revealed), lines)
  {
    if lines == [] {
      return Failure(NoSuchElement);
    }
    var userGuess := lines[0];
    if IsCorrectAnswer(cat, riddle, userGuess) {
      return Success(Finished(true, Session(attempts, hintsUsed, revealed), lines[1..]));
    }
    var tried := attempts + 1;
    if tried == MaxAttempts {
      return Success(Finished(false, Session(tried, hintsUsed, revealed), lines[1..]));
    }
    if tried >= HintThreshold {
      var offer := OfferHint(cat, riddle, tried, Session(tried, hintsUsed, revealed), lines[1..]);
      if offer.Failure? {
        return Failure(offer.error);
      }
      return Success(Continue(offer.value.after, offer.value.rest));
    }
    return Success(Continue(Session(tried, hintsUsed, revealed), lines[1..]));
  }

  /** The loop of `solveRiddle` as written, with mutable locals and the `solved`
      flag, computes the same outcome as the recursive model; on every pass fewer
      than ten attempts are counted and the hint invariant holds. */
  method SolveRiddleLoop(cat: RiddleCatalog, riddle: string, input: seq<string>) returns (r: Result<Turn>)
    ensures r == SolveRiddle(cat, riddle, input)
  {
    var solved := false;
    var attempts: nat := 0;
    var hintsUsed: nat := 0;
    var revealed: seq<string> := [];
    var lines := input;
    while !solved
      invariant !solved ==> Solve(cat, riddle, Session(attempts, hintsUsed, revealed), lines) == SolveRiddle(cat, riddle, input)
      invariant attempts < MaxAttempts && Consistent(cat, riddle, Session(attempts, hintsUsed, revealed))
      invariant solved ==> SolveRiddle(cat, riddle, input) == Success(Finished(true, Session(attempts, hintsUsed, revealed), lines))
      decreases if solved then 0 else |lines| + 1
    {
      var round := GuessRound(cat, riddle, attempts, hintsUsed, revealed, lines);
      if round.Failure? {
        return Failure(round.error);
      }
      match round.value
      case Finished(ok, after, rest) =>
        if !ok {
          return round;
        }
        solved := true;
        lines := rest;
      case Continue(after, rest) =>
        attempts := after.attempts;
        hintsUsed := after.hintsUsed;
        revealed := after.revealed;
        lines := rest;
    }
    return Success(Finished(true, Session(attempts, hintsUsed, revealed), lines));
  }
}
