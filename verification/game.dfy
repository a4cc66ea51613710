/** `playGame`: the riddles of the queue are solved one after another; the first
    lost riddle ends the game, and solving all of them wins it. */
module Game {
  import opened Results
  import opened Catalog
  import opened Answers
  import opened CaseFold
  import opened Selection
  import opened RiddleSession

  /** How a game ended: `won`, how many riddles were attempted, and the input left
      unread. */
  datatype GameEnd = GameEnd(won: bool, attempted: nat, rest: seq<string>)

  /** A riddle session as the game loop sees it: riddle text and input in, outcome
      and unread input out. */
  type Player = (string, seq<string>) -> Result<Turn>

  /** The session ended with the riddle solved. */
  predicate Solved(t: Turn)
  {
    t.Finished? && t.solved
  }

  /** `solveRiddle` on the given catalog. */
  function SessionOf(cat: RiddleCatalog): Player
  {
    (riddle, input) => SolveRiddle(cat, riddle, input)
  }

  /** What the game loop relies on from a session: it ends finished, reads at
      least one line, reads only the lines it needs, and fails only for lack of
      input. */
  ghost predicate WellBehaved(play: Player)
  {
    && (forall riddle, input :: WellBehavedOn(play(riddle, input), input))
    && ReadsOnlyNeeded(play)
    && FailsOnlyAtEnd(play)
  }

  /** Input after the lines a finished session read changes nothing but what is
      left unread. */
  ghost predicate ReadsOnlyNeeded(play: Player)
  {
    forall riddle, input, more :: play(riddle, input).Success? ==>
      play(riddle, input + more) == Success(play(riddle, input).value.(rest := play(riddle, input).value.rest + more))
  }

  /** A failed session is one that ran out of input: some further lines let it
      finish. */
  ghost predicate FailsOnlyAtEnd(play: Player)
  {
    forall riddle, input :: play(riddle, input).Failure? ==>
      exists more :: play(riddle, input + more).Success?
  }

  ghost predicate WellBehavedOn(r: Result<Turn>, input: seq<string>)
  {
    && (r.Failure? ==> r.error == NoSuchElement)
    && (r.Success? ==> r.value.Finished? && |r.value.rest| < |input| && r.value.rest == input[|input| - |r.value.rest|..])
  }

  /** `solveRiddle` is a well-behaved session. */
  lemma SessionWellBehaved(cat: RiddleCatalog)
    ensures WellBehaved(SessionOf(cat))
  {
    var play := SessionOf(cat);
    forall riddle, input ensures WellBehavedOn(play(riddle, input), input) {
      var r := SolveRiddle(cat, riddle, input);
      assert play(riddle, input) == r;
    }
    SessionReadsOnlyNeeded(cat);
    SessionFailsOnlyAtEnd(cat);
  }

  /** `solveRiddle` stops reading once the riddle is solved or lost. */
  lemma SessionReadsOnlyNeeded(cat: RiddleCatalog)
    ensures ReadsOnlyNeeded(SessionOf(cat))
  {
    var play := SessionOf(cat);
    forall riddle, input, more | play(riddle, input).Success?
      ensures play(riddle, input + more) == Success(play(riddle, input).value.(rest := play(riddle, input).value.rest + more))
    {
      SolveExtends(cat, riddle, Fresh(), input, more);
    }
  }

  /** `solveRiddle` fails only when `nextLine` finds no line left. */
  lemma SessionFailsOnlyAtEnd(cat: RiddleCatalog)
    ensures FailsOnlyAtEnd(SessionOf(cat))
  {
    var play := SessionOf(cat);
    forall riddle, input | play(riddle, input).Failure?
      ensures exists more :: play(riddle, input + more).Success?
    {
      var a := AnswerFor(cat, riddle);
      SolveFailsOnlyForLackOfInput(cat, riddle, Fresh(), input);
      assert play(riddle, input + [a, a]).Success?;
    }
  }

  /** The `while (!riddlesToDo.isEmpty())` loop over the queue: each riddle's
      session starts on the input the previous one left. */
  function PlayQueue(play: Player, queue: seq<string>, input: seq<string>): (r: Result<GameEnd>)
    ensures r.Success? && r.value.won ==> r.value.attempted == |queue|
    ensures r.Success? && !r.value.won ==> 1 <= r.value.attempted <= |queue|
    ensures WellBehaved(play) && r.Failure? ==> r.error == NoSuchElement
    ensures WellBehaved(play) && r.Success? ==>
      |r.value.rest| + r.value.attempted <= |input| && r.value.rest == input[|input| - |r.value.rest|..]
    decreases |queue|
  {
    if queue == [] then Success(GameEnd(true, 0, input))
    else
      match play(queue[0], input)
      case Failure(e) => Failure(e)
      case Success(t) =>
        if !Solved(t) then Success(GameEnd(false, 1, t.rest))
        else
          match PlayQueue(play, queue[1..], t.rest)
          case Failure(e) => Failure(e)
          case Success(g) => Success(g.(attempted := g.attempted + 1))
  }

  /** Every riddle of `queue` is solved in turn, each session starting where the
      previous one stopped reading, and `rest` is what is left at the end. */
  ghost predicate SolvesAll(play: Player, queue: seq<string>, input: seq<string>, rest: seq<string>)
    decreases |queue|
  {
    if queue == [] then rest == input
    else
      var t := play(queue[0], input);
      t.Success? && Solved(t.value) && SolvesAll(play, queue[1..], t.value.rest, rest)
  }

  /** The game is won exactly when every queued riddle is solved in queue order. */
  lemma {:induction false} WonIffAllSolved(play: Player, queue: seq<string>, input: seq<string>, rest: seq<string>)
    ensures PlayQueue(play, queue, input) == Success(GameEnd(true, |queue|, rest)) <==> SolvesAll(play, queue, input, rest)
    decreases |queue|
  {
    if queue != [] {
      var t := play(queue[0], input);
      if t.Success? && Solved(t.value) {
        WonIffAllSolved(play, queue[1..], t.value.rest, rest);
      }
    }
  }

  /** One round of the queue loop: the head riddle's session, then the rest. */
  lemma PlayQueueHead(play: Player, queue: seq<string>, input: seq<string>)
    requires queue != []
    ensures var t := play(queue[0], input);
      PlayQueue(play, queue, input) ==
        if t.Failure? then Failure(t.error)
        else if !Solved(t.value) then Success(GameEnd(false, 1, t.value.rest))
        else Shift(PlayQueue(play, queue[1..], t.value.rest), 1)
  {
  }

  /** The game reads only the lines its sessions need: more input after them
      changes nothing but what is left unread. */
  lemma {:induction false} PlayQueueExtends(play: Player, queue: seq<string>, input: seq<string>, more: seq<string>)
    requires ReadsOnlyNeeded(play)
    requires PlayQueue(play, queue, input).Success?
    ensures var g := PlayQueue(play, queue, input).value;
      PlayQueue(play, queue, input + more) == Success(g.(rest := g.rest + more))
    decreases |queue|
  {
    if queue != [] {
      var t := play(queue[0], input).value;
      assert play(queue[0], input + more) == Success(t.(rest := t.rest + more));
      if Solved(t) {
        PlayQueueExtends(play, queue[1..], t.rest, more);
      }
    }
  }

  /** With sessions that fail only for lack of input, so does the game: some
      further lines let it finish, won or lost. */
  lemma {:induction false} PlayQueueFailsOnlyForLackOfInput(play: Player, queue: seq<string>, input: seq<string>)
    requires ReadsOnlyNeeded(play) && FailsOnlyAtEnd(play)
    requires PlayQueue(play, queue, input).Failure?
    ensures exists more :: PlayQueue(play, queue, input + more).Success?
    decreases |queue|
  {
    var r := play(queue[0], input);
    if r.Failure? {
      var m1 :| play(queue[0], input + m1).Success?;
      var t := play(queue[0], input + m1).value;
      if Solved(t) && PlayQueue(play, queue[1..], t.rest).Failure? {
        PlayQueueFailsOnlyForLackOfInput(play, queue[1..], t.rest);
        var m2 :| PlayQueue(play, queue[1..], t.rest + m2).Success?;
        assert input + m1 + m2 == input + (m1 + m2);
        assert play(queue[0], input + m1 + m2) == Success(t.(rest := t.rest + m2));
        assert PlayQueue(play, queue, input + (m1 + m2)).Success?;
      } else {
        assert PlayQueue(play, queue, input + m1).Success?;
      }
    } else {
      var t := r.value;
      PlayQueueFailsOnlyForLackOfInput(play, queue[1..], t.rest);
      var m :| PlayQueue(play, queue[1..], t.rest + m).Success?;
      assert play(queue[0], input + m) == Success(t.(rest := t.rest + m));
      assert PlayQueue(play, queue, input + m).Success?;
    }
  }

  /** A game result with `n` more riddles counted as attempted. */
  function Shift(r: Result<GameEnd>, n: nat): Result<GameEnd>
  {
    match r
    case Failure(e) => Failure(e)
    case Success(g) => Success(g.(attempted := g.attempted + n))
  }

  lemma ShiftShift(r: Result<GameEnd>, a: nat, b: nat)
    ensures Shift(Shift(r, a), b) == Shift(r, a + b)
  {
  }

  /** Riddles are played strictly in queue order: playing `q1 + q2` plays `q1` and,
      only if `q1` was won, continues with `q2` on the remaining input. */
  lemma {:induction false} PlayAppend(play: Player, q1: seq<string>, q2: seq<string>, input: seq<string>)
    ensures var first := PlayQueue(play, q1, input);
      PlayQueue(play, q1 + q2, input) ==
        if first.Failure? || !first.value.won then first
        else Shift(PlayQueue(play, q2, first.value.rest), |q1|)
    decreases |q1|
  {
    var first := PlayQueue(play, q1, input);
    if q1 == [] {
      assert q1 + q2 == q2;
      assert Shift(PlayQueue(play, q2, input), 0) == PlayQueue(play, q2, input);
    } else {
      var q := q1 + q2;
      assert q[0] == q1[0];
      assert q[1..] == q1[1..] + q2;
      var t := play(q1[0], input);
      PlayQueueHead(play, q1, input);
      PlayQueueHead(play, q, input);
      if t.Success? && Solved(t.value) {
        var mid := t.value.rest;
        PlayAppend(play, q1[1..], q2, mid);
        var inner := PlayQueue(play, q1[1..], mid);
        assert first == Shift(inner, 1);
        assert PlayQueue(play, q, input) == Shift(PlayQueue(play, q1[1..] + q2, mid), 1);
        if inner.Success? && inner.value.won {
          var second := PlayQueue(play, q2, inner.value.rest);
          assert first.value.rest == inner.value.rest;
          assert PlayQueue(play, q1[1..] + q2, mid) == Shift(second, |q1[1..]|);
          ShiftShift(second, |q1[1..]|, 1);
        } else {
          assert PlayQueue(play, q1[1..] + q2, mid) == inner;
          assert PlayQueue(play, q, input) == first;
        }
      } else {
        assert PlayQueue(play, q, input) == first;
        assert first.Failure? || !first.value.won;
      }
    }
  }

  /** After a lost riddle nothing else is attempted: replacing every riddle after it
      changes nothing in the outcome. */
  lemma {:induction false} DefeatIgnoresLaterRiddles(play: Player, queue: seq<string>, input: seq<string>, other: seq<string>)
    requires PlayQueue(play, queue, input).Success? && !PlayQueue(play, queue, input).value.won
    ensures PlayQueue(play, queue[..PlayQueue(play, queue, input).value.attempted] + other, input)
         == PlayQueue(play, queue, input)
    decreases |queue|
  {
    var whole := PlayQueue(play, queue, input);
    var a := whole.value.attempted;
    var q := queue[..a] + other;
    assert q[0] == queue[0];
    var t := play(queue[0], input);
    PlayQueueHead(play, queue, input);
    assert t.Success?;
    var mid := t.value.rest;
    if Solved(t.value) {
      var inner := PlayQueue(play, queue[1..], mid);
      assert whole == Shift(inner, 1);
      assert q[1..] == queue[1..][..a - 1] + other;
      DefeatIgnoresLaterRiddles(play, queue[1..], mid, other);
      PlayQueueHead(play, q, input);
    } else {
      PlayQueueHead(play, q, input);
    }
  }

  /** The looked-up answer of each queued riddle, in queue order. */
  function AnswerScript(cat: RiddleCatalog, queue: seq<string>): seq<string>
  {
    seq(|queue|, i requires 0 <= i < |queue| => AnswerFor(cat, queue[i]))
  }

  /** Typing each riddle's answer once wins the game, one line per riddle. */
  lemma {:induction false} PerfectRun(cat: RiddleCatalog, queue: seq<string>, tail: seq<string>)
    ensures PlayQueue(SessionOf(cat), queue, AnswerScript(cat, queue) + tail) == Success(GameEnd(true, |queue|, tail))
    decreases |queue|
  {
    var input := AnswerScript(cat, queue) + tail;
    if queue == [] {
      assert input == tail;
    } else {
      var a := AnswerFor(cat, queue[0]);
      EqualsIgnoreCaseEquivalence(a, a, a);
      assert input[0] == a;
      assert input[1..] == AnswerScript(cat, queue[1..]) + tail;
      FirstGuessSolves(cat, queue[0], input);
      assert SessionOf(cat)(queue[0], input) == Success(Finished(true, Fresh(), input[1..]));
      PerfectRun(cat, queue[1..], tail);
    }
  }

  /** `playGame`: queue five riddles, then play them. Fewer than five riddles make
      the selection fail before any input is read. */
  function PlayGame(cat: RiddleCatalog, perm: seq<nat>, input: seq<string>): (r: Result<GameEnd>)
    requires Valid(cat) && IsPermutation(perm, |cat.order|)
    ensures (r.Failure? && r.error == IndexOutOfBounds) <==> |cat.riddles| < QueueLength
    ensures r.Success? && r.value.won ==> r.value.attempted == QueueLength
    ensures r.Success? && !r.value.won ==> 1 <= r.value.attempted <= QueueLength
  {
    SessionWellBehaved(cat);
    match Select(cat, perm)
    case Failure(e) => Failure(e)
    case Success(queue) => PlayQueue(SessionOf(cat), queue, input)
  }

  /** Whatever five riddles the shuffle picks, answering each in turn wins. */
  lemma WinningGame(cat: RiddleCatalog, perm: seq<nat>, tail: seq<string>)
    requires Valid(cat) && IsPermutation(perm, |cat.order|) && QueueLength <= |cat.riddles|
    ensures Select(cat, perm).Success?
    ensures PlayGame(cat, perm, AnswerScript(cat, Select(cat, perm).value) + tail)
         == Success(GameEnd(true, QueueLength, tail))
  {
    PerfectRun(cat, Select(cat, perm).value, tail);
  }

  /** The program: load both catalogs from the lines of their files, then play. */
  function RunGame(riddleLines: seq<string>, hintLines: seq<string>, order: seq<string>,
                   perm: seq<nat>, input: seq<string>): (r: Result<GameEnd>)
    requires Enumerates(order, LoadRiddles(riddleLines).Keys) && IsPermutation(perm, |order|)
    ensures (r.Failure? && r.error == IndexOutOfBounds) <==> |LoadRiddles(riddleLines)| < QueueLength
    ensures r.Success? && r.value.won ==> r.value.attempted == QueueLength
  {
    PlayGame(RiddleCatalog(LoadRiddles(riddleLines), LoadHints(hintLines), order), perm, input)
  }
}
