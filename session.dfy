/** A quiz session as a function of the replies the user types: which replies
    are taken as answers, which of them are right, and what goes into the
    wrong-answer log. */
module Session {
  import opened Wrappers
  import opened PyText
  import opened Cards
  import opened Terminal
  import opened AnswerLog

  /** A reply the answer prompt accepts: one character whose upper-case form
      is A, B, C or D. */
  predicate IsAnswer(reply: string) {
    |reply| == 1 && 'A' <= UpperChar(reply[0]) <= 'D'
  }

  /** `IsAnswer` is the prompt's own test: the reply's upper-case form is one
      of the labels. */
  lemma IsAnswerIsLabel(reply: string)
    ensures IsAnswer(reply) <==> IsLabel(Upper(reply))
  {
  }

  /** The answer prompt accepts exactly the eight one-letter replies a to d,
      in either case; "E", "" and "AB" are asked again. */
  lemma IsAnswerCases(reply: string)
    ensures IsAnswer(reply) <==>
      reply == "A" || reply == "B" || reply == "C" || reply == "D" ||
      reply == "a" || reply == "b" || reply == "c" || reply == "d"
  {
    if IsAnswer(reply) {
      assert reply == [reply[0]];
    }
  }

  /** An accepted reply is right when its upper-case form is the card's
      correct label. */
  predicate IsCorrect(card: Card, answer: string) {
    Upper(answer) == card.correctAnswer
  }

  /** Answers are not case-sensitive: for a card whose correct label is the
      capital `u`, the right replies are exactly `u` and its small letter. */
  lemma IsCorrectIgnoresCase(card: Card, u: char, reply: string)
    requires 'A' <= u <= 'Z' && card.correctAnswer == [u]
    ensures IsCorrect(card, reply) <==> reply == [u] || reply == [LowerChar(u)]
  {
    UpperIsLetter(reply, u);
  }

  /** A card whose correct label is none of A to D can never be answered
      right, since every accepted reply is one of them. */
  lemma UnmatchableCard(card: Card, reply: string)
    requires !IsLabel(card.correctAnswer) && IsAnswer(reply)
    ensures !IsCorrect(card, reply)
  {
  }

  // ----- the answer loop -----

  /** What one question of the loop reads: either the input runs out before
      the prompt accepts a reply, or the question is answered with `answer`
      after `used` replies, `acked` telling whether the acknowledgement read
      after it when answers are shown was there. */
  datatype Turn = Exhausted | Answered(answer: string, used: nat, acked: bool)

  /** One question, asked when the replies from position `from` on are still
      to be read: the prompt is asked again after each reply it does not
      accept; an accepted reply answers the question and, when answers are
      shown, the reply after it ("Press Enter to continue..") is read too,
      whatever it says. */
  function NextTurn(showAnswer: bool, replies: seq<string>, from: nat): (r: Turn)
    ensures r.Answered? ==> 0 < r.used && from + r.used <= |replies| && IsAnswer(r.answer)
    ensures r.Answered? && !r.acked ==> showAnswer && from + r.used == |replies|
    decreases |replies| - from
  {
    if from >= |replies| then Exhausted
    else if !IsAnswer(replies[from]) then
      match NextTurn(showAnswer, replies, from + 1)
      case Exhausted => Exhausted
      case Answered(a, u, acked) => Answered(a, u + 1, acked)
    else if !showAnswer then Answered(replies[from], 1, true)
    else if from + 1 == |replies| then Answered(replies[from], 1, false)
    else Answered(replies[from], 2, true)
  }

  /** The turn is what the re-prompt loop reads: it stops at the first
      accepted reply, `i` replies on, and when answers are shown it reads one
      more reply after it if there is one; with no accepted reply it reads
      everything. */
  lemma {:induction false} NextTurnAtFirstMatch(showAnswer: bool, replies: seq<string>, from: nat)
    requires from <= |replies|
    ensures match FirstMatch(replies[from..], IsAnswer)
      case None => NextTurn(showAnswer, replies, from) == Exhausted
      case Some(i) =>
        NextTurn(showAnswer, replies, from) ==
          if showAnswer && from + i + 1 == |replies| then Answered(replies[from + i], i + 1, false)
          else Answered(replies[from + i], if showAnswer then i + 2 else i + 1, true)
    decreases |replies| - from
  {
    var rest := replies[from..];
    if from < |replies| {
      assert rest[0] == replies[from];
      if !IsAnswer(replies[from]) {
        NextTurnAtFirstMatch(showAnswer, replies, from + 1);
        assert rest[1..] == replies[from + 1..];
        match FirstMatch(rest[1..], IsAnswer)
        case None =>
        case Some(j) =>
          assert rest[1..][j] == replies[from + 1 + j];
      }
    }
  }

  /** What the answer loop read: the accepted answers in question order,
      whether every question was answered (otherwise the input ran out and
      Python's EOFError ends the program), and how many replies were read. */
  datatype Transcript = Transcript(answers: seq<string>, finished: bool, consumed: nat)

  /** The answer loop over `count` questions on the replies from position
      `from` on, one turn per question; it ends early when the input runs
      out. */
  function Play(count: nat, showAnswer: bool, replies: seq<string>, from: nat): (t: Transcript)
    requires from <= |replies|
    ensures |t.answers| <= count && from + t.consumed <= |replies|
    ensures t.finished ==> |t.answers| == count
    ensures !t.finished ==> from + t.consumed == |replies|
    decreases |replies| - from
  {
    if count == 0 then Transcript([], true, 0)
    else match NextTurn(showAnswer, replies, from)
      case Exhausted => Transcript([], false, |replies| - from)
      case Answered(a, u, acked) =>
        if acked then Then([a], u, Play(count - 1, showAnswer, replies, from + u))
        else Transcript([a], false, u)
  }

  /** A transcript preceded by answers that took `used` replies. */
  function Then(answers: seq<string>, used: nat, t: Transcript): (r: Transcript)
    ensures r.answers == answers + t.answers && r.finished == t.finished && r.consumed == used + t.consumed
  {
    Transcript(answers + t.answers, t.finished, used + t.consumed)
  }

  lemma ThenAssociates(a: seq<string>, u: nat, b: seq<string>, v: nat, t: Transcript)
    ensures Then(a, u, Then(b, v, t)) == Then(a + b, u + v, t)
  {
    assert a + (b + t.answers) == (a + b) + t.answers;
  }

  /** Every answer the loop records is one the prompt accepts. */
  lemma {:induction false} PlayAnswersAccepted(count: nat, showAnswer: bool, replies: seq<string>, from: nat)
    requires from <= |replies|
    ensures forall k :: 0 <= k < |Play(count, showAnswer, replies, from).answers| ==>
      IsAnswer(Play(count, showAnswer, replies, from).answers[k])
    decreases |replies| - from
  {
    var turn := NextTurn(showAnswer, replies, from);
    if count > 0 && turn.Answered? && turn.acked {
      var after := Play(count - 1, showAnswer, replies, from + turn.used);
      PlayAnswersAccepted(count - 1, showAnswer, replies, from + turn.used);
      var answers := [turn.answer] + after.answers;
      assert Play(count, showAnswer, replies, from).answers == answers;
      assert IsAnswer(turn.answer);
      forall k | 0 <= k < |answers| ensures IsAnswer(answers[k]) {
        if k > 0 {
          assert answers[k] == after.answers[k - 1];
          assert IsAnswer(after.answers[k - 1]);
        } else {
          assert answers[k] == turn.answer;
        }
      }
    }
  }

  /** The replies the answer prompt accepts, in the order typed. */
  function Accepted(replies: seq<string>): seq<string> {
    if replies == [] then []
    else (if IsAnswer(replies[0]) then [replies[0]] else []) + Accepted(replies[1..])
  }

  /** Without the acknowledgement, a turn takes the first accepted reply and
      leaves the others for the next turns. */
  lemma {:induction false} NextTurnAccepted(replies: seq<string>, from: nat)
    requires from <= |replies|
    ensures match NextTurn(false, replies, from)
      case Exhausted => Accepted(replies[from..]) == []
      case Answered(a, u, _) => Accepted(replies[from..]) == [a] + Accepted(replies[from + u..])
    decreases |replies| - from
  {
    if from < |replies| {
      var rest := replies[from..];
      assert rest[0] == replies[from] && rest[1..] == replies[from + 1..];
      if !IsAnswer(replies[from]) {
        NextTurnAccepted(replies, from + 1);
        assert Accepted(rest) == Accepted(replies[from + 1..]);
      }
    }
  }

  /** The transcript's answers are the first `count` of `accepted`, and it
      is finished exactly when there are that many. */
  predicate TakesFirst(t: Transcript, accepted: seq<string>, count: nat) {
    && (t.finished <==> |accepted| >= count)
    && t.answers == accepted[..if |accepted| >= count then count else |accepted|]
  }

  /** When answers are not shown, the loop's answers are the first `count`
      accepted replies, and it finishes exactly when there are that many. */
  lemma {:induction false} PlayWithoutReveal(count: nat, replies: seq<string>, from: nat)
    requires from <= |replies|
    ensures TakesFirst(Play(count, false, replies, from), Accepted(replies[from..]), count)
    decreases |replies| - from
  {
    var acc := Accepted(replies[from..]);
    var turn := NextTurn(false, replies, from);
    NextTurnAccepted(replies, from);
    if count == 0 || turn.Exhausted? {
      assert acc[..0] == [];
    } else {
      var after := Play(count - 1, false, replies, from + turn.used);
      assert Play(count, false, replies, from) == Then([turn.answer], turn.used, after);
      PlayWithoutReveal(count - 1, replies, from + turn.used);
      TakesFirstStep(turn.answer, turn.used, after, Accepted(replies[from + turn.used..]), count);
    }
  }

  /** An answer in front of a transcript that takes the first `count - 1`
      accepted replies gives one that takes the first `count`. */
  lemma TakesFirstStep(a: string, used: nat, after: Transcript, rest: seq<string>, count: nat)
    requires count > 0 && TakesFirst(after, rest, count - 1)
    ensures TakesFirst(Then([a], used, after), [a] + rest, count)
  {
    var all := [a] + rest;
    var m := if |rest| >= count - 1 then count - 1 else |rest|;
    assert all[..m + 1] == [a] + rest[..m];
  }

  /** When answers are shown, each question takes the first accepted reply
      and then reads the reply after it as the acknowledgement, whatever it
      says, so the next question starts two replies on; an answer with no
      reply after it is kept, and the session stops unfinished there. */
  lemma PlayWithReveal(count: nat, replies: seq<string>, from: nat)
    requires from <= |replies| && count > 0
    ensures var t := Play(count, true, replies, from);
      match FirstMatch(replies[from..], IsAnswer)
      case None => t == Transcript([], false, |replies| - from)
      case Some(i) =>
        if from + i + 1 == |replies| then t == Transcript([replies[from + i]], false, i + 1)
        else t == Then([replies[from + i]], i + 2, Play(count - 1, true, replies, from + i + 2))
  {
    NextTurnAtFirstMatch(true, replies, from);
  }

  /** The number of right answers among the first `|answers|` cards. */
  function CorrectCount(cards: seq<Card>, answers: seq<string>): nat
    requires |cards| == |answers|
  {
    if answers == [] then 0
    else
      CorrectCount(cards[..|cards| - 1], answers[..|answers| - 1])
      + (if IsCorrect(cards[|cards| - 1], answers[|answers| - 1]) then 1 else 0)
  }

  /** The wrong answers, in question order, as they are written to the log. */
  function WrongAnswers(cards: seq<Card>, answers: seq<string>): seq<WrongAnswer>
    requires |cards| == |answers|
  {
    if answers == [] then []
    else
      var card := cards[|cards| - 1];
      var answer := answers[|answers| - 1];
      WrongAnswers(cards[..|cards| - 1], answers[..|answers| - 1])
      + (if IsCorrect(card, answer) then [] else [WrongAnswer(card, answer)])
  }

  /** The positions of the wrong answers, in increasing order. */
  function Mismatches(cards: seq<Card>, answers: seq<string>): seq<nat>
    requires |cards| == |answers|
  {
    if answers == [] then []
    else
      var k := |answers| - 1;
      Mismatches(cards[..k], answers[..k]) + (if IsCorrect(cards[k], answers[k]) then [] else [k])
  }

  /** Every answer is either counted right or logged, never both: the score
      and the number of logged records add up to the number of answers. */
  lemma {:induction false} ScoreAccounting(cards: seq<Card>, answers: seq<string>)
    requires |cards| == |answers|
    ensures CorrectCount(cards, answers) + |WrongAnswers(cards, answers)| == |answers|
  {
    if answers != [] {
      ScoreAccounting(cards[..|cards| - 1], answers[..|answers| - 1]);
    }
  }

  /** A session that asks every quiz card to the end scores and logs each
      card exactly once: right answers plus logged records make the number
      of quiz cards. */
  lemma CompletedSessionAccounts(cards: seq<Card>, showAnswer: bool, replies: seq<string>)
    ensures var t := Play(|cards|, showAnswer, replies, 0);
      t.finished ==> CorrectCount(cards, t.answers) + |WrongAnswers(cards, t.answers)| == |cards|
  {
    var t := Play(|cards|, showAnswer, replies, 0);
    if t.finished {
      ScoreAccounting(cards, t.answers);
    }
  }

  /** The log holds exactly the wrong answers, in question order: its `k`-th
      record is the card and reply at the `k`-th wrong position; those
      positions increase, each is a wrong answer, and every wrong answer is
      among them. */
  lemma WrongAnswersAtMismatches(cards: seq<Card>, answers: seq<string>)
    requires |cards| == |answers|
    ensures var w := WrongAnswers(cards, answers); var m := Mismatches(cards, answers);
      && |w| == |m|
      && (forall k :: 0 <= k < |m| ==> m[k] < |answers| && w[k] == WrongAnswer(cards[m[k]], answers[m[k]]))
      && (forall k :: 0 <= k < |m| ==> !IsCorrect(cards[m[k]], answers[m[k]]))
      && (forall k, l :: 0 <= k < l < |m| ==> m[k] < m[l])
      && (forall i :: 0 <= i < |answers| && !IsCorrect(cards[i], answers[i]) ==> i in m)
  {
    WrongAnswersAtPositions(cards, answers);
    MismatchPositions(cards, answers);
  }

  /** The `k`-th record is the card and reply at the `k`-th wrong position. */
  lemma {:induction false} WrongAnswersAtPositions(cards: seq<Card>, answers: seq<string>)
    requires |cards| == |answers|
    ensures var w := WrongAnswers(cards, answers); var m := Mismatches(cards, answers);
      && |w| == |m|
      && (forall k :: 0 <= k < |m| ==> m[k] < |answers| && w[k] == WrongAnswer(cards[m[k]], answers[m[k]]))
  {
    if answers != [] {
      var n := |answers| - 1;
      var cs := cards[..n];
      var before := answers[..n];
      WrongAnswersAtPositions(cs, before);
      var w0 := WrongAnswers(cs, before);
      var m0 := Mismatches(cs, before);
      var w := WrongAnswers(cards, answers);
      var m := Mismatches(cards, answers);
      forall k | 0 <= k < |m| ensures m[k] < |answers| && w[k] == WrongAnswer(cards[m[k]], answers[m[k]]) {
        if k < |m0| {
          assert m[k] == m0[k] && w[k] == w0[k];
          assert cs[m0[k]] == cards[m0[k]] && before[m0[k]] == answers[m0[k]];
        } else {
          assert m[k] == n && w[k] == WrongAnswer(cards[n], answers[n]);
        }
      }
    }
  }

  /** The wrong positions increase, each is a wrong answer, and every wrong
      answer is among them. */
  lemma {:induction false} MismatchPositions(cards: seq<Card>, answers: seq<string>)
    requires |cards| == |answers|
    ensures var m := Mismatches(cards, answers);
      && (forall k :: 0 <= k < |m| ==> m[k] < |answers| && !IsCorrect(cards[m[k]], answers[m[k]]))
      && (forall k, l :: 0 <= k < l < |m| ==> m[k] < m[l])
      && (forall i :: 0 <= i < |answers| && !IsCorrect(cards[i], answers[i]) ==> i in m)
  {
    if answers != [] {
      var n := |answers| - 1;
      var cs := cards[..n];
      var before := answers[..n];
      MismatchPositions(cs, before);
      var m0 := Mismatches(cs, before);
      var m := Mismatches(cards, answers);
      assert m[..|m0|] == m0;
      forall k | 0 <= k < |m| ensures m[k] < |answers| && !IsCorrect(cards[m[k]], answers[m[k]]) {
        if k < |m0| {
          assert m[k] == m0[k] && cs[m0[k]] == cards[m0[k]] && before[m0[k]] == answers[m0[k]];
        }
      }
      forall k, l | 0 <= k < l < |m| ensures m[k] < m[l] {
        assert m[k] == m0[k];
        if l < |m0| { assert m[l] == m0[l]; }
      }
      forall i | 0 <= i < |answers| && !IsCorrect(cards[i], answers[i]) ensures i in m {
        if i < n {
          assert cs[i] == cards[i] && before[i] == answers[i];
          assert i in m0;
        }
      }
    }
  }

  /** A perfect score leaves the log empty, and only a perfect score does. */
  lemma PerfectScoreIffEmptyLog(cards: seq<Card>, answers: seq<string>, wrap: string -> string)
    requires |cards| == |answers|
    ensures CorrectCount(cards, answers) == |answers| <==> LogLines(WrongAnswers(cards, answers), wrap) == []
  {
    ScoreAccounting(cards, answers);
    LogLinesLength(WrongAnswers(cards, answers), wrap);
  }

  /** Answering one more question adds one to the score when it is right and
      one record to the log otherwise. */
  lemma ScoreStep(cards: seq<Card>, answers: seq<string>, k: nat, answer: string)
    requires |answers| == k < |cards|
    ensures CorrectCount(cards[..k + 1], answers + [answer])
      == CorrectCount(cards[..k], answers) + (if IsCorrect(cards[k], answer) then 1 else 0)
    ensures WrongAnswers(cards[..k + 1], answers + [answer])
      == WrongAnswers(cards[..k], answers) + (if IsCorrect(cards[k], answer) then [] else [WrongAnswer(cards[k], answer)])
  {
    assert cards[..k + 1][..k] == cards[..k];
    assert (answers + [answer])[..k] == answers;
  }

  // ----- the loop, step by step -----

  /** One more answer scored: a right one leaves the log as it is, a wrong
      one appends its record. */
  lemma LogStep(cards: seq<Card>, answers: seq<string>, answer: string, wrap: string -> string)
    requires |answers| < |cards|
    ensures var k := |answers|;
      IsCorrect(cards[k], answer) ==>
        LogLines(WrongAnswers(cards[..k + 1], answers + [answer]), wrap) == LogLines(WrongAnswers(cards[..k], answers), wrap)
    ensures var k := |answers|;
      !IsCorrect(cards[k], answer) ==>
        LogLines(WrongAnswers(cards[..k + 1], answers + [answer]), wrap)
        == LogLines(WrongAnswers(cards[..k], answers), wrap) + RecordLines(cards[k], answer, wrap)
  {
    var k := |answers|;
    var before := WrongAnswers(cards[..k], answers);
    var after := WrongAnswers(cards[..k + 1], answers + [answer]);
    var w := WrongAnswer(cards[k], answer);
    assert after == before + (if IsCorrect(cards[k], answer) then [] else [w]) by {
      ScoreStep(cards, answers, k, answer);
    }
    if !IsCorrect(cards[k], answer) {
      assert LogLines(after, wrap) == LogLines(before, wrap) + LogLines([w], wrap) by {
        LogLinesAppend(before, [w], wrap);
      }
      LogLinesSingle(w, wrap);
    } else {
      assert after == before;
    }
  }

  /** The score and the log after the first `|answers|` questions: the
      number of right answers, and the records of the wrong ones. */
  predicate Scored(cards: seq<Card>, answers: seq<string>, correct: nat, lines: seq<string>, wrap: string -> string) {
    && |answers| <= |cards|
    && correct == CorrectCount(cards[..|answers|], answers)
    && lines == LogLines(WrongAnswers(cards[..|answers|], answers), wrap)
  }

  /** Nothing is scored before the first answer. */
  lemma ScoredStarts(cards: seq<Card>, wrap: string -> string)
    ensures Scored(cards, [], 0, [], wrap)
  {
  }

  /** Marking the next answer keeps the score and the log those of the
      answers so far: a right answer adds one to the count, a wrong one
      appends its record. */
  lemma ScoredStep(cards: seq<Card>, answers: seq<string>, correct: nat, lines: seq<string>, answer: string, wrap: string -> string)
    requires Scored(cards, answers, correct, lines, wrap) && |answers| < |cards|
    ensures var k := |answers|; var right := IsCorrect(cards[k], answer);
      Scored(cards, answers + [answer], correct + (if right then 1 else 0),
             lines + (if right then [] else RecordLines(cards[k], answer, wrap)), wrap)
  {
    var k := |answers|;
    var answers' := answers + [answer];
    assert |answers'| == k + 1;
    ScoreStep(cards, answers, k, answer);
    LogStep(cards, answers, answer, wrap);
    if IsCorrect(cards[k], answer) {
      assert lines + [] == lines;
    }
  }

  /** The loop after `|answers|` questions that took `used` replies: the
      whole transcript is those answers followed by the loop over the
      remaining questions on the remaining replies. */
  predicate Progress(total: Transcript, count: nat, showAnswer: bool, replies: seq<string>, answers: seq<string>, used: nat) {
    && |answers| <= count && used <= |replies|
    && total == Then(answers, used, Play(count - |answers|, showAnswer, replies, used))
  }

  /** The loop starts with nothing answered. */
  lemma ProgressStarts(count: nat, showAnswer: bool, replies: seq<string>)
    ensures Progress(Play(count, showAnswer, replies, 0), count, showAnswer, replies, [], 0)
  {
    var t := Play(count, showAnswer, replies, 0);
    assert [] + t.answers == t.answers;
  }

  /** A question answered and acknowledged moves the loop on by one
      question, past the replies its turn read. */
  lemma ProgressStep(total: Transcript, count: nat, showAnswer: bool, replies: seq<string>, answers: seq<string>, used: nat,
                     answer: string, step: nat)
    requires Progress(total, count, showAnswer, replies, answers, used) && |answers| < count
    requires NextTurn(showAnswer, replies, used) == Answered(answer, step, true)
    ensures Progress(total, count, showAnswer, replies, answers + [answer], used + step)
  {
    var c := count - |answers|;
    var after := Play(c - 1, showAnswer, replies, used + step);
    assert Play(c, showAnswer, replies, used) == Then([answer], step, after);
    ThenAssociates(answers, used, [answer], step, after);
    var answers' := answers + [answer];
    assert count - |answers'| == c - 1;
  }

  /** When answers are shown and the input ends right after an answer, the
      loop ends with that answer given. */
  lemma ProgressAckMissing(total: Transcript, count: nat, showAnswer: bool, replies: seq<string>, answers: seq<string>, used: nat)
    requires Progress(total, count, showAnswer, replies, answers, used) && |answers| < count
    requires NextTurn(showAnswer, replies, used).Answered? && !NextTurn(showAnswer, replies, used).acked
    ensures total == Transcript(answers + [NextTurn(showAnswer, replies, used).answer], false, |replies|)
  {
  }

  /** Running out of input while waiting for an answer ends the loop with the
      answers given so far. */
  lemma ProgressStops(total: Transcript, count: nat, showAnswer: bool, replies: seq<string>, answers: seq<string>, used: nat)
    requires Progress(total, count, showAnswer, replies, answers, used) && |answers| < count
    requires NextTurn(showAnswer, replies, used) == Exhausted
    ensures total == Transcript(answers, false, |replies|)
  {
    assert answers + [] == answers;
  }

  /** Once every question is answered the loop is finished. */
  lemma ProgressEnds(total: Transcript, count: nat, showAnswer: bool, replies: seq<string>, answers: seq<string>, used: nat)
    requires Progress(total, count, showAnswer, replies, answers, used) && |answers| == count
    ensures total == Transcript(answers, true, used)
  {
    assert answers + [] == answers;
  }
}
