/** The `Quiz` class: the prompts that configure a quiz, the question list it
    generates, and the session that asks the questions, scores the answers
    and writes the wrong ones to the log file. Each method is stated against
    the functions of `Intake`, `Selection`, `Session` and `AnswerLog`. */
module QuizEngine {
  import opened Wrappers
  import opened PyText
  import opened Cards
  import opened Terminal
  import opened Intake
  import opened Selection
  import opened AnswerLog
  import opened Session

  class Quiz {
    /** The parsed card list. */
    const cards: seq<Card>
    /** The terminal the prompts read from. */
    const console: Console
    /** The directory the wrong-answer files are written to. */
    const logDirname: string

    var questionsPerQuiz: int
    var rangeSelection: Option<string>
    var showAnswerImmediately: string
    var questionsInOrder: bool
    var quizCards: seq<Card>

    /** The object before its prompts have run; `Initialize` runs them. */
    constructor (cards: seq<Card>, console: Console)
      ensures this.cards == cards && this.console == console && logDirname == "wrong_answers"
      ensures questionsPerQuiz == |cards| && rangeSelection == None
      ensures showAnswerImmediately == "y" && !questionsInOrder && quizCards == []
    {
      this.cards := cards;
      this.console := console;
      logDirname := "wrong_answers";
      questionsPerQuiz := |cards|;
      rangeSelection := None;
      showAnswerImmediately := "y";
      questionsInOrder := false;
      quizCards := [];
    }

    /** The rest of `__init__`: the prompts in their order, then the question
        list. `ok` is false when the input runs out at a prompt that does not
        catch EOFError; the settings are then those read so far. */
    method Initialize(draw: nat -> nat) returns (ok: bool)
      modifies this, console
      ensures var c := ConfigIntake(old(console.replies), |cards|);
        && ok == c.Some?
        && (!ok ==> console.replies == [])
        && (ok ==>
              && questionsPerQuiz == c.value.value.questionsPerQuiz
              && rangeSelection == c.value.value.rangeSelection
              && showAnswerImmediately == c.value.value.showAnswerImmediately
              && questionsInOrder == c.value.value.inOrder
              && console.replies == old(console.replies)[c.value.consumed..]
              && quizCards == Arrange(Select(cards, questionsPerQuiz, rangeSelection), questionsInOrder, draw))
    {
      ok := Configure();
      if ok {
        quizCards := GenerateQuiz(draw);
      }
    }

    /** The four prompts of `__init__`, in their order. */
    method Configure() returns (ok: bool)
      modifies this, console
      ensures var c := ConfigIntake(old(console.replies), |cards|);
        && ok == c.Some?
        && (!ok ==> console.replies == [])
        && (ok ==>
              && questionsPerQuiz == c.value.value.questionsPerQuiz
              && rangeSelection == c.value.value.rangeSelection
              && showAnswerImmediately == c.value.value.showAnswerImmediately
              && questionsInOrder == c.value.value.inOrder
              && console.replies == old(console.replies)[c.value.consumed..])
    {
      ghost var replies := console.replies;
      ghost var count := CountIntake(replies, 0, |cards|);
      ok := InitQuestionsPerQuiz();
      if !ok {
        ConfigIntakeStopsAtRange(replies, |cards|, count);
        return;
      }
      ghost var range := RangeIntake(replies, count.consumed).value;
      ghost var at := count.consumed + range.consumed;
      ok := InitShowAnswerImmediately(replies, at);
      if !ok {
        ConfigIntakeStopsAtReveal(replies, |cards|, count, range);
        return;
      }
      ghost var shown := RevealIntake(replies, at).value;
      ok := InitQuestionsOrder(replies, at + shown.consumed);
      if !ok {
        ConfigIntakeStopsAtOrder(replies, |cards|, count, range, shown);
        return;
      }
      ConfigIntakeOf(replies, |cards|, count, range, shown, OrderIntake(replies, at + shown.consumed).value);
    }

    /** `__init_questions_per_quiz`: the question count, then the optional
        range. Numbers above the number of cards are asked again; a reply
        `int()` rejects, or the end of the input, gives the number of cards,
        as the bare `except` does. */
    method InitQuestionsPerQuiz() returns (ok: bool)
      modifies this, console
      ensures var count := CountIntake(old(console.replies), 0, |cards|);
        var range := RangeIntake(old(console.replies), count.consumed);
        && questionsPerQuiz == count.value
        && ok == range.Some?
        && (ok ==> (rangeSelection == range.value.value
                    && console.replies == old(console.replies)[count.consumed + range.value.consumed..]))
        && (!ok ==> console.replies == [])
      ensures showAnswerImmediately == old(showAnswerImmediately)
      ensures questionsInOrder == old(questionsInOrder) && quizCards == old(quizCards)
    {
      var n := |cards|;
      ghost var replies := console.replies;
      ghost var used: nat := 0;
      var count: int := n;
      var settled := false;
      while !settled
        modifies console
        invariant used <= |replies| && console.replies == replies[used..]
        invariant !settled ==>
          CountIntake(replies, 0, n) == Prompted(CountIntake(replies, used, n).value, CountIntake(replies, used, n).consumed + used)
        invariant settled ==> CountIntake(replies, 0, n) == Prompted(count, used)
        decreases |console.replies| + (if settled then 0 else 1)
      {
        ghost var rest := console.replies;
        var reply := console.Input();
        if reply.None? {
          count := n;
          settled := true;
        } else {
          assert rest[1..] == replies[used + 1..];
          used := used + 1;
          match ParseInt(reply.value)
          case None =>
            count := n;
            settled := true;
          case Some(v) =>
            if v <= n {
              count := v;
              settled := true;
            }
        }
      }
      questionsPerQuiz := count;

      var useRange := console.Input();
      if useRange.None? {
        return false;
      }
      assert replies[used..][1..] == replies[used + 1..];
      if Lower(useRange.value) == "y" {
        var choice := console.Input();
        if choice.None? {
          return false;
        }
        assert replies[used + 1..][1..] == replies[used + 2..];
        rangeSelection := Some(choice.value);
      } else {
        rangeSelection := None;
      }
      ok := true;
    }

    /** `__init_show_answer_immediately`: an empty first reply means "y";
        replies are lower-cased and asked again until "y" or "n". */
    method InitShowAnswerImmediately(ghost replies: seq<string>, ghost from: nat) returns (ok: bool)
      requires from <= |replies| && console.replies == replies[from..]
      modifies this, console
      ensures var r := RevealIntake(replies, from);
        && ok == r.Some?
        && (ok ==> showAnswerImmediately == r.value.value && console.replies == replies[from + r.value.consumed..])
        && (!ok ==> console.replies == [])
      ensures questionsPerQuiz == old(questionsPerQuiz) && rangeSelection == old(rangeSelection)
      ensures questionsInOrder == old(questionsInOrder) && quizCards == old(quizCards)
    {
      var reply := console.Input();
      if reply.None? {
        return false;
      }
      assert replies[from..][1..] == replies[from + 1..];
      var answer := reply.value;
      if answer == "" {
        answer := "y";
      }
      answer := Lower(answer);
      if answer != "n" && answer != "y" {
        ghost var tail := console.replies;
        var again := console.InputUntil(IsYesNo);
        if again.None? {
          return false;
        }
        answer := Lower(again.value);
        ghost var i := FirstMatch(tail, IsYesNo).value;
        assert replies[from..][1..] == tail;
        assert tail[i + 1..] == replies[from + i + 2..];
      }
      showAnswerImmediately := answer;
      ok := true;
    }

    /** `__init_questions_order`: in order exactly when the reply lower-cases
        to "y". */
    method InitQuestionsOrder(ghost replies: seq<string>, ghost from: nat) returns (ok: bool)
      requires from <= |replies| && console.replies == replies[from..]
      modifies this, console
      ensures var r := OrderIntake(replies, from);
        && ok == r.Some?
        && (ok ==> questionsInOrder == r.value.value && console.replies == replies[from + r.value.consumed..])
        && (!ok ==> console.replies == [])
      ensures questionsPerQuiz == old(questionsPerQuiz) && rangeSelection == old(rangeSelection)
      ensures showAnswerImmediately == old(showAnswerImmediately) && quizCards == old(quizCards)
    {
      var reply := console.Input();
      if reply.None? {
        return false;
      }
      assert replies[from..][1..] == replies[from + 1..];
      questionsInOrder := Lower(reply.value) == "y";
      ok := true;
    }

    /** `__generate_quiz`: the slice the range asks for, shuffled in place
        unless the questions stay in order. */
    method GenerateQuiz(draw: nat -> nat) returns (selected: seq<Card>)
      ensures selected == Arrange(Select(cards, questionsPerQuiz, rangeSelection), questionsInOrder, draw)
    {
      var chosen: seq<Card>;
      if rangeSelection == Some("1") {
        chosen := Take(cards, questionsPerQuiz);
      } else if rangeSelection == Some("2") {
        chosen := From(cards, -questionsPerQuiz);
      } else {
        chosen := Take(cards, questionsPerQuiz);
      }
      var a := new Card[|chosen|](i requires 0 <= i < |chosen| => chosen[i]);
      assert a[..] == chosen;
      if !questionsInOrder {
        Shuffle(a, draw);
      }
      selected := a[..];
    }

    /** `__init_answers_file`: the log file named after the time stamp, opened
        empty. */
    method InitAnswersFile(timestamp: string) returns (file: LogFile)
      ensures fresh(file) && file.path == LogFileName(logDirname, timestamp)
      ensures file.lines == [] && !file.closed
    {
      var filename := BeforeFirst(ReplaceChar(timestamp, ' ', '_'), '.');
      filename := ReplaceChar(filename, ':', '-');
      filename := filename + ".txt";
      filename := PathJoin(logDirname, filename);
      file := new LogFile(filename);
    }

    /** `__write_to_file`: appends the record of one wrong answer. */
    method WriteToFile(file: LogFile, card: Card, answer: string, wrap: string -> string)
      requires !file.closed
      modifies file
      ensures file.lines == old(file.lines) + RecordLines(card, answer, wrap) && !file.closed
    {
      ghost var start := file.lines;
      var head := card.questionNumber + " " + wrap(card.question);
      file.Write(head);
      file.Write(Separator);
      ghost var written := [head, Separator];
      for i := 0 to |card.answers|
        invariant written == [head, Separator] + WrappedAnswers(card.answers[..i], wrap)
        invariant file.lines == start + written && !file.closed
      {
        assert WrappedAnswers(card.answers[..i + 1], wrap) == WrappedAnswers(card.answers[..i], wrap) + [wrap(card.answers[i])];
        file.Write(wrap(card.answers[i]));
        written := written + [wrap(card.answers[i])];
      }
      assert card.answers[..|card.answers|] == card.answers;
      file.Write(YourAnswerPrefix + Upper(answer));
      file.Write(CorrectAnswerPrefix + card.correctAnswer);
      file.Write(Separator);
      file.Write("");
      written := written + [YourAnswerPrefix + Upper(answer), CorrectAnswerPrefix + card.correctAnswer, Separator, ""];
      assert written == RecordLines(card, answer, wrap);
    }

    /** `start_quiz`: opens the log, waits for one reply, then asks every
        question of the quiz. Each right answer adds one to `correct`; each
        wrong one is written to the log. `ok` is false when the input runs out
        first; the log is then left open with what was written so far. */
    method StartQuiz(timestamp: string, wrap: string -> string) returns (ok: bool, correct: nat, file: LogFile)
      modifies console
      ensures fresh(file) && file.path == LogFileName(logDirname, timestamp)
      ensures old(console.replies) == [] ==>
        !ok && correct == 0 && file.lines == [] && !file.closed && console.replies == []
      ensures old(console.replies) != [] ==>
        var t := Play(|quizCards|, showAnswerImmediately == "y", old(console.replies)[1..], 0);
        var answered := quizCards[..|t.answers|];
        && ok == t.finished && file.closed == ok
        && correct == CorrectCount(answered, t.answers)
        && file.lines == LogLines(WrongAnswers(answered, t.answers), wrap)
        && console.replies == old(console.replies)[1 + t.consumed..]
    {
      file := InitAnswersFile(timestamp);
      var start := console.Input();
      if start.None? {
        return false, 0, file;
      }
      ok, correct := AskQuestions(quizCards, showAnswerImmediately == "y", file, wrap);
    }

    /** The loop of `start_quiz` over the quiz's cards: for each, the answer
        prompt is repeated until it is given one of A to D in either case, the
        answer is marked and, when answers are shown, one more reply is read.
        What it reads, answers and writes is the transcript `Play` describes. */
    method AskQuestions(questions: seq<Card>, showAnswer: bool, file: LogFile, wrap: string -> string)
      returns (ok: bool, correct: nat)
      requires file.lines == [] && !file.closed
      modifies console, file
      ensures var t := Play(|questions|, showAnswer, old(console.replies), 0);
        var answered := questions[..|t.answers|];
        && ok == t.finished && file.closed == ok
        && correct == CorrectCount(answered, t.answers)
        && file.lines == LogLines(WrongAnswers(answered, t.answers), wrap)
        && console.replies == old(console.replies)[t.consumed..]
    {
      correct := 0;
      ghost var replies := console.replies;
      ghost var total := Play(|questions|, showAnswer, replies, 0);
      ghost var answers: seq<string> := [];
      ghost var used: nat := 0;
      ProgressStarts(|questions|, showAnswer, replies);
      ScoredStarts(questions, wrap);
      var index := 0;
      var stopped := false;
      while index < |questions| && !stopped
        invariant index == |answers| <= |questions| && used <= |replies| && console.replies == replies[used..]
        invariant !stopped ==> Progress(total, |questions|, showAnswer, replies, answers, used)
        invariant stopped ==> total == Transcript(answers, false, used)
        invariant Scored(questions, answers, correct, file.lines, wrap) && !file.closed
        decreases |questions| - index, if stopped then 0 else 1
      {
        var answer, acked;
        answer, acked, correct, used := AskNext(questions, index, correct, file, wrap, showAnswer, total, answers, replies, used);
        if answer.None? {
          stopped := true;
        } else {
          answers := answers + [answer.value];
          index := index + 1;
          stopped := !acked;
        }
      }
      if !stopped {
        file.Close();
        ProgressEnds(total, |questions|, showAnswer, replies, answers, used);
      }
      ok := !stopped;
    }

    /** One pass of the loop, stated against the whole transcript `total`:
        after `answers` were given on the first `used` replies, the next
        question is asked; the loop then either goes on from the new position
        or has read the transcript to its end. */
    method AskNext(questions: seq<Card>, index: nat, correct: nat, file: LogFile, wrap: string -> string, showAnswer: bool,
                   ghost total: Transcript, ghost answers: seq<string>, ghost replies: seq<string>, ghost used: nat)
      returns (answer: Option<string>, acked: bool, newCorrect: nat, ghost next: nat)
      requires index == |answers| < |questions| && Scored(questions, answers, correct, file.lines, wrap) && !file.closed
      requires used <= |replies| && console.replies == replies[used..]
      requires Progress(total, |questions|, showAnswer, replies, answers, used)
      modifies console, file
      ensures !file.closed && next <= |replies| && console.replies == replies[next..]
      ensures answer.None? ==> total == Transcript(answers, false, next) && Scored(questions, answers, newCorrect, file.lines, wrap)
      ensures answer.Some? ==> Scored(questions, answers + [answer.value], newCorrect, file.lines, wrap)
      ensures answer.Some? && acked ==> Progress(total, |questions|, showAnswer, replies, answers + [answer.value], next)
      ensures answer.Some? && !acked ==> total == Transcript(answers + [answer.value], false, next)
    {
      ghost var turn := NextTurn(showAnswer, replies, used);
      answer, acked, newCorrect := AskQuestion(questions, index, correct, file, wrap, showAnswer, answers, replies, used);
      next := |replies|;
      if answer.None? {
        ProgressStops(total, |questions|, showAnswer, replies, answers, used);
      } else if acked {
        ProgressStep(total, |questions|, showAnswer, replies, answers, used, answer.value, turn.used);
        next := used + turn.used;
      } else {
        ProgressAckMissing(total, |questions|, showAnswer, replies, answers, used);
      }
    }

    /** One pass of the loop over question `index`, with the replies from
        position `from` of `replies` still to be read: the answer prompt is
        repeated up to the first reply from A to D in either case, the answer
        is marked, and, when answers are shown, the acknowledgement is read.
        What it reads is the turn `NextTurn` describes; `answer` is None when
        the input runs out at the prompt, and `acked` is false when it runs
        out at the acknowledgement. The count and the log go on being those
        of the answers so far. */
    method AskQuestion(questions: seq<Card>, index: nat, correct: nat, file: LogFile, wrap: string -> string,
                       showAnswer: bool, ghost answers: seq<string>, ghost replies: seq<string>, ghost from: nat)
      returns (answer: Option<string>, acked: bool, newCorrect: nat)
      requires index == |answers| < |questions| && Scored(questions, answers, correct, file.lines, wrap)
      requires !file.closed && from <= |replies| && console.replies == replies[from..]
      modifies console, file
      ensures !file.closed
      ensures match NextTurn(showAnswer, replies, from)
        case Exhausted =>
          answer == None && console.replies == replies[|replies|..] && file.lines == old(file.lines) && newCorrect == correct
        case Answered(reply, used, ack) =>
          && answer == Some(reply) && acked == ack
          && Scored(questions, answers + [reply], newCorrect, file.lines, wrap)
          && console.replies == (if ack then replies[from + used..] else replies[|replies|..])
    {
      NextTurnAtFirstMatch(showAnswer, replies, from);
      ghost var rest := replies[from..];
      answer := console.InputUntil(IsAnswer);
      acked := true;
      newCorrect := correct;
      if answer.None? {
        assert console.replies == [] == replies[|replies|..];
        return;
      }
      ghost var i := FirstMatch(rest, IsAnswer).value;
      assert rest[i] == replies[from + i];
      var right;
      right, newCorrect := MarkAnswer(questions, index, answer.value, correct, file, wrap, answers);
      if showAnswer {
        var ack := console.Input();
        acked := ack.Some?;
      }
      assert console.replies == rest[NextTurn(showAnswer, replies, from).used..];
    }

    /** Marks the answer to question `index`: right exactly when its
        upper-case form is the card's label. A right answer adds one to the
        count; a wrong answer's record is appended to the log. */
    method MarkAnswer(questions: seq<Card>, index: nat, answer: string, correct: nat, file: LogFile,
                      wrap: string -> string, ghost answers: seq<string>)
      returns (right: bool, newCorrect: nat)
      requires index == |answers| < |questions| && !file.closed
      requires Scored(questions, answers, correct, file.lines, wrap)
      modifies file
      ensures right == IsCorrect(questions[index], answer) && !file.closed
      ensures newCorrect == correct + (if right then 1 else 0)
      ensures file.lines == old(file.lines) + (if right then [] else RecordLines(questions[index], answer, wrap))
      ensures Scored(questions, answers + [answer], newCorrect, file.lines, wrap)
    {
      ScoredStep(questions, answers, correct, file.lines, answer, wrap);
      var card := questions[index];
      right := Upper(answer) == card.correctAnswer;
      newCorrect := correct;
      if !right {
        WriteToFile(file, card, answer, wrap);
      } else {
        newCorrect := correct + 1;
        assert old(file.lines) + [] == old(file.lines);
      }
    }
  }
}
