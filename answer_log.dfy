/** The wrong-answer log: the file a session writes to, what one record in
    it looks like, and how the file is named after the session's start time.
    The file is modelled by the lines written to it; each line is the text of
    one `write` call without its final newline, and the last call of a
    record, which ends in two newlines, is a separator line and an empty one.
    `textwrap.TextWrapper().fill` is the parameter `wrap`. */
module AnswerLog {
  import opened PyText
  import opened Cards

  /** A wrongly answered question: the card and the reply as the user typed it. */
  datatype WrongAnswer = WrongAnswer(card: Card, answer: string)

  /** `"-" * 40` */
  const Separator: string := Repeat('-', 40)

  const YourAnswerPrefix: string := "Your answer: "
  const CorrectAnswerPrefix: string := "Correct answer: "

  /** The lines of one wrong-answer record. */
  function RecordLines(card: Card, answer: string, wrap: string -> string): seq<string> {
    [card.questionNumber + " " + wrap(card.question), Separator]
    + WrappedAnswers(card.answers, wrap)
    + [YourAnswerPrefix + Upper(answer), CorrectAnswerPrefix + card.correctAnswer, Separator, ""]
  }

  function WrappedAnswers(answers: seq<string>, wrap: string -> string): (r: seq<string>)
    ensures |r| == |answers| && forall i :: 0 <= i < |answers| ==> r[i] == wrap(answers[i])
  {
    seq(|answers|, i requires 0 <= i < |answers| => wrap(answers[i]))
  }

  /** A record is, in this order: the question number and the wrapped
      question; a separator; each answer of the card, wrapped, in the card's
      order; the reply in upper case; the correct label; a separator and an
      empty line. */
  lemma RecordLayout(card: Card, answer: string, wrap: string -> string)
    ensures var lines := RecordLines(card, answer, wrap);
      && |lines| == |card.answers| + 6
      && lines[0] == card.questionNumber + " " + wrap(card.question)
      && lines[1] == Separator
      && lines[2..2 + |card.answers|] == WrappedAnswers(card.answers, wrap)
      && (forall i :: 0 <= i < |card.answers| ==> lines[2 + i] == wrap(card.answers[i]))
      && lines[|lines| - 4] == YourAnswerPrefix + Upper(answer)
      && lines[|lines| - 3] == CorrectAnswerPrefix + card.correctAnswer
      && lines[|lines| - 2] == Separator && lines[|lines| - 1] == ""
  {
    var lines := RecordLines(card, answer, wrap);
    var n := |card.answers|;
    assert lines[2..2 + n] == WrappedAnswers(card.answers, wrap);
  }

  /** The separator is forty dashes. */
  lemma SeparatorIsFortyDashes()
    ensures |Separator| == 40 && forall i :: 0 <= i < 40 ==> Separator[i] == '-'
  {
  }

  /** The whole log: the records of the wrong answers, one after the other. */
  function LogLines(wrongs: seq<WrongAnswer>, wrap: string -> string): seq<string> {
    if wrongs == [] then []
    else
      var last := wrongs[|wrongs| - 1];
      LogLines(wrongs[..|wrongs| - 1], wrap) + RecordLines(last.card, last.answer, wrap)
  }

  /** The log of two runs of records is the log of the first followed by the
      log of the second; so each record sits in the log as a block, in the
      order the records were written. */
  lemma {:induction false} LogLinesAppend(a: seq<WrongAnswer>, b: seq<WrongAnswer>, wrap: string -> string)
    ensures LogLines(a + b, wrap) == LogLines(a, wrap) + LogLines(b, wrap)
    decreases |b|
  {
    if b != [] {
      var init := b[..|b| - 1];
      var last := b[|b| - 1];
      var record := RecordLines(last.card, last.answer, wrap);
      assert (a + b)[..|a + b| - 1] == a + init;
      assert (a + b)[|a + b| - 1] == last;
      assert LogLines(a + b, wrap) == LogLines(a + init, wrap) + record;
      LogLinesAppend(a, init, wrap);
      assert LogLines(b, wrap) == LogLines(init, wrap) + record;
    } else {
      assert a + b == a;
    }
  }

  lemma LogLinesSingle(w: WrongAnswer, wrap: string -> string)
    ensures LogLines([w], wrap) == RecordLines(w.card, w.answer, wrap)
  {
    assert [w][..0] == [];
  }

  /** The log has six lines per record plus one per answer of its card, and
      is empty exactly when there are no records. */
  lemma {:induction false} LogLinesLength(wrongs: seq<WrongAnswer>, wrap: string -> string)
    ensures |LogLines(wrongs, wrap)| == RecordsSize(wrongs)
    ensures LogLines(wrongs, wrap) == [] <==> wrongs == []
  {
    if wrongs != [] {
      var last := wrongs[|wrongs| - 1];
      RecordLayout(last.card, last.answer, wrap);
      LogLinesLength(wrongs[..|wrongs| - 1], wrap);
    }
  }

  function RecordsSize(wrongs: seq<WrongAnswer>): nat {
    if wrongs == [] then 0
    else RecordsSize(wrongs[..|wrongs| - 1]) + |wrongs[|wrongs| - 1].card.answers| + 6
  }

  // ----- file name -----

  /** The character a time stamp character becomes in the file name. */
  function Sanitised(c: char): char {
    if c == ' ' then '_' else if c == ':' then '-' else c
  }

  /** The file name's stem: spaces become `_`, the text is cut at its first
      `.` (dropping the fraction of a second), and colons become `-`. */
  function LogStem(timestamp: string): string {
    ReplaceChar(BeforeFirst(ReplaceChar(timestamp, ' ', '_'), '.'), ':', '-')
  }

  /** The log file's path: the stem with ".txt", inside the log directory. */
  function LogFileName(logDir: string, timestamp: string): string {
    PathJoin(logDir, LogStem(timestamp) + ".txt")
  }

  /** The stem, character by character: it is the time stamp up to its first
      `.`, with each space made `_` and each colon made `-`; so it holds no
      space, colon or dot. */
  lemma LogStemShape(timestamp: string)
    ensures var stem := LogStem(timestamp); var cut := BeforeFirst(timestamp, '.');
      && |stem| == |cut|
      && (forall i :: 0 <= i < |stem| ==> stem[i] == Sanitised(timestamp[i]))
      && cut == timestamp[..|cut|] && '.' !in cut
      && (|cut| < |timestamp| ==> timestamp[|cut|] == '.')
      && ' ' !in stem && ':' !in stem && '.' !in stem
  {
    var spaced := ReplaceChar(timestamp, ' ', '_');
    var cut := BeforeFirst(timestamp, '.');
    var cut' := BeforeFirst(spaced, '.');
    BeforeFirstCommutes(timestamp);
    assert |cut'| == |cut|;
    var stem := LogStem(timestamp);
    forall i | 0 <= i < |stem| ensures stem[i] == Sanitised(timestamp[i]) {
      assert cut'[i] == spaced[i];
    }
    assert ' ' !in stem && ':' !in stem && '.' !in stem by {
      forall i | 0 <= i < |stem| ensures stem[i] != ' ' && stem[i] != ':' && stem[i] != '.' {
        assert cut'[i] == spaced[i] && timestamp[i] == cut[i];
      }
    }
  }

  /** Cutting at the first dot does not depend on the spaces having been
      replaced, since neither space nor underscore is a dot. */
  lemma {:induction false} BeforeFirstCommutes(s: string)
    ensures |BeforeFirst(ReplaceChar(s, ' ', '_'), '.')| == |BeforeFirst(s, '.')|
  {
    if s != [] {
      var r := ReplaceChar(s, ' ', '_');
      assert r[1..] == ReplaceChar(s[1..], ' ', '_');
      BeforeFirstCommutes(s[1..]);
    }
  }

  /** A time stamp as `str(datetime.now())` prints it, a date, a space, a
      time and a fraction of a second after a dot, names its file by the date
      and the time to the second, the space made `_` and the time's colons
      made `-`. */
  lemma LogStemOfTimestamp(date: string, time: string, fraction: string)
    requires forall i :: 0 <= i < |date| ==> date[i] != ' ' && date[i] != ':' && date[i] != '.'
    requires forall i :: 0 <= i < |time| ==> time[i] != ' ' && time[i] != '.'
    ensures LogStem(date + " " + time + "." + fraction) == date + "_" + ReplaceChar(time, ':', '-')
  {
    var ts := date + " " + time + "." + fraction;
    var k := |date| + 1 + |time|;
    var expected := date + "_" + ReplaceChar(time, ':', '-');
    assert ts[k] == '.';
    assert forall i :: 0 <= i < k ==> ts[i] != '.' by {
      forall i | 0 <= i < k ensures ts[i] != '.' {
        if i < |date| { assert ts[i] == date[i]; }
        else if i > |date| { assert ts[i] == time[i - |date| - 1]; }
      }
    }
    LogStemShape(ts);
    var cut := BeforeFirst(ts, '.');
    assert |cut| == k;
    var stem := LogStem(ts);
    forall i | 0 <= i < k ensures stem[i] == expected[i] {
      if i < |date| { assert ts[i] == date[i]; }
      else if i > |date| { assert ts[i] == time[i - |date| - 1]; }
    }
  }

  /** The file always lands in the log
      directory when the time stamp does not start with a slash. */
  lemma LogFileNameInDirectory(logDir: string, timestamp: string)
    requires logDir != [] && logDir[|logDir| - 1] != '/'
    requires timestamp == [] || timestamp[0] != '/'
    ensures LogFileName(logDir, timestamp) == logDir + "/" + LogStem(timestamp) + ".txt"
  {
    var stem := LogStem(timestamp);
    LogStemShape(timestamp);
    var name := stem + ".txt";
    assert name[0] != '/' by {
      if |stem| > 0 { assert name[0] == stem[0] == Sanitised(timestamp[0]); } else { assert name[0] == '.'; }
    }
  }

  // ----- the open file -----

  /** A text file opened for writing: its path, the lines written so far and
      whether it has been closed. */
  class LogFile {
    const path: string
    var lines: seq<string>
    var closed: bool

    /** `open(path, "w")`: an empty file. */
    constructor (path: string)
      ensures this.path == path && lines == [] && !closed
    {
      this.path := path;
      lines := [];
      closed := false;
    }

    /** `write(line + "\n")` */
    method Write(line: string)
      requires !closed
      modifies this
      ensures lines == old(lines) + [line] && !closed
    {
      lines := lines + [line];
    }

    /** `close()` */
    method Close()
      modifies this
      ensures closed && lines == old(lines)
    {
      closed := true;
    }
  }
}
