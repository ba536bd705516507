# Quiz engine model

A Dafny model of the `Quiz` class of a terminal multiple-choice quiz (`quiz.py`).
A quiz is built from a list of question cards. Each card has a question number,
a question, its answer texts and the label of the correct answer. The class:

- asks how many questions to put in the quiz, whether to take them from the
  beginning or the end of the card list, whether to show the correct answer
  after each reply, and whether to keep the questions in order;
- selects that slice of the card list, shuffled unless the order is kept;
- runs the quiz, re-prompting until the user types one of A to D in either
  case;
- counts the right answers and writes each wrong one as a record to a log file
  named after the session's start time.

The modules follow the program's structure:

- `Intake` has the four configuration prompts, as functions of the replies typed.
- `Selection` has the Python slices and `random.shuffle`.
- `Session` has the quiz loop as a transcript of replies, plus scoring.
- `AnswerLog` has the log records, the log file and its name.
- `QuizEngine.Quiz` is the class itself, with its fields and methods.
- `Terminal.Console` is the input stream. `PyText` has the Python string
  primitives the class uses.

Each method of `Quiz` is proved against the functions of those modules, and
the properties of the quiz are lemmas about those functions.

Choices that stand in for what the model cannot see:

- The user's input is the list of replies not read yet.
  - `input()` takes the first reply.
  - The end of the stream, where Python raises `EOFError`, is `None`.
  - Inside the question-count prompt, the bare `except` also catches the
    end of input. The count then defaults to the number of cards, as for
    any other failure.
  - At every other prompt, running out of input stops the operation, which
    returns `ok == false`.
- `random.shuffle` is CPython's Fisher–Yates loop. It is driven by a parameter
  `draw`: `draw(k)` is the `k`-th random draw, reduced into range.
- `textwrap.TextWrapper().fill` is the parameter `wrap`.
- `str(datetime.now())` is the parameter `timestamp`.
- `__init__` is split into a constructor, which sets the fields, and
  `Initialize`, which runs the prompts and selects the quiz's cards.

Slices are Python's, negative bounds included. So a question count of 0 or
below, which the count prompt accepts (it only rejects counts above the number
of cards), selects what Python selects: `cards[-0:]` is the whole list
(`SelectLength`).

## Model

| member | source | states |
|---|---|---|
| Cards.IsLabelCases | quiz.py:198 | the accepted answer labels are exactly "A", "B", "C" and "D" |
| PyText.Lower | quiz.py:64 | `str.lower()` on ASCII letters; `LowerIsLetter` states which replies lower-case to a given letter |
| PyText.LowerIsLetter | quiz.py:64 | the replies that lower-case to a one-letter string are that letter and its capital, and nothing else |
| PyText.Upper | quiz.py:198 | `str.upper()` on ASCII letters; `UpperIsLetter` states which replies upper-case to a given letter |
| PyText.UpperIsLetter | quiz.py:198 | the replies that upper-case to a capital letter are that letter and its small form, and nothing else |
| PyText.ParseInt | quiz.py:72 | `int(s)` on ASCII text, `None` where Python raises ValueError, including for more than 4300 digits; `ParseIntOfIntToString` and `ParseIntRejects` state its properties |
| PyText.ParseIntOfIntToString | quiz.py:72 | `int()` reads back every integer of at most 4300 digits written the way Python prints it, negative ones included, and rejects every longer one |
| PyText.ParseIntRejects | quiz.py:72 | `int()` rejects the empty reply and every reply without a digit |
| PyText.BeforeFirst | quiz.py:148 | `split(".")[0]` is the longest prefix without a dot, and the character after it is the dot |
| Terminal.FirstMatch | quiz.py:98-101 | where a re-prompt loop stops: the position of a reply that the loop accepts, within the replies |
| Terminal.FirstMatchCases | quiz.py:98-101 | a re-prompt loop stops at a reply with no acceptable reply before it, and finds none exactly when no reply is acceptable |
| Terminal.Console.Input | quiz.py:64 | reading takes the first unread reply, or reports the end of input and changes nothing |
| Terminal.Console.InputUntil | quiz.py:197-199 | re-prompting consumes the replies up to and including the first acceptable one and returns it, or consumes all of them and reports the end of input |
| Intake.CountIntake | quiz.py:71-78 | the question count never exceeds the number of cards, and the prompt reads no more replies than there are |
| Intake.CountIntakeCases | quiz.py:71-78 | every reply before the last one read parses to a number above the card count; the last one is either a number up to it, which becomes the count, or a reply `int()` rejects, which gives the card count; with no reply, the count is the card count |
| Intake.CountIntakeDefaultsOnParseFailure | quiz.py:76-78 | a reply that does not parse, after replies that were all too large, ends the prompt with the card count |
| Intake.CountIntakeRejectsLongNumbers | quiz.py:72-78 | a number with more than 4300 digits is not asked again as too large: `int()` rejects it, so the count is the number of cards after that one reply |
| Intake.CountIntakeAcceptsNonPositive | quiz.py:72-74 | a reply, at any position, that `int()` reads as 0 or a negative number is taken as the count at once, because the loop only checks the upper bound; so is any such number written the way Python prints it, when it has at most 4300 digits |
| Intake.CountIntakeReasksWhileTooLarge | quiz.py:74-78 | after any run of numbers above the card count, each read once, the next reply decides: a number up to the card count is the count and a reply `int()` rejects gives the card count; running out of replies after the run gives the card count too |
| Intake.RangeIntake | quiz.py:80-84 | the range prompts read one reply, or two when a range is asked for, and never past the end of the input; `RangeIntakeCases` states what they settle on |
| Intake.RangeIntakeCases | quiz.py:80-84 | a range is kept exactly when the first reply is "y" or "Y", and it is then the next reply verbatim; the input runs out only at one of those two prompts |
| Intake.RevealIntake | quiz.py:91-101 | the reveal prompts read at least one reply and never past the end of the input; `RevealIntakeCases` states what they settle on |
| Intake.RevealIntakeCases | quiz.py:91-101 | the reveal flag is always "y" or "n"; an empty first reply gives "y"; a yes/no first reply gives its lower case; otherwise the first later yes/no reply decides, and the input runs out exactly when there is none |
| Intake.RevealIntakeCaseInsensitive | quiz.py:97 | "Y" and "y" both give "y", and "N" and "n" both give "n" |
| Intake.RevealIntakeDefaultsOnlyFirst | quiz.py:94-101 | whenever the first reply is neither empty nor "y" or "n" in either case, the flag is settled by a later reply that is itself "y" or "n" in either case, so an empty re-try is never read as "y" |
| Intake.OrderIntake | quiz.py:64 | the order prompt reads exactly one reply, and only when there is one; `OrderIntakeCases` states what it settles on |
| Intake.OrderIntakeCases | quiz.py:64 | the questions stay in order exactly when the reply is "y" or "Y"; every other reply, the empty one included, shuffles |
| Intake.ConfigIntake | quiz.py:51-56 | setting up a quiz reads no more replies than were typed; `ConfigIntakeOf` and `ConfigIntakeValid` state what it settles on |
| Intake.ConfigIntakeOf | quiz.py:51-56 | the settings are what the four prompts read, in the order count, range, reveal, order, each starting where the previous one stopped |
| Intake.ConfigIntakeStopsAtRange | quiz.py:51 | once the count is settled, setting up fails when the input runs out before the range prompts settle |
| Intake.ConfigIntakeStopsAtReveal | quiz.py:51-52 | once count and range are settled, setting up fails when the input runs out before the reveal prompts settle |
| Intake.ConfigIntakeStopsAtOrder | quiz.py:51-56 | once count, range and reveal are settled, setting up fails when no reply is left for the order prompt |
| Intake.ConfigIntakeValid | quiz.py:51-56 | a configured quiz never asks more questions than there are cards, has a reveal flag of "y" or "n" and reads no more replies than were typed; failure is only ever the input running out |
| Intake.ExtraRepliesConfigure | quiz.py:51-56 | any replies followed by "0", "n", "n", "n" configure a quiz |
| Selection.SliceIndex | quiz.py:111-117 | a Python slice bound always lands inside the list |
| Selection.Select | quiz.py:109-117 | the slice of the card list a count and a range select; `SelectWithinBounds`, `SelectLength` and `SelectDrawsWithoutRepetition` state its properties |
| Selection.SelectWithinBounds | quiz.py:109-117 | for a count from 1 to the number of cards, range "2" takes the last `n` cards and every other range takes the first `n`, in their order |
| Selection.SelectLength | quiz.py:109-117 | the number and position of the selected cards for every count: `min(n, N)` for a positive count; all of them for 0 from the end and none otherwise; `N + n` for a negative count, the last ones with range "2" and the first ones otherwise |
| Selection.SelectDrawsWithoutRepetition | quiz.py:109-117 | the selection is a sub-multiset of the card list, and has no duplicates when the card list has none |
| Selection.Shuffled | quiz.py:120 | `random.shuffle` of a list, given the draws; `ShuffledPermutes` and `ShuffleStepsTopDraws` state its properties |
| Selection.ShuffledPermutes | quiz.py:119-120 | a shuffle keeps the length and the multiset of the cards |
| Selection.ShuffleStepsTopDraws | quiz.py:119-120 | when every draw picks the top position, the shuffle leaves the list unchanged |
| Selection.SwapAt | quiz.py:119-120 | swapping in place leaves the array holding the list with the two positions exchanged |
| Selection.Shuffle | quiz.py:119-120 | the in-place shuffle loop leaves the array holding `Shuffled` of its old contents |
| Selection.Arrange | quiz.py:119-122 | the question list: the selection, shuffled unless the order is kept; `ArrangePermutes` states its properties |
| Selection.ArrangePermutes | quiz.py:119-122 | the question list keeps the selection's order when the order is kept, and is a permutation of it either way |
| Session.IsAnswer | quiz.py:198 | the test the answer prompt repeats until it passes; `IsAnswerIsLabel` and `IsAnswerCases` state which replies pass it |
| Session.IsAnswerIsLabel | quiz.py:198 | a reply is accepted exactly when its upper case is one of the four labels |
| Session.IsAnswerCases | quiz.py:198 | the accepted replies are exactly "a" to "d" and "A" to "D" |
| Session.IsCorrect | quiz.py:201 | the test that marks an answer right; `IsCorrectIgnoresCase` and `UnmatchableCard` state which replies pass it |
| Session.IsCorrectIgnoresCase | quiz.py:201 | against a capital-letter correct answer, a reply is right exactly when it is that letter in either case |
| Session.UnmatchableCard | quiz.py:201 | a card whose correct answer is not a label can never be answered right |
| Session.NextTurn | quiz.py:197-209 | one question reads an accepted answer, plus an acknowledgement only when answers are shown, and never more replies than there are |
| Session.NextTurnAtFirstMatch | quiz.py:197-209 | the answer is the first accepted reply; when answers are shown the reply after it is the acknowledgement; the input is exhausted exactly when no reply is accepted |
| Session.Play | quiz.py:189-209 | a session answers at most the quiz's questions, all of them when it finishes, and ends the input whenever it stops early |
| Session.ThenAssociates | quiz.py:189-209 | running questions one after the other does not depend on how the steps are grouped |
| Session.PlayAnswersAccepted | quiz.py:197-199 | every recorded answer is one of A to D in either case |
| Session.NextTurnAccepted | quiz.py:197-199 | without reveal, one question takes the first accepted reply and reads up to it |
| Session.PlayWithoutReveal | quiz.py:189-209 | without reveal, the answers are the first accepted replies, as many as there are questions, and the session finishes exactly when there are enough |
| Session.TakesFirstStep | quiz.py:189-209 | one more accepted answer before a session that took the first accepted replies extends what it took |
| Session.PlayWithReveal | quiz.py:197-209 | with reveal, each question takes the first accepted reply and reads the next reply as its acknowledgement whatever it says, so the next question starts two replies on; an answer with nothing after it is kept and the session stops unfinished; no accepted reply ends the session with no answer |
| Session.CorrectCount | quiz.py:201-202 | the score after the given answers; `ScoreAccounting`, `PerfectScoreIffEmptyLog` and `ScoreStep` state its properties |
| Session.WrongAnswers | quiz.py:203-205 | the wrong answers, with their cards, in question order; `WrongAnswersAtMismatches` and `ScoreStep` state its properties |
| Session.ScoreAccounting | quiz.py:201-205 | each answer is either counted right or logged, never both: the score plus the number of records is the number of answers |
| Session.CompletedSessionAccounts | quiz.py:189-205 | a session that reaches the end scores plus logs exactly as many cards as the quiz has |
| Session.WrongAnswersAtMismatches | quiz.py:201-205 | the log holds exactly the wrong answers, in question order: the `k`-th record is the card and reply at the `k`-th wrong position, and every wrong answer is among them |
| Session.WrongAnswersAtPositions | quiz.py:203-205 | record `k` is the card and reply at the `k`-th mismatch position |
| Session.MismatchPositions | quiz.py:201-205 | the mismatch positions are increasing, each is a wrong answer, and every wrong answer is among them |
| Session.PerfectScoreIffEmptyLog | quiz.py:201-205 | the score is perfect exactly when nothing is written to the log |
| Session.ScoreStep | quiz.py:201-205 | one more answer adds one to the score when it is right, and is added, with its card, to the end of the wrong answers when it is wrong |
| Session.LogStep | quiz.py:203-205 | one more wrong answer appends its record to the log, and a right one leaves the log unchanged |
| Session.ScoredStarts | quiz.py:181-183 | before any answer the score is 0 and the log is empty |
| Session.ScoredStep | quiz.py:201-205 | marking one more answer keeps the score and the log equal to the count and the records of the answers so far |
| Session.ProgressStarts | quiz.py:189 | the loop starts at the beginning of the session's transcript |
| Session.ProgressStep | quiz.py:189-209 | one acknowledged question moves the loop one step along the transcript |
| Session.ProgressAckMissing | quiz.py:207-209 | an answer without an acknowledgement ends the session unfinished at the end of the input |
| Session.ProgressStops | quiz.py:197-199 | running out of input at the answer prompt ends the session unfinished with the answers so far |
| Session.ProgressEnds | quiz.py:189-211 | answering every question ends the session finished where the loop stopped |
| AnswerLog.RecordLines | quiz.py:157-172 | the lines of one wrong-answer record; `RecordLayout` states their layout |
| AnswerLog.RecordLayout | quiz.py:157-172 | a record is the number and wrapped question, a separator, the wrapped answers in order, the reply in upper case, the correct label, a separator and an empty line: six lines plus one per answer |
| AnswerLog.SeparatorIsFortyDashes | quiz.py:162 | the separator is forty dashes |
| AnswerLog.LogLines | quiz.py:203-205 | the log of a list of wrong answers, their records one after the other; `LogLinesAppend`, `LogLinesSingle` and `LogLinesLength` state its properties |
| AnswerLog.LogLinesAppend | quiz.py:189-205 | the log of two runs of records is the first log followed by the second, so each record sits in the log as a block, in writing order |
| AnswerLog.LogLinesSingle | quiz.py:157-172 | the log of one wrong answer is its record |
| AnswerLog.LogLinesLength | quiz.py:157-172 | the log has six lines per record plus one per answer, and is empty exactly when there are no records |
| AnswerLog.LogStem | quiz.py:148-149 | the file name's stem made from the time stamp; `LogStemShape` and `LogStemOfTimestamp` state its properties |
| AnswerLog.LogFileName | quiz.py:148-151 | the log file's path; `LogFileNameInDirectory` states where it lands |
| AnswerLog.LogStemShape | quiz.py:148-149 | the file name's stem is the time stamp up to its first dot, with each space made `_` and each colon made `-`, so it holds no space, colon or dot |
| AnswerLog.BeforeFirstCommutes | quiz.py:148 | cutting at the first dot gives the same length before or after the spaces are replaced |
| AnswerLog.LogStemOfTimestamp | quiz.py:148-150 | a `date time.fraction` stamp names its file by the date and the time to the second, joined by `_`, with the time's colons made `-` |
| AnswerLog.LogFileNameInDirectory | quiz.py:150-151 | the log file is `<log directory>/<stem>.txt` |
| AnswerLog.LogFile.constructor | quiz.py:152 | opening a file for writing gives an empty, open file at that path |
| AnswerLog.LogFile.Write | quiz.py:161-172 | a write appends exactly one line to an open file |
| AnswerLog.LogFile.Close | quiz.py:211 | closing keeps the file's lines |
| QuizEngine.Quiz.constructor | quiz.py:43-49 | a new quiz has its cards, its console, the log directory "wrong_answers" and default settings |
| QuizEngine.Quiz.Initialize | quiz.py:51-57 | initialisation succeeds exactly when the prompts configure a quiz; the fields then hold those settings, the console has lost the replies read, and the quiz's cards are the selection, arranged |
| QuizEngine.Quiz.Configure | quiz.py:51-56 | the settings fields and the console are left as the four prompts determine, or the input ran out |
| QuizEngine.Quiz.InitQuestionsPerQuiz | quiz.py:67-84 | the count and range fields hold what the count and range prompts settle on, and exactly the replies those prompts read are consumed |
| QuizEngine.Quiz.InitShowAnswerImmediately | quiz.py:87-101 | the reveal field holds what the reveal prompt settles on, and exactly the replies it read are consumed |
| QuizEngine.Quiz.InitQuestionsOrder | quiz.py:60-64 | the order field holds what the order prompt settles on, and the one reply it read is consumed |
| QuizEngine.Quiz.GenerateQuiz | quiz.py:104-122 | the quiz's cards are the selected slice, shuffled by the given draws unless the order is kept |
| QuizEngine.Quiz.InitAnswersFile | quiz.py:144-154 | the log is a new empty open file at the name made from the time stamp |
| QuizEngine.Quiz.WriteToFile | quiz.py:157-172 | writing a wrong answer appends exactly its record to the log |
| QuizEngine.Quiz.StartQuiz | quiz.py:175-211 | after the start reply, the session reads the transcript `Play` gives; the score is its right answers, the log holds its wrong answers as records, and the log is closed exactly when every question was answered |
| QuizEngine.Quiz.AskQuestions | quiz.py:189-211 | the loop's score, log, consumed replies and outcome are those of the transcript of the whole quiz |
| QuizEngine.Quiz.AskNext | quiz.py:189-209 | one pass of the loop keeps the score and log in step with the answers and either advances the transcript or reaches its end |
| QuizEngine.Quiz.AskQuestion | quiz.py:197-209 | one question reads what `NextTurn` reads and marks the answer it finds |
| QuizEngine.Quiz.MarkAnswer | quiz.py:201-205 | a right answer adds one to the score; a wrong one appends its record to the log |

## Left out

- `choose_resources_directory` and `get_resource_directory` are not part of this model. They list resource directories on disk and prompt for one.
- Parsing the card list (the `CardList` class) is not part of this model: the cards are given. So is the duplicated `CardList` construction at line 48, whose only effect is the parse.
- `__clear` is left out: it only clears the terminal.
- `__create_wrong_answers_directory` is left out: `os.mkdir` and its "already exists" handling are file-system I/O.
- Opening, writing and closing the log are modelled as a list of written lines, without the newlines. Each `write` call is one line, except the last call of a record (`"-" * 40 + "\n\n"`, line 172), which is two: the separator and an empty line. Encodings are left out, so is the fallback write at lines 167-168: it writes the same answer unwrapped when wrapping or writing raises.
- `textwrap.TextWrapper().fill` is the parameter `wrap`; its line breaking is left out.
- `datetime.now()` is the parameter `timestamp`; the clock is left out.
- The randomness of `random.shuffle` is the parameter `draw`. Which permutations come out, and how likely each is, is left out.
- Everything printed is left out: the card shown before each prompt, the revealed correct answer, the final score line, and the prompt texts themselves, since they do not change any state.
- The score in percent (lines 216-217) is floating point and is left out. Note that, as `SelectLength` shows, a count of 0 yields an empty quiz (or with range "2" the whole list); with a count of 0 that division raises `ZeroDivisionError`.
- `KeyboardInterrupt` and other exceptions raised in the middle of a prompt are left out. Only the end of input is modelled.
- `PyText.Lower` and `PyText.Upper` map ASCII letters only. The user may type any character, but the quiz only compares the mapped replies with the ASCII constants "y", "n" and "A" to "D". No non-ASCII character lower-cases to "y" or "n" or upper-cases to one of "A" to "D", so no outcome of the quiz depends on the other characters' mapping.
- `PyText.ParseInt` accepts what `int()` accepts on ASCII text: surrounding space, tab, line feed, vertical tab, form feed or carriage return, a sign, and digits with single underscores between them, at most 4300 digits (CPython's default limit for converting text to an integer, which the quiz does not change). Unicode digits and white space, which `int()` also accepts in a text with non-ASCII characters, are left out.
- `PyText.PathJoin` is the POSIX `os.path.join`; the Windows variant is left out.
- `QuizEngine.Quiz.Initialize` stops at the first prompt that runs out of input and reports `ok == false`. Python raises `EOFError` there.
- `QuizEngine.Quiz.StartQuiz`: when the input runs out mid-quiz, Python raises `EOFError` and never reaches the `close()` at line 211. The model returns `ok == false` with the log not closed. The interpreter's own clean-up of the file object at exit is left out.
- `QuizEngine.Quiz.constructor` gives the settings fields placeholder values (the card count, no range, "y", shuffled, no cards), because Dafny fields must start with a value. The Python object has no such state before its prompts run; an `Initialize` that succeeds overwrites every one of them.
