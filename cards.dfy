/** The cards the quiz is made of. They come from the card list parsed out of
    the resource directory, which this model takes as given. */
module Cards {

  /** One question card: the identifier printed before the question, the
      question text, the answer texts in the order they are shown, and the
      label of the correct answer. */
  datatype Card = Card(questionNumber: string, question: string, answers: seq<string>, correctAnswer: string)

  /** The labels an answer reply is checked against, whatever the number of
      answers on the card. */
  predicate IsLabel(s: string) {
    |s| == 1 && 'A' <= s[0] <= 'D'
  }

  /** The labels are the four strings "A", "B", "C" and "D". */
  lemma IsLabelCases(s: string)
    ensures IsLabel(s) <==> s == "A" || s == "B" || s == "C" || s == "D"
  {
    if IsLabel(s) {
      assert s == [s[0]];
    }
  }
}
