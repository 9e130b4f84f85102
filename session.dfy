/** The quiz session of src/App.jsx: the deck (`quizData`), the cursor
    (`currentIndex`), the reveal flag (`showAnswer`) and the `loading` flag,
    the transitions that change them, and what the component renders from them.
 */
module Quiz {
  import opened FisherYates
  import opened DatasetLoader

  datatype Option<T> = None | Some(value: T)

  /** Columns of a card, read by position. Column 0 is never shown. */
  const PromptColumn: nat := 1
  const HintColumn: nat := 2
  const AnswerColumn: nat := 3

  /** `card[k]`: a field the row does not have reads as `undefined`, here `None`. */
  function Field(card: Row, k: nat): (f: Option<string>)
    ensures f.Some? <==> k < |card|
    ensures f.Some? ==> f.value == card[k]
  {
    if k < |card| then Some(card[k]) else None
  }

  /** The answer area: the reveal button, or the answer text once revealed. */
  datatype AnswerArea = RevealButton | Answer(text: Option<string>)

  /** What the component renders. */
  datatype Screen =
    | LoadingMessage
    | NoDataMessage
    | CardScreen(position: nat, total: nat, prompt: Option<string>, hint: Option<string>, answer: AnswerArea)

  /** `(prev + 1) % quizData.length` for a non-empty deck: the next card, wrapping to the first. */
  function NextIndex(i: nat, n: nat): (r: nat)
    requires i < n
    ensures r < n
    ensures r == if i == n - 1 then 0 else i + 1
  {
    (i + 1) % n
  }

  /** The cursor after `k` advances from `i`. */
  function AdvanceTimes(i: nat, k: nat, n: nat): (r: nat)
    requires i < n
    ensures r < n
  {
    if k == 0 then i else NextIndex(AdvanceTimes(i, k - 1, n), n)
  }

  /** Up to one round, `k` advances move the cursor `k` places around the deck. */
  lemma {:induction false} AdvanceTimesWraps(i: nat, k: nat, n: nat)
    requires i < n && k <= n
    ensures AdvanceTimes(i, k, n) == if i + k < n then i + k else i + k - n
  {
    if k > 0 {
      AdvanceTimesWraps(i, k - 1, n);
    }
  }

  /** The number of advances from card `i` to card `c`. */
  function StepsTo(i: nat, c: nat, n: nat): (k: nat)
    requires i < n && c < n
    ensures k < n
  {
    if c >= i then c - i else c + n - i
  }

  /** Within one round of `n` advances every card comes up, and after `n` the cursor is back. */
  lemma EveryCardComesUp(i: nat, n: nat)
    requires i < n
    ensures AdvanceTimes(i, n, n) == i
    ensures forall c :: 0 <= c < n ==> AdvanceTimes(i, StepsTo(i, c, n), n) == c
  {
    AdvanceTimesWraps(i, n, n);
    forall c | 0 <= c < n ensures AdvanceTimes(i, StepsTo(i, c, n), n) == c {
      AdvanceTimesWraps(i, StepsTo(i, c, n), n);
    }
  }

  class Session {
    var quizData: seq<Row>
    var currentIndex: nat
    var showAnswer: bool
    var loading: bool

    /** The cursor is on a card whenever there is one; nothing is shown before the deck arrives. */
    ghost predicate Valid()
      reads this
    {
      (loading ==> quizData == []) &&
      (quizData == [] ==> currentIndex == 0 && !showAnswer) &&
      (quizData != [] ==> currentIndex < |quizData|)
    }

    /** The render gate lets a card, and with it the reveal and next buttons, through. */
    predicate Interactive()
      reads this
    {
      !loading && quizData != []
    }

    /** The initial `useState` values. */
    constructor ()
      ensures Valid()
      ensures quizData == [] && currentIndex == 0 && !showAnswer && loading
    {
      quizData := [];
      currentIndex := 0;
      showAnswer := false;
      loading := true;
    }

    /** The parse callback: the deck is the shuffle of the data rows, and loading ends. */
    method CompleteLoad(data: seq<Row>, rand: seq<nat>)
      requires Valid() && loading
      requires ValidDraws(rand, |StripHeader(data)|)
      modifies this
      ensures Valid() && !loading
      ensures quizData == Shuffled(StripHeader(data), rand)
      ensures currentIndex == 0 && !showAnswer
    {
      var deck := BuildDeck(data, rand);
      quizData := deck;
      loading := false;
    }

    /** The `catch` path: loading ends with the deck still empty. */
    method FailLoad()
      requires Valid() && loading
      modifies this
      ensures Valid() && !loading
      ensures quizData == [] && currentIndex == 0 && !showAnswer
    {
      loading := false;
    }

    /** `handleNext`: hide the answer, move to the next card, from the last card back to the first. */
    method Advance()
      requires Valid() && Interactive()
      modifies this
      ensures Valid() && Interactive()
      ensures quizData == old(quizData) && loading == old(loading)
      ensures !showAnswer
      ensures currentIndex == NextIndex(old(currentIndex), |quizData|)
    {
      showAnswer := false;
      currentIndex := (currentIndex + 1) % |quizData|;
    }

    /** The reveal button: show the answer. Calling it again changes nothing. */
    method Reveal()
      requires Valid() && Interactive()
      modifies this
      ensures Valid() && Interactive()
      ensures showAnswer
      ensures quizData == old(quizData) && currentIndex == old(currentIndex) && loading == old(loading)
    {
      showAnswer := true;
    }

    /** The render: the loading message, the no-data message, or the current card. */
    function View(): (v: Screen)
      requires Valid()
      reads this
      ensures loading ==> v == LoadingMessage
      ensures !loading && quizData == [] ==> v == NoDataMessage
      ensures v.CardScreen? <==> Interactive()
      ensures v.CardScreen? ==>
        1 <= v.position <= v.total && v.total == |quizData| && v.position == currentIndex + 1
      ensures v.CardScreen? ==>
        v.prompt == Field(quizData[currentIndex], PromptColumn) &&
        v.hint == Field(quizData[currentIndex], HintColumn)
      ensures v.CardScreen? ==>
        (v.answer.Answer? <==> showAnswer) &&
        (showAnswer ==> v.answer.text == Field(quizData[currentIndex], AnswerColumn))
    {
      if loading then LoadingMessage
      else if |quizData| == 0 then NoDataMessage
      else
        var card := quizData[currentIndex];
        CardScreen(currentIndex + 1, |quizData|, Field(card, PromptColumn), Field(card, HintColumn),
                   if showAnswer then Answer(Field(card, AnswerColumn)) else RevealButton)
    }
  }

  /** The end-to-end scenario: load the example data, reveal twice, advance once. */
  method ExampleSession(rand: seq<nat>) returns (s: Session)
    requires ValidDraws(rand, 2)
    ensures fresh(s) && s.Valid() && s.Interactive()
    ensures s.quizData == [ExampleRow1, ExampleRow2] || s.quizData == [ExampleRow2, ExampleRow1]
    ensures s.currentIndex == 1 && !s.showAnswer
  {
    s := new Session();
    assert s.View() == LoadingMessage;
    s.CompleteLoad(ExampleData, rand);
    ExampleDeck(ExampleHeader, ExampleRow1, ExampleRow2, rand);
    s.Reveal();
    s.Reveal();
    assert s.showAnswer && s.currentIndex == 0;
    assert s.View().answer.Answer?;
    s.Advance();
  }

  /** A dataset that holds only its header row ends on the no-data screen. */
  method HeaderOnlySession(header: Row, rand: seq<nat>) returns (s: Session)
    requires ValidDraws(rand, 0)
    ensures fresh(s) && s.Valid() && !s.Interactive()
    ensures s.quizData == [] && s.View() == NoDataMessage
  {
    s := new Session();
    s.CompleteLoad([header], rand);
    HeaderOnlyDeck(header, rand);
  }
}
