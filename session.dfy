/** The study view's local state as a value, its transitions, and what runs of transitions keep. */
module Session {
  import opened Types

  datatype StudyStats = StudyStats(correct: nat, incorrect: nat)

  /** Number of cards marked since the counters were last reset. */
  function Answered(s: StudyStats): nat {
    s.correct + s.incorrect
  }

  /** The counters that a history of marks, oldest first, produces from zero. */
  function Tally(marks: seq<bool>): (r: StudyStats)
    ensures r.correct + r.incorrect == |marks|
    decreases |marks|
  {
    if marks == [] then StudyStats(0, 0)
    else Record(Tally(marks[..|marks| - 1]), marks[|marks| - 1])
  }

  /** Marking one more answer records it on top of the earlier ones. */
  lemma TallyAppend(marks: seq<bool>, b: bool)
    ensures Tally(marks + [b]) == Record(Tally(marks), b)
  {
    assert (marks + [b])[..|marks|] == marks;
  }

  /** The part of the view that the card transitions read and write. */
  datatype ViewState = ViewState(
    flashcards: seq<Flashcard>,
    currentCard: int,
    showAnswer: bool,
    isStudyMode: bool,
    stats: StudyStats)

  /** The component's initial state. */
  const Initial := ViewState([], 0, false, false, StudyStats(0, 0))

  /** The card index points at a card, or is 0 when there are none. */
  predicate InBounds(v: ViewState) {
    0 <= v.currentCard
    && (|v.flashcards| == 0 ==> v.currentCard == 0)
    && (|v.flashcards| > 0 ==> v.currentCard < |v.flashcards|)
  }

  /** `nextCard`: advance and hide the answer unless already on the last card. */
  function NextCard(v: ViewState): (r: ViewState)
    ensures r.flashcards == v.flashcards && r.stats == v.stats && r.isStudyMode == v.isStudyMode
    ensures r != v ==> r.currentCard == v.currentCard + 1 && !r.showAnswer
    ensures r.currentCard == v.currentCard + 1 <==> v.currentCard < |v.flashcards| - 1
    ensures InBounds(v) ==> InBounds(r)
  {
    if v.currentCard < |v.flashcards| - 1 then
      v.(currentCard := v.currentCard + 1, showAnswer := false)
    else
      v
  }

  /** `prevCard`: step back and hide the answer unless already on the first card. */
  function PrevCard(v: ViewState): (r: ViewState)
    ensures r.flashcards == v.flashcards && r.stats == v.stats && r.isStudyMode == v.isStudyMode
    ensures r != v ==> r.currentCard == v.currentCard - 1 && !r.showAnswer
    ensures r.currentCard == v.currentCard - 1 <==> v.currentCard > 0
    ensures InBounds(v) ==> InBounds(r)
  {
    if v.currentCard > 0 then
      v.(currentCard := v.currentCard - 1, showAnswer := false)
    else
      v
  }

  /** The counter update of `markAnswer`: exactly one of the two counters grows by one. */
  function Record(s: StudyStats, correct: bool): (r: StudyStats)
    ensures r.correct + r.incorrect == s.correct + s.incorrect + 1
    ensures correct ==> r.correct == s.correct + 1 && r.incorrect == s.incorrect
    ensures !correct ==> r.incorrect == s.incorrect + 1 && r.correct == s.correct
  {
    if correct then StudyStats(s.correct + 1, s.incorrect)
    else StudyStats(s.correct, s.incorrect + 1)
  }

  /** `markAnswer`, with its delayed `nextCard` applied at once. */
  function MarkAnswer(v: ViewState, correct: bool): (r: ViewState)
    ensures Answered(r.stats) == Answered(v.stats) + 1
    ensures r == NextCard(v.(stats := Record(v.stats, correct)))
    ensures InBounds(v) ==> InBounds(r)
  {
    NextCard(v.(stats := Record(v.stats, correct)))
  }

  /** `loadDeck`: show the deck's first card, question side, in study mode, counters zeroed. */
  function LoadDeck(v: ViewState, deck: FlashcardDeck): (r: ViewState)
    ensures r.flashcards == deck.flashcards && r.currentCard == 0
    ensures !r.showAnswer && r.isStudyMode && Answered(r.stats) == 0
    ensures InBounds(r)
  {
    ViewState(deck.flashcards, 0, false, true, StudyStats(0, 0))
  }

  /** The state update of a successful `generateFlashcards`: as `loadDeck`, but the counters stay. */
  function ShowGenerated(v: ViewState, cards: seq<Flashcard>): (r: ViewState)
    ensures r.flashcards == cards && r.currentCard == 0
    ensures !r.showAnswer && r.isStudyMode && r.stats == v.stats
    ensures InBounds(r)
  {
    v.(flashcards := cards, currentCard := 0, showAnswer := false, isStudyMode := true)
  }

  /** The Show/Hide Answer button. */
  function FlipAnswer(v: ViewState): (r: ViewState)
    ensures r.showAnswer == !v.showAnswer && r.(showAnswer := v.showAnswer) == v
  {
    v.(showAnswer := !v.showAnswer)
  }

  /** The Study Mode / Exit Study Mode button. */
  function FlipStudyMode(v: ViewState): (r: ViewState)
    ensures r.isStudyMode == !v.isStudyMode && r.(isStudyMode := v.isStudyMode) == v
  {
    v.(isStudyMode := !v.isStudyMode)
  }

  // ---------------------------------------------------------------------------
  // Runs of user actions
  // ---------------------------------------------------------------------------

  datatype Event =
    | Next
    | Prev
    | Mark(correct: bool)
    | ToggleAnswer
    | ToggleStudyMode
    | Load(deck: FlashcardDeck)
    | Generated(cards: seq<Flashcard>)

  function Step(v: ViewState, e: Event): ViewState {
    match e
    case Next => NextCard(v)
    case Prev => PrevCard(v)
    case Mark(b) => MarkAnswer(v, b)
    case ToggleAnswer => FlipAnswer(v)
    case ToggleStudyMode => FlipStudyMode(v)
    case Load(d) => LoadDeck(v, d)
    case Generated(cs) => ShowGenerated(v, cs)
  }

  /** The state after the actions `es`, in order. */
  function Run(v: ViewState, es: seq<Event>): ViewState
    decreases |es|
  {
    if es == [] then v else Run(Step(v, es[0]), es[1..])
  }

  /** Number of `Mark(b)` actions in `es`. */
  function CountMarks(es: seq<Event>, b: bool): nat {
    if es == [] then 0
    else (if es[0] == Mark(b) then 1 else 0) + CountMarks(es[1..], b)
  }

  predicate NoLoads(es: seq<Event>) {
    forall k :: 0 <= k < |es| ==> !es[k].Load?
  }

  /** Whatever the user does, the card index stays in range. */
  lemma {:induction false} RunKeepsBounds(v: ViewState, es: seq<Event>)
    requires InBounds(v)
    ensures InBounds(Run(v, es))
    decreases |es|
  {
    if es != [] {
      RunKeepsBounds(Step(v, es[0]), es[1..]);
    }
  }

  /** Without a deck load the counters grow by exactly the marks of each kind; so
      `correct + incorrect` grows by the number of `markAnswer` calls. */
  lemma {:induction false} RunCountsMarks(v: ViewState, es: seq<Event>)
    requires NoLoads(es)
    ensures Run(v, es).stats.correct == v.stats.correct + CountMarks(es, true)
    ensures Run(v, es).stats.incorrect == v.stats.incorrect + CountMarks(es, false)
    ensures Answered(Run(v, es).stats) == Answered(v.stats) + CountMarks(es, true) + CountMarks(es, false)
    decreases |es|
  {
    if es != [] {
      assert NoLoads(es[1..]) by {
        forall k | 0 <= k < |es[1..]| ensures !es[1..][k].Load? { assert es[1..][k] == es[k + 1]; }
      }
      RunCountsMarks(Step(v, es[0]), es[1..]);
    }
  }

  /** After a deck load, the counters hold exactly the marks made since. */
  lemma {:induction false} LoadThenCount(v: ViewState, d: FlashcardDeck, es: seq<Event>)
    requires NoLoads(es)
    ensures Run(v, [Load(d)] + es).stats == StudyStats(CountMarks(es, true), CountMarks(es, false))
  {
    var all := [Load(d)] + es;
    assert all[0] == Load(d) && all[1..] == es;
    assert Run(v, all) == Run(LoadDeck(v, d), es);
    RunCountsMarks(LoadDeck(v, d), es);
  }

  // ---------------------------------------------------------------------------
  // Accuracy
  // ---------------------------------------------------------------------------

  /** `Math.round(correct / (correct + incorrect) * 100)`, or 0 with nothing marked, on exact
      rationals: the integer nearest to 100 * correct / n, halves rounded up. */
  function Accuracy(s: StudyStats): (r: nat)
    ensures Answered(s) == 0 ==> r == 0
    ensures Answered(s) > 0 ==>
              200 * s.correct - Answered(s) < 2 * Answered(s) * r <= 200 * s.correct + Answered(s)
    ensures r <= 100
    ensures s.correct == 0 ==> r == 0
    ensures s.correct > 0 && s.incorrect == 0 ==> r == 100
  {
    var n := Answered(s);
    if n == 0 then 0
    else
      var x, d := 200 * s.correct + n, 2 * n;
      var r := x / d;
      Quotient(x, d, r);
      assert x < d * 101;
      Cancel(d, r, 101);
      if s.correct == 0 then
        assert x < d * 1;
        Cancel(d, r, 1);
        r
      else if s.incorrect == 0 then
        assert d * 100 <= x < d * 101;
        QuotientUnique(x, d, r, 100);
        r
      else
        r
  }

  /** Euclidean division places the dividend between two neighbouring multiples of the divisor. */
  lemma Quotient(x: nat, d: nat, q: int)
    requires d > 0 && q == x / d
    ensures q >= 0 && d * q <= x < d * q + d
  {
  }

  /** A product with a positive factor is strictly monotone in the other factor. */
  lemma Cancel(d: nat, a: int, b: int)
    requires d > 0 && d * a < d * b
    ensures a < b
  {
    assert d * a - d * b == d * (a - b);
  }

  /** Only one integer lies between the two neighbouring multiples. */
  lemma QuotientUnique(x: nat, d: nat, q: int, p: int)
    requires d > 0 && d * q <= x < d * q + d && d * p <= x < d * p + d
    ensures q == p
  {
    Cancel(d, q, p + 1);
    Cancel(d, p, q + 1);
  }
}
