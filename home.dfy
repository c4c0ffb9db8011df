/** The study page component: its local state as fields and one method per event handler. */
module Home {
  import opened Types
  import JsText
  import Session

  /** The document handed to the database when a deck is saved (the timestamps are left out). */
  datatype DeckDraft = DeckDraft(name: string, flashcards: seq<Flashcard>)

  class StudyBuddy {
    var text: string
    var flashcards: seq<Flashcard>
    var currentCard: int
    var showAnswer: bool
    var deckName: string
    var isStudyMode: bool
    var studyStats: Session.StudyStats
    /** The answers marked since the counters were last reset, oldest first. */
    ghost var answers: seq<bool>

    /** The card-view part of the state. */
    function View(): Session.ViewState
      reads this
    {
      Session.ViewState(flashcards, currentCard, showAnswer, isStudyMode, studyStats)
    }

    /** The index stays in range and the counters tally the answers marked. */
    ghost predicate Valid()
      reads this
    {
      Session.InBounds(View()) && studyStats == Session.Tally(answers)
    }

    /** The state the component mounts with. */
    constructor ()
      ensures Valid()
      ensures View() == Session.Initial && text == "" && deckName == "" && answers == []
    {
      text := "";
      flashcards := [];
      currentCard := 0;
      showAnswer := false;
      deckName := "";
      isStudyMode := false;
      studyStats := Session.StudyStats(0, 0);
      answers := [];
    }

    /** The text area's change handler. */
    method SetText(t: string)
      requires Valid()
      modifies this
      ensures Valid()
      ensures text == t && View() == old(View()) && deckName == old(deckName) && answers == old(answers)
    {
      text := t;
    }

    /** The deck-name input's change handler. */
    method SetDeckName(n: string)
      requires Valid()
      modifies this
      ensures Valid()
      ensures deckName == n && View() == old(View()) && text == old(text) && answers == old(answers)
    {
      deckName := n;
    }

    /** `nextCard`. */
    method NextCard()
      requires Valid()
      modifies this
      ensures Valid()
      ensures View() == Session.NextCard(old(View()))
      ensures text == old(text) && deckName == old(deckName) && answers == old(answers)
    {
      if currentCard < |flashcards| - 1 {
        currentCard := currentCard + 1;
        showAnswer := false;
      }
    }

    /** `prevCard`. */
    method PrevCard()
      requires Valid()
      modifies this
      ensures Valid()
      ensures View() == Session.PrevCard(old(View()))
      ensures text == old(text) && deckName == old(deckName) && answers == old(answers)
    {
      if currentCard > 0 {
        currentCard := currentCard - 1;
        showAnswer := false;
      }
    }

    /** The `setStudyStats` updater of `markAnswer`: one counter grows, the answer joins the history. */
    method RecordAnswer(correct: bool)
      requires Valid()
      modifies this
      ensures Valid()
      ensures View() == old(View()).(stats := Session.Record(old(studyStats), correct))
      ensures answers == old(answers) + [correct]
      ensures text == old(text) && deckName == old(deckName)
    {
      Session.TallyAppend(answers, correct);
      studyStats := Session.Record(studyStats, correct);
      answers := answers + [correct];
    }

    /** `markAnswer`: count the answer, then move on (the delayed `nextCard`, applied at once). */
    method MarkAnswer(correct: bool)
      requires Valid()
      modifies this
      ensures Valid()
      ensures View() == Session.MarkAnswer(old(View()), correct)
      ensures answers == old(answers) + [correct]
      ensures text == old(text) && deckName == old(deckName)
    {
      RecordAnswer(correct);
      NextCard();
    }

    /** `loadDeck`. */
    method LoadDeck(deck: FlashcardDeck)
      requires Valid()
      modifies this
      ensures Valid()
      ensures View() == Session.LoadDeck(old(View()), deck)
      ensures answers == [] && text == old(text) && deckName == old(deckName)
    {
      flashcards := deck.flashcards;
      currentCard := 0;
      showAnswer := false;
      isStudyMode := true;
      studyStats := Session.StudyStats(0, 0);
      answers := [];
    }

    /** `generateFlashcards`. Returns the text posted to the endpoint, if any; `reply` is the
        `flashcards` field of the endpoint's reply (absent after an error status or a failed fetch). */
    method GenerateFlashcards(reply: Option<seq<Flashcard>>) returns (posted: Option<string>)
      requires Valid()
      modifies this
      ensures Valid()
      ensures posted == if JsText.IsBlank(text) then None else Some(text)
      ensures View() == if posted.Some? && reply.Some? then Session.ShowGenerated(old(View()), reply.value)
                        else old(View())
      ensures text == old(text) && deckName == old(deckName) && answers == old(answers)
    {
      var blank := JsText.IsBlank(text);
      if blank {
        return None;
      }
      posted := Some(text);
      if reply.Some? {
        flashcards := reply.value;
        currentCard := 0;
        showAnswer := false;
        isStudyMode := true;
      }
    }

    /** `saveFlashcardDeck`. Returns the document sent to the database, if any; `created` says
        whether the database accepted it, and only then is the deck name cleared. */
    method SaveFlashcardDeck(created: bool) returns (sent: Option<DeckDraft>)
      requires Valid()
      modifies this
      ensures Valid()
      ensures sent == if JsText.IsBlank(old(deckName)) || |flashcards| == 0 then None
                      else Some(DeckDraft(old(deckName), flashcards))
      ensures deckName == if sent.Some? && created then "" else old(deckName)
      ensures View() == old(View()) && text == old(text) && answers == old(answers)
    {
      if JsText.IsBlank(deckName) || |flashcards| == 0 {
        return None;
      }
      sent := Some(DeckDraft(deckName, flashcards));
      if created {
        deckName := "";
      }
    }

    /** The Show/Hide Answer button. */
    method ToggleAnswer()
      requires Valid()
      modifies this
      ensures Valid()
      ensures View() == Session.FlipAnswer(old(View()))
      ensures text == old(text) && deckName == old(deckName) && answers == old(answers)
    {
      showAnswer := !showAnswer;
    }

    /** The Study Mode / Exit Study Mode button. */
    method ToggleStudyMode()
      requires Valid()
      modifies this
      ensures Valid()
      ensures View() == Session.FlipStudyMode(old(View()))
      ensures text == old(text) && deckName == old(deckName) && answers == old(answers)
    {
      isStudyMode := !isStudyMode;
    }
  }
}
