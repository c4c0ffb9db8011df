/** Record shapes shared by the generation endpoint and the study view. */
module Types {

  /** A value that may be absent: an optional field, a failed parse, a missing reply field. */
  datatype Option<T> = None | Some(value: T)

  /** One question/answer card; the three optional fields are carried but never inspected. */
  datatype Flashcard = Flashcard(
    id: Option<string>,
    question: string,
    answer: string,
    createdAt: Option<string>,
    deckName: Option<string>)

  /** A saved deck as the document database returns it. The field `id` stands for the
      document's `$id`, renamed because a Dafny identifier cannot contain `$`. */
  datatype FlashcardDeck = FlashcardDeck(
    id: string,
    name: string,
    flashcards: seq<Flashcard>,
    createdAt: string,
    updatedAt: string)
}
