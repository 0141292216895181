/**
  The two record payloads of the system. The repository stores them behind an
  integer id (InMem.Record), so both are the non-id fields of the Go structs
  `pkg.Fact` and `trivia.Trivia`.
 */
module Entities {

  /** A `time.Time` value, kept opaque: nothing in the core inspects it. */
  datatype Instant = Instant(nanos: int)

  /** The zero `time.Time`, which JSON renders as 0001-01-01T00:00:00Z. */
  const ZeroTime: Instant := Instant(0)

  /** The payload of a fact: question, answer and creation time. */
  datatype Fact = Fact(question: string, answer: string, createdAt: Instant)

  /** The payload of a trivia item: a name and a creation time. */
  datatype Trivia = Trivia(name: string, createdAt: Instant)

  // ---------------------------------------------------------------------------
  // Request bodies, as the JSON decoder fills them

  /** A fact create request: question and answer, nothing else. */
  datatype SaveFactRequest = SaveFactRequest(question: string, answer: string) {

    /** The fact the save handler builds: the creation time is left at its zero value. */
    function ToFact(): Fact { Fact(question, answer, ZeroTime) }
  }

  /** A fact update request: question, answer and the creation time to store. */
  datatype UpdateFactRequest = UpdateFactRequest(question: string, answer: string, createdAt: Instant) {
    function ToFact(): Fact { Fact(question, answer, createdAt) }
  }

  /** A trivia create request: a name only. */
  datatype SaveTriviaRequest = SaveTriviaRequest(name: string) {
    function ToTrivia(): Trivia { Trivia(name, ZeroTime) }
  }

  /** A trivia update request: a name and the creation time to store. */
  datatype UpdateTriviaRequest = UpdateTriviaRequest(name: string, createdAt: Instant) {
    function ToTrivia(): Trivia { Trivia(name, createdAt) }
  }
}
