/** The App component's state: the secret word and the guessed letters,
    changed in place by its two handlers. The word source `chooseWord()` is
    an input: the constructor and `RestartGame` receive the chosen word. */
module App {
  import opened GameState

  class Game {
    /** `languages.length`, fixed for the life of the component. */
    const languageCount: nat
    /** `unknownWord`. */
    var unknownWord: string
    /** `guessedLetters`, in guess order. */
    var guessedLetters: string

    /** Guesses are only ever added by `CheckLetter` from an empty list, so
        none is repeated. */
    ghost predicate Valid()
      reads this
    {
      NoDuplicates(guessedLetters)
    }

    /** The initial state: a chosen word and no guesses. */
    constructor (languageCount: nat, word: string)
      ensures Valid()
      ensures this.languageCount == languageCount
      ensures unknownWord == word && guessedLetters == []
    {
      this.languageCount := languageCount;
      unknownWord := word;
      guessedLetters := [];
    }

    /** `checkLetter`: records a new guess at the end of the list and ignores
        a repeated one. The engine does not refuse guesses on a game that is
        over; the keyboard is disabled instead. */
    method CheckLetter(letter: char)
      requires Valid()
      modifies this
      ensures Valid()
      ensures guessedLetters == AddGuess(old(guessedLetters), letter)
      ensures letter in old(guessedLetters) ==> guessedLetters == old(guessedLetters)
      ensures letter !in old(guessedLetters) ==> guessedLetters == old(guessedLetters) + [letter]
      ensures unknownWord == old(unknownWord)
    {
      AddGuessKeepsNoDuplicates(guessedLetters, letter);
      if letter !in guessedLetters {
        guessedLetters := guessedLetters + [letter];
      }
    }

    /** `restartGame`: a newly chosen word (possibly the same one again) and
        no guesses. */
    method RestartGame(word: string)
      modifies this
      ensures Valid()
      ensures unknownWord == word && guessedLetters == []
    {
      unknownWord := word;
      guessedLetters := [];
    }
  }

  /** Two clicks on the same key leave the state as one click does, and a
      lost or won game stays so. */
  method CheckLetterTwice(game: Game, letter: char)
    requires game.Valid()
    modifies game
    ensures game.Valid()
    ensures game.unknownWord == old(game.unknownWord)
    ensures game.guessedLetters == AddGuess(old(game.guessedLetters), letter)
    ensures old(IsGameLost(game.languageCount, game.unknownWord, game.guessedLetters))
        ==> IsGameLost(game.languageCount, game.unknownWord, game.guessedLetters)
    ensures old(IsGameWon(game.unknownWord, game.guessedLetters))
        ==> IsGameWon(game.unknownWord, game.guessedLetters)
  {
    ghost var before := game.guessedLetters;
    game.CheckLetter(letter);
    game.CheckLetter(letter);
    AddGuessIdempotent(before, letter);
    if IsGameLost(game.languageCount, game.unknownWord, before) {
      LostStaysLost(game.languageCount, game.unknownWord, before, letter);
    }
    if IsGameWon(game.unknownWord, before) {
      WonStaysWon(game.unknownWord, before, letter);
    }
  }
}
