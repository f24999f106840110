/** The state of one hangman game (the secret word and the ordered list of
    guessed letters) and the values the App component derives from it on
    every render. The number of language chips, `languages.length`, is the
    parameter `languageCount`. */
module GameState {

  datatype Option<+T> = None | Some(value: T)

  /** No letter occurs twice in `s`. */
  predicate NoDuplicates(s: string) {
    forall i, j :: 0 <= i < j < |s| ==> s[i] != s[j]
  }

  /** The set of letters occurring in `s`. */
  function Elems(s: string): set<char> {
    set c | c in s
  }

  /** `numberOfErrors`: wrong guesses tolerated before the game is lost. */
  function NumberOfErrors(languageCount: nat): (r: int)
    ensures r < languageCount
    ensures languageCount >= 1 ==> r >= 0
  {
    languageCount - 1
  }

  /** `wrongGuessArray`: the guessed letters that do not occur in the word,
      in guess order. */
  function WrongGuesses(word: string, guessed: string): (r: string)
    ensures |r| <= |guessed|
    ensures forall c :: c in r <==> c in guessed && c !in word
    decreases |guessed|
  {
    if guessed == [] then []
    else
      var k := |guessed| - 1;
      assert guessed == guessed[..k] + [guessed[k]];
      WrongGuesses(word, guessed[..k]) + (if guessed[k] in word then [] else [guessed[k]])
  }

  /** Filtering keeps every wrong guess as often as it was guessed and drops
      every correct one. */
  lemma {:induction false} WrongGuessesCounts(word: string, guessed: string, c: char)
    ensures multiset(WrongGuesses(word, guessed))[c] == if c in word then 0 else multiset(guessed)[c]
    decreases |guessed|
  {
    if guessed != [] {
      var k := |guessed| - 1;
      var prefix := guessed[..k];
      assert guessed == prefix + [guessed[k]];
      WrongGuessesCounts(word, prefix, c);
    }
  }

  /** `wrongGuessCount`. */
  function WrongGuessCount(word: string, guessed: string): (r: nat)
    ensures r <= |guessed|
    ensures r == 0 <==> forall i :: 0 <= i < |guessed| ==> guessed[i] in word
  {
    var wrong := WrongGuesses(word, guessed);
    assert wrong != [] ==> wrong[0] in wrong;
    |wrong|
  }

  /** `remainingErrors`: the attempts left, shown in the header. */
  function RemainingErrors(languageCount: nat, word: string, guessed: string): (r: int)
    ensures r <= 0 <==> IsGameLost(languageCount, word, guessed)
    ensures NumberOfErrors(languageCount) - |guessed| <= r <= NumberOfErrors(languageCount)
  {
    NumberOfErrors(languageCount) - WrongGuessCount(word, guessed)
  }

  /** `isGameLost`: the budget of wrong guesses is used up. */
  predicate IsGameLost(languageCount: nat, word: string, guessed: string)
    ensures IsGameLost(languageCount, word, guessed) ==> |guessed| >= NumberOfErrors(languageCount)
    ensures languageCount <= 1 ==> IsGameLost(languageCount, word, guessed)
  {
    WrongGuessCount(word, guessed) >= NumberOfErrors(languageCount)
  }

  /** `isGameWon`: every letter of the word has been guessed (vacuously so
      for an empty word). */
  predicate IsGameWon(word: string, guessed: string)
    ensures word == [] ==> IsGameWon(word, guessed)
    ensures IsGameWon(word, guessed) && word != [] ==> word[0] in guessed && guessed != []
  {
    forall i :: 0 <= i < |word| ==> word[i] in guessed
  }

  /** `isGameOver`. */
  predicate IsGameOver(languageCount: nat, word: string, guessed: string)
    ensures !IsGameOver(languageCount, word, guessed) ==>
      WrongGuessCount(word, guessed) < NumberOfErrors(languageCount) &&
      exists i :: 0 <= i < |word| && word[i] !in guessed
  {
    IsGameLost(languageCount, word, guessed) || IsGameWon(word, guessed)
  }

  /** `lastGuessedLetter`: undefined (None) before the first guess. */
  function LastGuessedLetter(guessed: string): (r: Option<char>)
    ensures r.None? <==> guessed == []
    ensures r.Some? ==> r.value in guessed
    ensures forall s, c :: guessed == s + [c] ==> r == Some(c)
  {
    if guessed == [] then None else Some(guessed[|guessed| - 1])
  }

  /** `isLastGuessIncorrect`: there is a last guess and it is not in the word. */
  predicate IsLastGuessIncorrect(word: string, guessed: string)
    ensures IsLastGuessIncorrect(word, guessed) ==> guessed != []
    ensures IsLastGuessIncorrect(word, guessed) ==> WrongGuessCount(word, guessed) >= 1
  {
    match LastGuessedLetter(guessed)
    case None => false
    case Some(letter) => letter !in word
  }

  /** The update `checkLetter` hands to `setGuessedLetters`: a letter already
      guessed leaves the list as it is, a new letter goes at its end. */
  function AddGuess(guessed: string, letter: char): (r: string)
    ensures |guessed| <= |r| <= |guessed| + 1
    ensures r[..|guessed|] == guessed
    ensures Elems(r) == Elems(guessed) + {letter}
    ensures |r| == |guessed| <==> letter in guessed
  {
    if letter in guessed then guessed else guessed + [letter]
  }

  /** Guessing the same letter twice is the same as guessing it once. */
  lemma AddGuessIdempotent(guessed: string, letter: char)
    ensures AddGuess(AddGuess(guessed, letter), letter) == AddGuess(guessed, letter)
  {
  }

  /** A list built by `AddGuess` never holds a letter twice. */
  lemma AddGuessKeepsNoDuplicates(guessed: string, letter: char)
    requires NoDuplicates(guessed)
    ensures NoDuplicates(AddGuess(guessed, letter))
  {
    if letter !in guessed {
      var r := guessed + [letter];
      forall i, j | 0 <= i < j < |r| ensures r[i] != r[j] {
        if j == |guessed| {
          assert r[i] == guessed[i];
        }
      }
    }
  }

  /** Without duplicates, the length of the list is the number of distinct
      letters guessed. */
  lemma {:induction false} NoDuplicatesLength(s: string)
    requires NoDuplicates(s)
    ensures |Elems(s)| == |s|
    decreases |s|
  {
    if s != [] {
      var k := |s| - 1;
      var prefix := s[..k];
      assert s == prefix + [s[k]];
      assert NoDuplicates(prefix);
      NoDuplicatesLength(prefix);
      assert s[k] !in prefix;
      assert Elems(s) == Elems(prefix) + {s[k]};
    }
  }

  /** Filtering distributes over an appended guess. */
  lemma WrongGuessesAppend(word: string, guessed: string, letter: char)
    ensures WrongGuesses(word, guessed + [letter])
         == WrongGuesses(word, guessed) + (if letter in word then [] else [letter])
  {
    var s := guessed + [letter];
    assert s[..|s| - 1] == guessed;
  }

  /** A repeated or correct guess leaves the wrong count as it is; a new
      wrong guess raises it by exactly one. */
  lemma WrongCountAfterGuess(word: string, guessed: string, letter: char)
    ensures WrongGuessCount(word, AddGuess(guessed, letter))
         == WrongGuessCount(word, guessed) + (if letter in guessed || letter in word then 0 else 1)
  {
    if letter !in guessed {
      WrongGuessesAppend(word, guessed, letter);
    }
  }

  /** Once lost, a game stays lost whatever is guessed next. */
  lemma LostStaysLost(languageCount: nat, word: string, guessed: string, letter: char)
    requires IsGameLost(languageCount, word, guessed)
    ensures IsGameLost(languageCount, word, AddGuess(guessed, letter))
  {
    WrongCountAfterGuess(word, guessed, letter);
  }

  /** Once won, a game stays won whatever is guessed next. */
  lemma WonStaysWon(word: string, guessed: string, letter: char)
    requires IsGameWon(word, guessed)
    ensures IsGameWon(word, AddGuess(guessed, letter))
  {
    var r := AddGuess(guessed, letter);
    forall i | 0 <= i < |word| ensures word[i] in r {
      assert word[i] in Elems(guessed);
    }
  }

  /** The game is won exactly when the word's letters are among the guesses. */
  lemma WonIffLettersCovered(word: string, guessed: string)
    ensures IsGameWon(word, guessed) <==> Elems(word) <= Elems(guessed)
  {
    if IsGameWon(word, guessed) {
      forall c | c in Elems(word) ensures c in Elems(guessed) {
        var i :| 0 <= i < |word| && word[i] == c;
      }
    }
    if Elems(word) <= Elems(guessed) {
      forall i | 0 <= i < |word| ensures word[i] in guessed {
        assert word[i] in Elems(word);
      }
    }
  }

  /** A wrong guess cannot complete the word: it leaves `isGameWon` as it was. */
  lemma WrongGuessKeepsWon(word: string, guessed: string, letter: char)
    requires letter !in word
    ensures IsGameWon(word, AddGuess(guessed, letter)) == IsGameWon(word, guessed)
  {
    var r := AddGuess(guessed, letter);
    if IsGameWon(word, r) {
      forall i | 0 <= i < |word| ensures word[i] in guessed {
        assert word[i] in Elems(r);
      }
    }
    if IsGameWon(word, guessed) {
      WonStaysWon(word, guessed, letter);
    }
  }

  /** Before the first guess: nothing is wrong, the last guess is undefined
      and not incorrect, and the game is lost only when no error is allowed. */
  lemma FreshGame(languageCount: nat, word: string)
    ensures WrongGuessCount(word, []) == 0
    ensures LastGuessedLetter([]) == None && !IsLastGuessIncorrect(word, [])
    ensures IsGameLost(languageCount, word, []) <==> languageCount <= 1
    ensures IsGameWon(word, []) <==> word == []
  {
    if word != [] {
      assert word[0] !in [];
    }
  }
}
