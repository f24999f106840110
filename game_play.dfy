/** Sequences of guesses within one game: what `checkLetter` does when the
    player clicks keys one after another, with or without the keyboard
    being disabled once the game is over. */
module GamePlay {
  import opened GameState

  /** The guess list after `checkLetter` has been applied to each of
      `letters` in turn, starting from `guessed`. */
  function GuessAll(guessed: string, letters: string): (r: string)
    ensures |guessed| <= |r|
    ensures r[..|guessed|] == guessed
    decreases letters
  {
    if letters == [] then guessed
    else
      var next := AddGuess(guessed, letters[0]);
      var r := GuessAll(next, letters[1..]);
      assert r[..|guessed|] == r[..|next|][..|guessed|];
      r
  }

  /** The same clicks on the on-screen keyboard, which is disabled
      (`disabled={isGameOver}`) once the game is over: a click on an over
      game changes nothing. */
  function PlayWhileOpen(languageCount: nat, word: string, guessed: string, letters: string): (r: string)
    ensures |guessed| <= |r| <= |guessed| + |letters|
    ensures r[..|guessed|] == guessed
    decreases letters
  {
    if letters == [] then guessed
    else
      var next := if IsGameOver(languageCount, word, guessed) then guessed
                  else AddGuess(guessed, letters[0]);
      var r := PlayWhileOpen(languageCount, word, next, letters[1..]);
      assert r[..|guessed|] == r[..|next|][..|guessed|];
      r
  }

  /** Starting from a list without duplicates (the empty list of a new or
      restarted game), guessing never creates one. */
  lemma {:induction false} GuessAllKeepsNoDuplicates(guessed: string, letters: string)
    requires NoDuplicates(guessed)
    ensures NoDuplicates(GuessAll(guessed, letters))
    decreases letters
  {
    if letters != [] {
      AddGuessKeepsNoDuplicates(guessed, letters[0]);
      GuessAllKeepsNoDuplicates(AddGuess(guessed, letters[0]), letters[1..]);
    }
  }

  /** The letters in the list are those it started with plus those guessed. */
  lemma {:induction false} GuessAllElems(guessed: string, letters: string)
    ensures Elems(GuessAll(guessed, letters)) == Elems(guessed) + Elems(letters)
    decreases letters
  {
    if letters != [] {
      var first, rest := letters[0], letters[1..];
      var next := AddGuess(guessed, first);
      GuessAllElems(next, rest);
      assert GuessAll(guessed, letters) == GuessAll(next, rest);
      assert Elems(letters) == {first} + Elems(rest) by {
        assert letters == [first] + rest;
      }
    }
  }

  /** From a new game, the list holds each guessed letter exactly once: its
      length is the number of distinct letters guessed. */
  lemma DistinctGuessCount(letters: string)
    ensures NoDuplicates(GuessAll([], letters))
    ensures |GuessAll([], letters)| == |Elems(letters)|
  {
    GuessAllKeepsNoDuplicates([], letters);
    GuessAllElems([], letters);
    NoDuplicatesLength(GuessAll([], letters));
    assert Elems([]) == {};
  }

  /** Guessing every letter of the word, in any order and mixed with any
      other letters, wins the game. */
  lemma GuessAllWins(word: string, guessed: string, letters: string)
    requires Elems(word) <= Elems(letters)
    ensures IsGameWon(word, GuessAll(guessed, letters))
  {
    GuessAllElems(guessed, letters);
    WonIffLettersCovered(word, GuessAll(guessed, letters));
  }

  /** Guessing distinct letters that are all new just appends them. */
  lemma {:induction false} GuessAllDistinct(guessed: string, letters: string)
    requires NoDuplicates(guessed + letters)
    ensures GuessAll(guessed, letters) == guessed + letters
    decreases letters
  {
    if letters != [] {
      var c, rest := letters[0], letters[1..];
      var all := guessed + letters;
      assert all[|guessed|] == c;
      assert forall i :: 0 <= i < |guessed| ==> all[i] == guessed[i];
      assert c !in guessed;
      assert (guessed + [c]) + rest == all;
      GuessAllDistinct(guessed + [c], rest);
    }
  }

  /** Letters none of which occurs in the word are all wrong guesses. */
  lemma {:induction false} WrongGuessesAllWrong(word: string, letters: string)
    requires forall i :: 0 <= i < |letters| ==> letters[i] !in word
    ensures WrongGuesses(word, letters) == letters
    decreases |letters|
  {
    if letters != [] {
      var k := |letters| - 1;
      var prefix, last := letters[..k], letters[k];
      assert letters == prefix + [last];
      forall i | 0 <= i < |prefix| ensures prefix[i] !in word {
        assert prefix[i] == letters[i];
      }
      WrongGuessesAllWrong(word, prefix);
      WrongGuessesAppend(word, prefix, last);
    }
  }

  /** Distinct wrong letters: the game is lost exactly on the guess that
      brings the wrong count to `numberOfErrors`, and not before. */
  lemma LostExactlyAtBudget(languageCount: nat, word: string, letters: string, k: nat)
    requires NoDuplicates(letters)
    requires forall i :: 0 <= i < |letters| ==> letters[i] !in word
    requires k <= |letters|
    ensures WrongGuessCount(word, GuessAll([], letters[..k])) == k
    ensures IsGameLost(languageCount, word, GuessAll([], letters[..k])) <==> k >= NumberOfErrors(languageCount)
  {
    var prefix := letters[..k];
    assert [] + prefix == prefix;
    GuessAllDistinct([], prefix);
    WrongGuessesAllWrong(word, prefix);
  }

  /** What the engine keeps true while the keyboard is enabled: no letter is
      guessed twice, the wrong count never passes `numberOfErrors` (so the
      attempts left are never negative), and a game is never both won and
      lost. */
  predicate Sound(languageCount: nat, word: string, guessed: string) {
    && NoDuplicates(guessed)
    && WrongGuessCount(word, guessed) <= NumberOfErrors(languageCount)
    && !(IsGameLost(languageCount, word, guessed) && IsGameWon(word, guessed))
  }

  /** One click on an enabled keyboard keeps the engine sound. */
  lemma OpenGuessKeepsSound(languageCount: nat, word: string, guessed: string, letter: char)
    requires Sound(languageCount, word, guessed)
    requires !IsGameOver(languageCount, word, guessed)
    ensures Sound(languageCount, word, AddGuess(guessed, letter))
  {
    AddGuessKeepsNoDuplicates(guessed, letter);
    WrongCountAfterGuess(word, guessed, letter);
    if letter !in word {
      WrongGuessKeepsWon(word, guessed, letter);
    }
  }

  /** A new game (at least two language chips) is sound, and every sequence
      of clicks keeps it sound: win and loss never coincide and the attempts
      left stay between 0 and `numberOfErrors`. */
  lemma {:induction false} PlayKeepsSound(languageCount: nat, word: string, guessed: string, letters: string)
    requires Sound(languageCount, word, guessed)
    ensures Sound(languageCount, word, PlayWhileOpen(languageCount, word, guessed, letters))
    ensures 0 <= RemainingErrors(languageCount, word, PlayWhileOpen(languageCount, word, guessed, letters))
    decreases letters
  {
    if letters != [] {
      var next := if IsGameOver(languageCount, word, guessed) then guessed
                  else AddGuess(guessed, letters[0]);
      if !IsGameOver(languageCount, word, guessed) {
        OpenGuessKeepsSound(languageCount, word, guessed, letters[0]);
      }
      PlayKeepsSound(languageCount, word, next, letters[1..]);
    }
  }

  /** A new game with at least two language chips starts sound. */
  lemma NewGameSound(languageCount: nat, word: string)
    requires languageCount >= 2
    ensures Sound(languageCount, word, [])
  {
    FreshGame(languageCount, word);
  }

  /** Once over, further clicks leave the game exactly as it is. */
  lemma {:induction false} OverIsFinal(languageCount: nat, word: string, guessed: string, letters: string)
    requires IsGameOver(languageCount, word, guessed)
    ensures PlayWhileOpen(languageCount, word, guessed, letters) == guessed
    decreases letters
  {
    if letters != [] {
      OverIsFinal(languageCount, word, guessed, letters[1..]);
    }
  }

  /** Clicking r, e, a, c, t on a new game lists those letters in order. */
  lemma ReactClicks()
    ensures AddGuess(AddGuess(AddGuess(AddGuess(AddGuess([], 'r'), 'e'), 'a'), 'c'), 't') == "react"
  {
    assert AddGuess([], 'r') == ['r'];
    assert AddGuess(['r'], 'e') == ['r', 'e'];
    assert AddGuess(['r', 'e'], 'a') == ['r', 'e', 'a'];
    assert AddGuess(['r', 'e', 'a'], 'c') == ['r', 'e', 'a', 'c'];
  }

  /** "react" with nine language chips, after those clicks: won, with no
      wrong guess and eight attempts left. */
  lemma ReactExample()
    ensures IsGameWon("react", "react")
    ensures WrongGuessCount("react", "react") == 0
    ensures RemainingErrors(9, "react", "react") == 8
  {
    var word := "react";
    assert forall i :: 0 <= i < |word| ==> word[i] in word;
  }

  /** "go" with three chips (two errors allowed): clicking z then q loses. */
  lemma GoExample()
    ensures var g := AddGuess(AddGuess([], 'z'), 'q');
      && WrongGuessCount("go", g) == 2
      && IsGameLost(3, "go", g)
      && IsGameOver(3, "go", g)
      && !IsGameWon("go", g)
  {
    var z, zq := ['z'], ['z', 'q'];
    assert AddGuess([], 'z') == z == [] + ['z'];
    assert AddGuess(z, 'q') == zq == z + ['q'];
    WrongGuessesAppend("go", [], 'z');
    WrongGuessesAppend("go", z, 'q');
    assert "go"[0] !in zq;
  }

  /** "ts": after clicking t the last guess is correct; after z it is wrong
      and the wrong count is one. */
  lemma TsExample()
    ensures !IsLastGuessIncorrect("ts", AddGuess([], 't'))
    ensures IsLastGuessIncorrect("ts", AddGuess(AddGuess([], 't'), 'z'))
    ensures WrongGuessCount("ts", AddGuess(AddGuess([], 't'), 'z')) == 1
  {
    var t, tz := ['t'], ['t', 'z'];
    assert AddGuess([], 't') == t == [] + ['t'];
    assert AddGuess(t, 'z') == tz == t + ['z'];
    WrongGuessesAppend("ts", [], 't');
    WrongGuessesAppend("ts", t, 'z');
  }
}
