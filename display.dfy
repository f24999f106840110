/** What the App component renders from the game state: the language chips,
    the word's letter slots, the keyboard, the status panel and the text of
    the screen-reader live region. Class strings, colours and markup are not
    modelled, only the flags that choose them. */
module Display {
  import opened GameState

  /** The letters of the on-screen keyboard, one key each. */
  const Alphabet: string := "abcdefghijklmnopqrstuvwxyz"

  /** The keyboard holds the 26 lower-case letters a to z in order, so no
      letter has two keys. */
  lemma AlphabetLetters()
    ensures |Alphabet| == 26
    ensures forall i :: 0 <= i < |Alphabet| ==> Alphabet[i] as int == 'a' as int + i
    ensures NoDuplicates(Alphabet)
  {
  }

  /** Whether language chip `index` is crossed out (class `lost`). */
  predicate ChipLost(word: string, guessed: string, index: int)
    ensures ChipLost(word, guessed, index) ==> index < |guessed|
    ensures index < 0 ==> ChipLost(word, guessed, index)
  {
    index < WrongGuessCount(word, guessed)
  }

  /** The crossed-out flags of the `languageCount` chips, in order. */
  function Chips(languageCount: nat, word: string, guessed: string): (r: seq<bool>)
    ensures |r| == languageCount
    ensures forall i, j :: 0 <= i <= j < |r| && r[j] ==> r[i]
    ensures IsGameLost(languageCount, word, guessed) ==> forall i :: 0 <= i < languageCount - 1 ==> r[i]
    ensures forall i :: 0 <= i < |r| ==> (r[i] <==> ChipLost(word, guessed, i))
  {
    seq(languageCount, i => ChipLost(word, guessed, i))
  }

  /** Chips are only ever crossed out, never restored, by a guess. */
  lemma ChipsStayLost(languageCount: nat, word: string, guessed: string, letter: char, i: nat)
    requires i < languageCount && Chips(languageCount, word, guessed)[i]
    ensures Chips(languageCount, word, AddGuess(guessed, letter))[i]
  {
    WrongCountAfterGuess(word, guessed, letter);
    assert ChipLost(word, AddGuess(guessed, letter), i);
  }

  /** One letter slot of the word: the letter, whether it is shown, whether it
      is marked `missed-letter`, and whether the screen reader reads it out
      rather than "blank". */
  datatype Slot = Slot(letter: char, shown: bool, missed: bool, spoken: bool)

  function SlotView(languageCount: nat, word: string, guessed: string, letter: char): (s: Slot)
    ensures s.letter == letter
    ensures s.spoken <==> letter in guessed
    ensures s.missed ==> s.shown && !s.spoken
    ensures s.spoken ==> s.shown
    ensures !IsGameOver(languageCount, word, guessed) ==> (s.shown <==> s.spoken) && !s.missed
  {
    Slot(letter,
         IsGameOver(languageCount, word, guessed) || letter in guessed,
         IsGameLost(languageCount, word, guessed) && letter !in guessed,
         letter in guessed)
  }

  /** The slots of the word, one per letter in order. */
  function WordSlots(languageCount: nat, word: string, guessed: string): (r: seq<Slot>)
    ensures |r| == |word|
    ensures forall i :: 0 <= i < |r| ==> r[i].letter == word[i]
    ensures forall i :: 0 <= i < |r| ==> r[i].missed ==> r[i].shown && !r[i].spoken
    ensures forall i :: 0 <= i < |r| ==> r[i].spoken ==> r[i].shown
    ensures forall i :: 0 <= i < |r| ==> (r[i].spoken <==> word[i] in guessed)
    ensures forall i :: 0 <= i < |r| ==>
      (r[i].missed <==> IsGameLost(languageCount, word, guessed) && word[i] !in guessed)
  {
    seq(|word|, i requires 0 <= i < |word| => SlotView(languageCount, word, guessed, word[i]))
  }

  /** While the game is open a slot shows its letter exactly when that letter
      has been guessed; once the game is over every slot is shown. */
  lemma SlotShownIff(languageCount: nat, word: string, guessed: string, i: nat)
    requires i < |word|
    ensures WordSlots(languageCount, word, guessed)[i].shown
        <==> IsGameOver(languageCount, word, guessed) || word[i] in guessed
  {
  }

  /** A won game shows and reads out every letter, with none marked missed. */
  lemma WonRevealsWord(languageCount: nat, word: string, guessed: string)
    requires IsGameWon(word, guessed)
    ensures forall i :: 0 <= i < |word| ==>
      var s := WordSlots(languageCount, word, guessed)[i]; s.shown && s.spoken && !s.missed
  {
  }

  /** A lost game shows every letter and marks as missed exactly those the
      screen reader still calls "blank". */
  lemma LostMarksMissed(languageCount: nat, word: string, guessed: string)
    requires IsGameLost(languageCount, word, guessed)
    ensures forall i :: 0 <= i < |word| ==>
      var s := WordSlots(languageCount, word, guessed)[i]; s.shown && (s.missed <==> !s.spoken)
  {
  }

  /** One keyboard key: its letter, the `correct` and `wrong` classes,
      `disabled` and `aria-disabled`. */
  datatype Key = Key(letter: char, correct: bool, wrong: bool, disabled: bool, ariaDisabled: bool)

  function KeyView(languageCount: nat, word: string, guessed: string, letter: char): (k: Key)
    ensures k.letter == letter
    ensures !(k.correct && k.wrong)
    ensures k.correct || k.wrong <==> letter in guessed
    ensures k.wrong <==> letter in WrongGuesses(word, guessed)
    ensures k.ariaDisabled <==> k.correct || k.wrong
    ensures k.disabled <==> IsGameOver(languageCount, word, guessed)
  {
    var isGuessed := letter in guessed;
    Key(letter,
        isGuessed && letter in word,
        isGuessed && letter !in word,
        IsGameOver(languageCount, word, guessed),
        isGuessed)
  }

  /** The keyboard: one key per letter of the alphabet, in order. */
  function Keyboard(languageCount: nat, word: string, guessed: string): (r: seq<Key>)
    ensures |r| == 26
    ensures forall i :: 0 <= i < |r| ==> r[i].letter == Alphabet[i]
    ensures forall i :: 0 <= i < |r| ==> !(r[i].correct && r[i].wrong)
    ensures forall i :: 0 <= i < |r| ==> (r[i].correct || r[i].wrong <==> Alphabet[i] in guessed)
  {
    seq(|Alphabet|, i requires 0 <= i < |Alphabet| => KeyView(languageCount, word, guessed, Alphabet[i]))
  }

  /** The key for each letter of the alphabet is marked wrong exactly when
      that letter is a wrong guess, and correct exactly when it is a guessed
      letter of the word. */
  lemma KeyboardMatchesGuesses(languageCount: nat, word: string, guessed: string, i: nat)
    requires i < |Alphabet|
    ensures var key := Keyboard(languageCount, word, guessed)[i];
      && key.letter == Alphabet[i]
      && (key.wrong <==> Alphabet[i] in WrongGuesses(word, guessed))
      && (key.correct <==> Alphabet[i] in guessed && Alphabet[i] in word)
  {
  }

  /** The body of the status panel: while the game is open, the farewell
      message (an index into the language list) and the attempts left; then
      the loss message, which is checked first, or the win message. */
  datatype Status = Playing(farewell: Option<int>, remaining: int) | Lost | Won

  function GameStatus(languageCount: nat, word: string, guessed: string): (s: Status)
    ensures s.Playing? <==> !IsGameOver(languageCount, word, guessed)
    ensures s.Lost? <==> IsGameLost(languageCount, word, guessed)
    ensures s.Won? ==> IsGameWon(word, guessed)
    ensures s.Playing? ==> (s.farewell.Some? <==> IsLastGuessIncorrect(word, guessed))
    ensures s.Playing? && s.farewell.Some? ==> 0 <= s.farewell.value < languageCount - 2
    ensures s.Playing? ==> 0 < s.remaining <= NumberOfErrors(languageCount)
  {
    if !IsGameOver(languageCount, word, guessed) then
      Playing(if IsLastGuessIncorrect(word, guessed) then Some(WrongGuessCount(word, guessed) - 1) else None,
              RemainingErrors(languageCount, word, guessed))
    else if IsGameLost(languageCount, word, guessed) then Lost
    else Won
  }

  /** The flags of the status panel's classes `won`, `lost` and `farewell`. */
  datatype StatusClass = StatusClass(won: bool, lost: bool, farewell: bool)

  function GameStatusClass(languageCount: nat, word: string, guessed: string): (c: StatusClass)
    ensures c.farewell <==> (GameStatus(languageCount, word, guessed).Playing? &&
                             GameStatus(languageCount, word, guessed).farewell.Some?)
    ensures c.farewell ==> !c.won && !c.lost
  {
    StatusClass(IsGameWon(word, guessed), IsGameLost(languageCount, word, guessed),
                !IsGameOver(languageCount, word, guessed) && IsLastGuessIncorrect(word, guessed))
  }

  /** `String.prototype.includes`: `part` occurs in `s` as a contiguous run. */
  predicate Includes(s: string, part: string)
    ensures Includes(s, part) ==> |part| <= |s|
    ensures part == [] ==> Includes(s, part)
  {
    assert part == [] ==> IncludesAt(s, part, 0);
    exists i :: 0 <= i <= |s| - |part| && IncludesAt(s, part, i)
  }

  /** `part` occurs in `s` starting at index `i`. */
  predicate IncludesAt(s: string, part: string, i: int) {
    0 <= i <= |s| - |part| && s[i..i + |part|] == part
  }

  /** For a single letter, substring search is membership. */
  lemma IncludesLetter(s: string, c: char)
    ensures Includes(s, [c]) <==> c in s
  {
    if c in s {
      var i :| 0 <= i < |s| && s[i] == c;
      assert IncludesAt(s, [c], i);
    }
    if Includes(s, [c]) {
      var i :| 0 <= i <= |s| - 1 && IncludesAt(s, [c], i);
      assert s[i..i + 1] == [c];
      assert s[i] == c;
    }
  }

  /** Whether the live region announces the last guess as correct. Before
      the first guess `lastGuessedLetter` is undefined, which the string
      search reads as the text "undefined". */
  predicate AnnouncesCorrect(word: string, guessed: string)
    ensures AnnouncesCorrect(word, guessed) ==> word != []
    ensures AnnouncesCorrect(word, guessed) && guessed == [] ==> |word| >= 9
  {
    match LastGuessedLetter(guessed)
    case None => Includes(word, "undefined")
    case Some(letter) => Includes(word, [letter])
  }

  /** After a guess, the announcement agrees with `isLastGuessIncorrect`. */
  lemma AnnouncementMatchesLastGuess(word: string, guessed: string)
    requires guessed != []
    ensures AnnouncesCorrect(word, guessed) <==> !IsLastGuessIncorrect(word, guessed)
  {
    IncludesLetter(word, guessed[|guessed| - 1]);
  }

  /** Before the first guess, a word shorter than "undefined" is announced as
      not containing the letter "undefined". Length is one sufficient case:
      exactly the words in which "undefined" does not occur get this
      announcement. */
  lemma FreshAnnouncement(word: string)
    requires |word| < 9
    ensures !AnnouncesCorrect(word, [])
  {
  }
}
