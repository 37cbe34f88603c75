/**
 * `useInput` (apps/client/composables/main/question.ts:60-1121): the state of
 * one typing exercise and every operation on it.
 *
 * The host's cursor setter is recorded in `cursorWrites`, the cursor getter
 * becomes a parameter, and a completion callback is counted in
 * `callbackRuns`. Vue's reactivity is replaced by explicit calls: `SetSource`
 * re-segments the target sentence, and `nextTick` is an ordering point only
 * (the text is written before the cursor is moved).
 */
module Engine {
  import opened Text
  import opened Words

  /** The keys the dispatcher tells apart (`e.code`). */
  datatype Key = ArrowLeft | ArrowRight | Space | Backspace | OtherKey

  /** What `handleKeyboardInput` does with a key, in precedence order. */
  datatype Command =
    | Block          // preventDefault, nothing else
    | SpaceSubmit    // checkSpaceSubmitAnswer
    | PreviousWord   // activePreviousIncorrectWord
    | AdvanceFix     // fixIncorrectWord
    | EnterFix       // fixFirstIncorrectWord
    | Pass           // ordinary text editing, not prevented

  /** The decision of `handleKeyboardInput` (question.ts:1067-1108) from the key,
      the mode and the three queries it consults. */
  function Decide(key: Key, mode: Mode, lastActive: bool, lastIncorrect: bool, currentEmpty: bool): (c: Command)
    // arrows never move the cursor, in any mode
    ensures key.ArrowLeft? || key.ArrowRight? ==> c == Block
    // no free typing while errors await a selected word
    ensures mode == Fix ==> c != Pass
    // in Input mode no fix navigation ever starts
    ensures mode == Input ==> c == Block || c == SpaceSubmit || c == Pass
    ensures c == SpaceSubmit <==> key.Space? && (lastActive || (mode == FixInput && lastIncorrect))
    ensures c == PreviousWord <==> key.Backspace? && mode == FixInput && currentEmpty
    ensures c == AdvanceFix <==> key.Space? && mode != Input && !lastActive && !(mode == FixInput && lastIncorrect)
    ensures c == EnterFix <==> key.Backspace? && mode == Fix
    // blocked without further effect: arrows, and any other key while in Fix
    ensures c == Block <==> key.ArrowLeft? || key.ArrowRight? || (mode == Fix && key.OtherKey?)
  {
    if key.ArrowLeft? || key.ArrowRight? then Block
    else if !key.Space? && !key.Backspace? && mode == Fix then Block
    else if key.Space? && lastActive then SpaceSubmit
    else if key.Space? && mode == FixInput && lastIncorrect then SpaceSubmit
    else if key.Backspace? && mode == FixInput && currentEmpty then PreviousWord
    else if key.Space? && mode != Input then AdvanceFix
    else if key.Backspace? && mode == Fix then EnterFix
    else Pass
  }

  /** The fall-through of `handleKeyboardInput` (question.ts:1102-1108): a key
      is left to the text field exactly when it is an ordinary key outside
      Fix, a Space in Input away from the last word, a Backspace in Input, or
      a Backspace in FixInput while the edited word still holds text. */
  lemma DecidePass(key: Key, mode: Mode, lastActive: bool, lastIncorrect: bool, currentEmpty: bool)
    ensures Decide(key, mode, lastActive, lastIncorrect, currentEmpty) == Pass <==>
      ((key.OtherKey? && mode != Fix) ||
       (key.Space? && mode == Input && !lastActive) ||
       (key.Backspace? && mode == Input) ||
       (key.Backspace? && mode == FixInput && !currentEmpty))
  {
  }

  class InputEngine {
    var words: seq<Word>
    var mode: Mode
    var currentEditWord: Option<nat>
    var inputValue: string
    /** Every offset handed to `setInputCursorPosition`, oldest first. */
    var cursorWrites: seq<nat>
    /** How often a completion callback has run. */
    var callbackRuns: nat

    /** The list is never empty, `words[i].id == i`, at most one word is
        active and the edited word, if any, is in the list. */
    ghost predicate WordsValid()
      reads this
    {
      && |words| >= 1
      && (forall i :: 0 <= i < |words| ==> words[i].id == i)
      && AtMostOneActive(words)
      && (currentEditWord.Some? ==> currentEditWord.value < |words|)
    }

    ghost predicate Valid()
      reads this
    {
      WordsValid() && (mode == FixInput ==> currentEditWord.Some?)
    }

    /** Outside Input mode some word is incorrect, so `getFirstIncorrectWord()!`
        (question.ts:680) always finds one. */
    ghost predicate FixReady()
      reads this
    {
      mode != Input ==> HasIncorrect(words)
    }

    twostate predicate Same()
      reads this
    {
      && words == old(words) && mode == old(mode) && currentEditWord == old(currentEditWord)
      && inputValue == old(inputValue) && cursorWrites == old(cursorWrites) && callbackRuns == old(callbackRuns)
    }

    /** The effect of `clearNextIncorrectWord` (mode aside): the target word's
        input is emptied, it becomes the edited word, the flat input is
        rebuilt from the words, and cursor and active word go to its start. */
    twostate predicate FixAdvanced()
      reads this
    {
      && old(WordsValid()) && old(HasIncorrect(words))
      && var t := NextTarget(old(words), old(currentEditWord));
         var cleared := ClearedAt(old(words), t);
         && currentEditWord == Some(t)
         && words == Activated(cleared, old(words)[t].start)
         && inputValue == Join(Inputs(cleared), [Separator])
         && cursorWrites == old(cursorWrites) + [old(words)[t].start]
         && callbackRuns == old(callbackRuns)
    }

    /** The effect of `submitAnswer` outside Fix mode: every word inactive and
        re-marked; if all are correct the callback runs once, the flat input
        empties and the mode is Input, otherwise the mode is Fix. */
    twostate predicate Submitted()
      reads this
    {
      var marked := Marked(Deactivated(old(words)));
      && words == marked
      && currentEditWord == old(currentEditWord) && cursorWrites == old(cursorWrites)
      && (AllCorrect(marked) ==> mode == Input && callbackRuns == old(callbackRuns) + 1 && inputValue == "")
      && (!AllCorrect(marked) ==> mode == Fix && callbackRuns == old(callbackRuns) && inputValue == old(inputValue))
    }

    /** The effect of `activePreviousIncorrectWord`: nothing when there is no
        earlier incorrect word; otherwise it becomes the edited word and cursor
        and active word go to its end, its text kept. */
    twostate predicate MovedBack()
      reads this
    {
      && old(WordsValid())
      && mode == old(mode) && inputValue == old(inputValue) && callbackRuns == old(callbackRuns)
      && var prev := if old(currentEditWord).None? then None
                     else LastIncorrectBefore(old(words), old(currentEditWord).value);
         && (prev.None? ==>
               words == old(words) && currentEditWord == old(currentEditWord) && cursorWrites == old(cursorWrites))
         && (prev.Some? ==>
               && currentEditWord == prev
               && words == Activated(old(words), old(words)[prev.value].end)
               && cursorWrites == old(cursorWrites) + [old(words)[prev.value].end])
    }

    /** `useInput(...)` (question.ts:60-72): segment the sentence, then mark the
        word under the host's cursor active. */
    constructor (source: string, cursor: int)
      ensures Valid() && FixReady()
      ensures mode == Input && currentEditWord == None && inputValue == ""
      ensures cursorWrites == [] && callbackRuns == 0
      ensures |words| == |Split(source, Separator)|
      ensures forall i :: 0 <= i < |words| ==>
        words[i] == CreateWord(Split(source, Separator)[i], i).(isActive := words[i].isActive)
      ensures forall i :: 0 <= i < |words| ==> (words[i].isActive <==> i == 0 && cursor == 0)
    {
      words := [];
      mode := Input;
      currentEditWord := None;
      inputValue := "";
      cursorWrites := [];
      callbackRuns := 0;
      new;
      SetSource(source);
      UpdateActiveWord(cursor);
    }

    /** `setupUserInputWords` (question.ts:190-199), run whenever the sentence
        changes: fragment `i` of the sentence replaces word `i` with a fresh
        word; words past the fragment count stay, so the list never shrinks. */
    method SetSource(source: string)
      requires forall i :: 0 <= i < |words| ==> words[i].id == i
      requires AtMostOneActive(words)
      requires currentEditWord.Some? ==> currentEditWord.value < |words|
      modifies this`words
      ensures WordsValid()
      ensures var fs := Split(source, Separator);
        && |words| == (if |fs| <= |old(words)| then |old(words)| else |fs|)
        && (forall i :: 0 <= i < |fs| ==> words[i] == CreateWord(fs[i], i))
        && (forall i :: |fs| <= i < |old(words)| ==> words[i] == old(words)[i])
    {
      var fs := Split(source, Separator);
      var i := 0;
      while i < |fs|
        invariant 0 <= i <= |fs|
        invariant |words| == (if i <= |old(words)| then |old(words)| else i)
        invariant forall j :: 0 <= j < i ==> words[j] == CreateWord(fs[j], j)
        invariant forall j :: i <= j < |old(words)| ==> words[j] == old(words)[j]
      {
        if i < |words| {
          words := words[i := CreateWord(fs[i], i)];
        } else {
          words := words + [CreateWord(fs[i], i)];
        }
        i := i + 1;
      }
    }

    /** `setInputValue(val)` (question.ts:106-111): store the flat input, empty
        every word's input, sync the words from it, then recompute the active
        word at the host's cursor. The source dereferences a missing word when
        the input has more fragments than there are words. */
    method SetInputValue(val: string, cursor: int)
      requires WordsValid()
      requires |Split(val, Separator)| <= |words|
      modifies this`words, this`inputValue
      ensures WordsValid()
      ensures old(FixReady()) ==> FixReady()
      ensures inputValue == val
      ensures words == Activated(Synced(Cleared(old(words)), Split(val, Separator)), cursor)
    {
      ghost var before := words;
      inputValue := val;
      ResetAllWordUserInput();
      InputSyncUserInputWords();
      UpdateActiveWord(cursor);
      if HasIncorrect(before) {
        ghost var k :| 0 <= k < |before| && before[k].incorrect;
        assert words[k].incorrect;
      }
    }

    /** `userInputWordsSyncInput` (question.ts:234-240): the flat input becomes
        the words' inputs joined by single spaces. */
    method UserInputWordsSyncInput()
      modifies this`inputValue
      ensures inputValue == Join(Inputs(words), [Separator])
    {
      inputValue := Join(Inputs(words), [Separator]);
    }

    /** `inputSyncUserInputWords` (question.ts:274-285). */
    method InputSyncUserInputWords()
      requires |Split(inputValue, Separator)| <= |words|
      modifies this`words
      ensures words == Synced(old(words), Split(inputValue, Separator))
    {
      var fs := Split(inputValue, Separator);
      var position := 0;
      var index := 0;
      while index < |fs|
        invariant 0 <= index <= |fs|
        invariant position == SlotStart(fs, index)
        invariant |words| == |old(words)|
        invariant forall j :: 0 <= j < index ==> words[j] == Synced(old(words), fs)[j]
        invariant forall j :: index <= j < |words| ==> words[j] == old(words)[j]
      {
        var input := fs[index];
        words := words[index := words[index].(userInput := input, start := position, end := position + |input|)];
        position := position + |input| + 1;
        index := index + 1;
      }
    }

    /** `resetAllWordUserInput` (question.ts:319-323). */
    method ResetAllWordUserInput()
      modifies this`words
      ensures words == Cleared(old(words))
    {
      var i := 0;
      while i < |words|
        invariant 0 <= i <= |words| == |old(words)|
        invariant forall j :: 0 <= j < i ==> words[j] == old(words)[j].(userInput := "")
        invariant forall j :: i <= j < |words| ==> words[j] == old(words)[j]
      {
        words := words[i := words[i].(userInput := "")];
        i := i + 1;
      }
    }

    /** `resetAllWordActive` (question.ts:357-361). */
    method ResetAllWordActive()
      modifies this`words
      ensures words == Deactivated(old(words))
    {
      var i := 0;
      while i < |words|
        invariant 0 <= i <= |words| == |old(words)|
        invariant forall j :: 0 <= j < i ==> words[j] == old(words)[j].(isActive := false)
        invariant forall j :: i <= j < |words| ==> words[j] == old(words)[j]
      {
        words := words[i := words[i].(isActive := false)];
        i := i + 1;
      }
    }

    /** `updateActiveWord(position)` (question.ts:395-405). */
    method UpdateActiveWord(position: int)
      modifies this`words
      ensures words == Activated(old(words), position)
    {
      ResetAllWordActive();
      var i := 0;
      while i < |words|
        invariant 0 <= i <= |words|
        invariant words == Deactivated(old(words))
        invariant forall j :: 0 <= j < i ==> !Covers(old(words)[j], position)
      {
        if Covers(words[i], position) {
          ActivatedAt(old(words), position, i);
          words := words[i := words[i].(isActive := true)];
          return;
        }
        i := i + 1;
      }
      ActivatedNone(old(words), position);
    }

    /** `markIncorrectWord` (question.ts:475-485). */
    method MarkIncorrectWord()
      modifies this`words
      ensures words == Marked(old(words))
    {
      var i := 0;
      while i < |words|
        invariant 0 <= i <= |words| == |old(words)|
        invariant forall j :: 0 <= j < i ==> words[j] == Mark(old(words)[j])
        invariant forall j :: i <= j < |words| ==> words[j] == old(words)[j]
      {
        var word := words[i];
        if Lower(word.userInput) != Lower(word.text) {
          words := words[i := word.(incorrect := true)];
        } else {
          words := words[i := word.(incorrect := false)];
        }
        i := i + 1;
      }
    }

    /** `checkWordCorrect` (question.ts:439-441). */
    method CheckWordCorrect() returns (ok: bool)
      ensures ok <==> AllCorrect(words)
    {
      ok := true;
      var i := 0;
      while i < |words|
        invariant 0 <= i <= |words|
        invariant ok <==> forall j :: 0 <= j < i ==> !words[j].incorrect
      {
        if words[i].incorrect {
          ok := false;
          break;
        }
        i := i + 1;
      }
    }

    /** `lastWordIsActive` (question.ts:519-522). */
    function LastWordIsActive(): (r: bool)
      reads this
      requires WordsValid()
      ensures r ==> forall i :: 0 <= i < |words| - 1 ==> !words[i].isActive
    {
      words[|words| - 1].isActive
    }

    /** `userInputWords.findIndex((w) => w.id === id)` (question.ts:559-561, 930-932). */
    method IndexOfId(id: nat) returns (k: int)
      requires WordsValid()
      ensures id < |words| ==> k == id
      ensures id >= |words| ==> k == -1
    {
      k := 0;
      while k < |words|
        invariant 0 <= k <= |words|
        invariant id < |words| ==> k <= id
      {
        if words[k].id == id {
          return;
        }
        k := k + 1;
      }
      k := -1;
    }

    /** `findNextIncorrectWordNew` (question.ts:556-570): the first incorrect
        word after the edited one; nothing when no word is being edited. */
    method FindNextIncorrectWordNew() returns (r: Option<nat>)
      requires WordsValid()
      ensures r == (if currentEditWord.None? then None else FirstIncorrectFrom(words, currentEditWord.value + 1))
    {
      if currentEditWord.None? {
        return None;
      }
      var wordIndex := IndexOfId(currentEditWord.value);
      var i := wordIndex + 1;
      while i < |words|
        invariant wordIndex + 1 <= i <= |words|
        invariant FirstIncorrectFrom(words, wordIndex + 1) == FirstIncorrectFrom(words, i)
      {
        if words[i].incorrect {
          return Some(i);
        }
        i := i + 1;
      }
      return None;
    }

    /** `isLastIncorrectWord` (question.ts:605-607): no incorrect word follows
        the edited one (vacuously so when none is being edited). */
    method IsLastIncorrectWord() returns (r: bool)
      requires WordsValid()
      ensures r <==> currentEditWord.None? ||
                     forall j :: currentEditWord.value < j < |words| ==> !words[j].incorrect
    {
      var next := FindNextIncorrectWordNew();
      r := next.None?;
    }

    /** `getFirstIncorrectWord` (question.ts:641-643). */
    method GetFirstIncorrectWord() returns (r: Option<nat>)
      ensures r == FirstIncorrectFrom(words, 0)
    {
      var i := 0;
      while i < |words|
        invariant 0 <= i <= |words|
        invariant FirstIncorrectFrom(words, 0) == FirstIncorrectFrom(words, i)
      {
        if words[i].incorrect {
          return Some(i);
        }
        i := i + 1;
      }
      return None;
    }

    /** `clearNextIncorrectWord` (question.ts:677-693). */
    method ClearNextIncorrectWord()
      requires WordsValid() && HasIncorrect(words)
      modifies this`words, this`currentEditWord, this`inputValue, this`cursorWrites
      ensures WordsValid() && HasIncorrect(words)
      ensures FixAdvanced()
    {
      var word := FindNextIncorrectWordNew();
      if word.None? {
        word := GetFirstIncorrectWord();
      }
      var t := word.value;
      words := words[t := words[t].(userInput := "")];
      currentEditWord := Some(t);
      UserInputWordsSyncInput();
      var start := words[t].start;
      cursorWrites := cursorWrites + [start];
      UpdateActiveWord(start);
    }

    /** `submitAnswer(correctCallback)` (question.ts:727-739): a no-op in Fix
        mode; otherwise afterwards the mode is Fix exactly when some word is
        incorrect. */
    method SubmitAnswer()
      requires Valid()
      modifies this`words, this`mode, this`inputValue, this`callbackRuns
      ensures Valid()
      ensures old(mode) == Fix ==> Same()
      ensures old(mode) != Fix ==> Submitted() && FixReady()
    {
      if mode == Fix {
        return;
      }
      ResetAllWordActive();
      MarkIncorrectWord();
      var ok := CheckWordCorrect();
      if ok {
        mode := Input;
        callbackRuns := callbackRuns + 1;
        inputValue := "";
      } else {
        mode := Fix;
      }
    }

    /** `fixFirstIncorrectWord` (question.ts:773-779): only from Fix, into
        FixInput; in any other mode a no-op, even when no word is incorrect. */
    method FixFirstIncorrectWord()
      requires Valid() && (mode == Fix ==> HasIncorrect(words))
      modifies this`words, this`mode, this`currentEditWord, this`inputValue, this`cursorWrites
      ensures Valid()
      ensures old(mode) == Fix || old(FixReady()) ==> FixReady()
      ensures old(mode) == Fix ==> mode == FixInput && FixAdvanced()
      ensures old(mode) != Fix ==> Same()
    {
      if mode == Fix {
        mode := FixInput;
        ClearNextIncorrectWord();
      }
    }

    /** `fixNextIncorrectWord` (question.ts:813-817): only in FixInput, which it keeps. */
    method FixNextIncorrectWord()
      requires Valid() && FixReady()
      modifies this`words, this`currentEditWord, this`inputValue, this`cursorWrites
      ensures Valid() && FixReady()
      ensures old(mode) == FixInput ==> FixAdvanced()
      ensures old(mode) != FixInput ==> Same()
    {
      if mode == FixInput {
        ClearNextIncorrectWord();
      }
    }

    /** `fixIncorrectWord` (question.ts:851-857): from Fix or FixInput, the next
        incorrect word is cleared and the mode is FixInput. */
    method FixIncorrectWord()
      requires Valid() && FixReady()
      modifies this`words, this`mode, this`currentEditWord, this`inputValue, this`cursorWrites
      ensures Valid() && FixReady()
      ensures old(mode) != Input ==> mode == FixInput && FixAdvanced()
      ensures old(mode) == Input ==> Same()
    {
      if mode == Fix {
        FixFirstIncorrectWord();
      } else if mode == FixInput {
        FixNextIncorrectWord();
      }
    }

    /** `isEmptyOfCurrentEditWord` (question.ts:891-893). */
    function IsEmptyOfCurrentEditWord(): (r: bool)
      reads this
      requires WordsValid() && currentEditWord.Some?
      ensures r <==> words[currentEditWord.value].userInput == ""
    {
      |words[currentEditWord.value].userInput| <= 0
    }

    /** `findPreviousIncorrectWord` (question.ts:927-940): the nearest incorrect
        word before the edited one; nothing when no word is being edited. */
    method FindPreviousIncorrectWord() returns (r: Option<nat>)
      requires WordsValid()
      ensures r == (if currentEditWord.None? then None else LastIncorrectBefore(words, currentEditWord.value))
    {
      if currentEditWord.None? {
        return None;
      }
      var wordIndex := IndexOfId(currentEditWord.value);
      var i := wordIndex - 1;
      while i >= 0
        invariant -1 <= i < wordIndex
        invariant LastIncorrectBefore(words, wordIndex) == LastIncorrectBefore(words, i + 1)
      {
        if words[i].incorrect {
          return Some(i);
        }
        i := i - 1;
      }
      return None;
    }

    /** `activePreviousIncorrectWord` (question.ts:974-985). */
    method ActivePreviousIncorrectWord()
      requires WordsValid()
      modifies this`words, this`currentEditWord, this`cursorWrites
      ensures WordsValid()
      ensures MovedBack()
    {
      var previous := FindPreviousIncorrectWord();
      if previous.Some? {
        currentEditWord := previous;
        var end := words[previous.value].end;
        UpdateActiveWord(end);
        cursorWrites := cursorWrites + [end];
      }
    }

    /** `checkSpaceSubmitAnswer(e, useSpaceSubmitAnswer)` (question.ts:1019-1027):
        always prevented; submits only when enabled. */
    method CheckSpaceSubmitAnswer(enable: bool) returns (prevented: bool)
      requires Valid()
      modifies this`words, this`mode, this`inputValue, this`callbackRuns
      ensures Valid()
      ensures prevented
      ensures enable && old(mode) != Fix ==> Submitted() && FixReady()
      ensures !enable || old(mode) == Fix ==> Same()
    {
      prevented := true;
      if enable {
        SubmitAnswer();
      }
    }

    /** The command `handleKeyboardInput` runs for `key` in the current state. */
    ghost function DecidedCommand(key: Key): (c: Command)
      reads this
      requires Valid()
    {
      Decide(key, mode, LastWordIsActive(),
             currentEditWord.None? || FirstIncorrectFrom(words, currentEditWord.value + 1).None?,
             mode == FixInput && IsEmptyOfCurrentEditWord())
    }

    /** `handleKeyboardInput(e, options)` (question.ts:1061-1109): `prevented`
        is whether `preventDefault` was called, `spaceSubmit` is
        `options.useSpaceSubmitAnswer?.enable`. */
    method HandleKeyboardInput(key: Key, spaceSubmit: bool) returns (prevented: bool)
      requires Valid() && FixReady()
      modifies this`words, this`mode, this`currentEditWord, this`inputValue, this`cursorWrites, this`callbackRuns
      ensures Valid() && FixReady()
      ensures prevented <==> old(DecidedCommand(key)) != Pass
      ensures old(DecidedCommand(key)) == Pass || old(DecidedCommand(key)) == Block ==> Same()
      ensures old(DecidedCommand(key)) == SpaceSubmit ==>
        if spaceSubmit && old(mode) != Fix then Submitted() else Same()
      ensures old(DecidedCommand(key)) == PreviousWord ==> MovedBack()
      ensures old(DecidedCommand(key)) == AdvanceFix || old(DecidedCommand(key)) == EnterFix ==>
        mode == FixInput && FixAdvanced()
    {
      if key.ArrowLeft? || key.ArrowRight? {
        return true;
      }
      if !key.Space? && !key.Backspace? && mode == Fix {
        return true;
      }
      if key.Space? && LastWordIsActive() {
        prevented := CheckSpaceSubmitAnswer(spaceSubmit);
        return;
      }
      if key.Space? && mode == FixInput {
        var last := IsLastIncorrectWord();
        if last {
          prevented := CheckSpaceSubmitAnswer(spaceSubmit);
          return;
        }
      }
      if key.Backspace? && mode == FixInput && IsEmptyOfCurrentEditWord() {
        ActivePreviousIncorrectWord();
        return true;
      }
      if key.Space? && mode != Input {
        FixIncorrectWord();
        prevented := true;
      } else if key.Backspace? && mode == Fix {
        FixFirstIncorrectWord();
        prevented := true;
      } else {
        prevented := false;
      }
    }
  }
}
