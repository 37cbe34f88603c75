/**
 * Worked exercises on the engine: target "a b c" typed as "x b y" (two
 * errors, then backward navigation), and typed as "A b c" (correct up to
 * case, so the submit completes).
 */
module Scenarios {
  import opened Text
  import opened Words
  import opened Engine

  /** The target sentence has three words. */
  lemma SplitABC()
    ensures Split("a b c", ' ') == ["a", "b", "c"]
  {
      SplitAtSep("a", "b c", ' ');
      SplitAtSep("b", "c", ' ');
      SplitNoSep("c", ' ');
      assert "a b c" == "a" + [' '] + "b c";
      assert "b c" == "b" + [' '] + "c";
  }

  /** The typed input has three fragments. */
  lemma SplitXBY()
    ensures Split("x b y", ' ') == ["x", "b", "y"]
  {
      SplitAtSep("x", "b y", ' ');
      SplitAtSep("b", "y", ' ');
      SplitNoSep("y", ' ');
      assert "x b y" == "x" + [' '] + "b y";
      assert "b y" == "b" + [' '] + "y";
  }

  /** Typing "x b y" with the cursor at the end: every word holds its
      fragment and the last word is active. */
  method TypeWithTwoErrors() returns (e: InputEngine)
    ensures e.Valid() && e.FixReady() && |e.words| == 3 && fresh(e)
    ensures e.mode == Input && e.currentEditWord == None && e.callbackRuns == 0 && e.cursorWrites == []
    ensures e.words[2].isActive && e.words[0].start == 0
    ensures e.words[0].userInput == "x" && e.words[1].userInput == "b" && e.words[2].userInput == "y"
    ensures e.words[0].text == "a" && e.words[1].text == "b" && e.words[2].text == "c"
  {
    e := new InputEngine("a b c", 0);
    SplitABC();
    assert |e.words| == 3;
    assert e.words[0] == CreateWord("a", 0).(isActive := true);
    assert e.words[1] == CreateWord("b", 1);
    assert e.words[2] == CreateWord("c", 2);
    SplitXBY();
    ghost var fs: seq<string> := ["x", "b", "y"];
    assert SlotStart(fs, 1) == 2 && SlotStart(fs, 2) == 4;
    ghost var synced := Synced(Cleared(e.words), fs);
    assert synced[0].end == 1 && synced[1].end == 3 && synced[2].start == 4 && synced[2].end == 5;
    e.SetInputValue("x b y", 5);
    assert e.words[2].isActive;
    assert e.words[0].userInput == "x" && e.words[1].userInput == "b" && e.words[2].userInput == "y";
  }

  /** Space on the last word submits: words 0 and 2 are flagged, the mode is
      Fix and no callback runs. */
  method SubmitWithTwoErrors() returns (e: InputEngine)
    ensures e.Valid() && e.FixReady() && |e.words| == 3
    ensures e.mode == Fix && e.currentEditWord == None && e.callbackRuns == 0 && e.cursorWrites == []
    ensures e.words[0].incorrect && !e.words[1].incorrect && e.words[2].incorrect
    ensures e.words[0].start == 0 && fresh(e)
  {
    e := TypeWithTwoErrors();

    assert Lower("x") != Lower("a") by { assert Lower("x")[0] == 'x'; }
    assert Lower("b") == Lower("b");
    assert Lower("y") != Lower("c") by { assert Lower("y")[0] == 'y'; }
    var prevented := e.HandleKeyboardInput(Space, true);
    assert prevented;
    assert e.words[0].incorrect && !e.words[1].incorrect && e.words[2].incorrect;
    assert e.mode == Fix;
    assert e.callbackRuns == 0;
    assert e.currentEditWord == None;
  }

  /** Backspace in Fix clears word 0 and edits it (FixInput, cursor to 0); a
      second Backspace on the empty word finds no earlier incorrect word and
      changes nothing. */
  method BackspaceIntoFirstError()
  {
    var e := SubmitWithTwoErrors();
    var prevented;
    prevented := e.HandleKeyboardInput(Backspace, false);
    assert prevented;
    assert e.mode == FixInput && e.currentEditWord == Some(0);
    assert e.words[0].userInput == "" && e.cursorWrites == [0];

    ghost var before := e.words;
    prevented := e.HandleKeyboardInput(Backspace, false);
    assert prevented;
    assert e.words == before && e.currentEditWord == Some(0) && e.cursorWrites == [0];
  }

  /** Typing "A b c" with the cursor at the end: the input matches the
      target except for case, and the last word is active. */
  method TypeCorrectUpToCase() returns (e: InputEngine)
    ensures e.Valid() && e.FixReady() && |e.words| == 3 && fresh(e)
    ensures e.mode == Input && e.callbackRuns == 0 && e.words[2].isActive
    ensures e.words[0].userInput == "A" && e.words[1].userInput == "b" && e.words[2].userInput == "c"
    ensures e.words[0].text == "a" && e.words[1].text == "b" && e.words[2].text == "c"
  {
    e := new InputEngine("a b c", 0);
    SplitABC();
    assert e.words[0] == CreateWord("a", 0).(isActive := true);
    assert e.words[1] == CreateWord("b", 1);
    assert e.words[2] == CreateWord("c", 2);
    assert Split("A b c", ' ') == ["A", "b", "c"] by {
      SplitAtSep("A", "b c", ' ');
      SplitAtSep("b", "c", ' ');
      SplitNoSep("c", ' ');
      assert "A b c" == "A" + [' '] + "b c";
      assert "b c" == "b" + [' '] + "c";
    }
    ghost var fs: seq<string> := ["A", "b", "c"];
    assert SlotStart(fs, 1) == 2 && SlotStart(fs, 2) == 4;
    ghost var synced := Synced(Cleared(e.words), fs);
    assert synced[0].end == 1 && synced[1].end == 3 && synced[2].start == 4 && synced[2].end == 5;
    e.SetInputValue("A b c", 5);
    assert e.words[2].isActive;
  }

  /** Pressing Space on the last word then completes the exercise: case is
      ignored, the callback runs once, the flat input is emptied and the mode
      stays Input. */
  method CorrectSubmitIgnoresCase()
  {
    var e := TypeCorrectUpToCase();
    assert Lower("A") == Lower("a") by { assert LowerChar('A') == 'a'; }
    var prevented := e.HandleKeyboardInput(Space, true);
    assert prevented;
    assert e.mode == Input && e.callbackRuns == 1 && e.inputValue == "";
  }
}
