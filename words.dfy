/**
 * The word list of the typing exercise (apps/client/composables/main/question.ts):
 * the `Word` record, and one function per pass the engine makes over the
 * list. The passes themselves are methods of `Engine.InputEngine`; each is
 * proved to produce exactly the function given here, and the lemmas below
 * state what those functions guarantee.
 */
module Words {
  import opened Text

  datatype Option<T> = None | Some(value: T)

  /** The `Mode` enum of question.ts:20-24. */
  datatype Mode = Input | Fix | FixInput

  /** One space-separated segment of the target sentence (question.ts:3-12).
      `start` and `end` are offsets of the word's slot in the flat input. */
  datatype Word = Word(
    text: string,
    userInput: string,
    start: nat,
    end: nat,
    isActive: bool,
    incorrect: bool,
    id: nat)

  /** The word separator (question.ts:26). */
  const Separator: char := ' '

  /** `createWord(word, id)` (question.ts:145-156): a word with nothing typed,
      not active and not flagged, whose empty slot sits at offset 0. It is
      counted incorrect on submit unless its own text is empty. */
  function CreateWord(text: string, id: nat): (w: Word)
    ensures w.text == text && w.id == id && w.userInput == ""
    ensures !w.isActive && !w.incorrect && w.start == w.end == 0
    ensures Mark(w).incorrect <==> text != ""
  {
    Word(text, "", 0, 0, false, false, id)
  }

  /** The `userInput` of every word, in order. */
  function Inputs(ws: seq<Word>): (r: seq<string>)
    ensures |r| == |ws|
    ensures forall i :: 0 <= i < |ws| ==> r[i] == ws[i].userInput
  {
    seq(|ws|, i requires 0 <= i < |ws| => ws[i].userInput)
  }

  ghost predicate AtMostOneActive(ws: seq<Word>)
  {
    forall i, j :: 0 <= i < |ws| && 0 <= j < |ws| && ws[i].isActive && ws[j].isActive ==> i == j
  }

  ghost predicate HasIncorrect(ws: seq<Word>)
  {
    exists i :: 0 <= i < |ws| && ws[i].incorrect
  }

  ghost predicate AllCorrect(ws: seq<Word>)
  {
    forall i :: 0 <= i < |ws| ==> !ws[i].incorrect
  }

  // ---------------------------------------------------------------------------
  // Input -> Words (question.ts:274-285, 319-323)

  /** Every word's `userInput` emptied, nothing else touched. */
  function Cleared(ws: seq<Word>): (r: seq<Word>)
  {
    seq(|ws|, i requires 0 <= i < |ws| => ws[i].(userInput := ""))
  }

  /** The first `|fs|` words take fragment `i` as their input and the slot it
      occupies in the flat string; later words are left as they were. */
  function Synced(ws: seq<Word>, fs: seq<string>): (r: seq<Word>)
    requires |fs| <= |ws|
  {
    seq(|ws|, i requires 0 <= i < |ws| =>
      if i < |fs| then ws[i].(userInput := fs[i], start := SlotStart(fs, i), end := SlotStart(fs, i) + |fs[i]|)
      else ws[i])
  }

  /** After syncing from the flat input `s`, synced word `i`'s slot
      `s[start..end]` is its input, fragment `i`; a separator follows it and
      the next slot starts right after, except for the last synced word, whose
      slot ends at `|s|` (question.ts:277-284). */
  lemma SyncedSlot(ws: seq<Word>, s: string, i: nat)
    requires |Split(s, Separator)| <= |ws|
    requires i < |Split(s, Separator)|
    ensures var fs := Split(s, Separator); var r := Synced(ws, fs);
      && r[i].userInput == fs[i]
      && r[i].start <= r[i].end <= |s|
      && s[r[i].start..r[i].end] == fs[i]
      && (i == 0 ==> r[i].start == 0)
      && (i < |fs| - 1 ==> r[i].end < |s| && s[r[i].end] == Separator && r[i + 1].start == r[i].end + 1)
      && (i == |fs| - 1 ==> r[i].end == |s|)
  {
    JoinSplit(s, Separator);
    JoinSlot(Split(s, Separator), Separator, i);
  }

  /** Words past the fragment count keep everything, stale input and offsets included. */
  lemma SyncedTail(ws: seq<Word>, fs: seq<string>)
    requires |fs| <= |ws|
    ensures |Synced(ws, fs)| == |ws|
    ensures forall i :: |fs| <= i < |ws| ==> Synced(ws, fs)[i] == ws[i]
    ensures forall i :: 0 <= i < |ws| ==>
      Synced(ws, fs)[i].(userInput := ws[i].userInput, start := ws[i].start, end := ws[i].end) == ws[i]
  {
  }

  /** Round trip (question.ts:106-111, 234-240): after the words are synced from
      `s`, joining the inputs of the synced words gives `s` back; when `s` has
      one fragment per word, joining all inputs does. */
  lemma SyncRoundTrip(ws: seq<Word>, s: string)
    requires |Split(s, Separator)| <= |ws|
    ensures var k := |Split(s, Separator)|;
      Join(Inputs(Synced(ws, Split(s, Separator)))[..k], [Separator]) == s
    ensures |Split(s, Separator)| == |ws| ==>
      Join(Inputs(Synced(ws, Split(s, Separator))), [Separator]) == s
  {
    var fs := Split(s, Separator);
    var ins := Inputs(Synced(ws, fs));
    assert ins[..|fs|] == fs;
    if |fs| == |ws| {
      assert ins[..|fs|] == ins;
    }
    JoinSplit(s, Separator);
  }

  // ---------------------------------------------------------------------------
  // Active word (question.ts:357-361, 395-405)

  /** The cursor offset `p` lies in the word's slot, both ends included. */
  predicate Covers(w: Word, p: int)
  {
    w.start <= p <= w.end
  }

  /** Every word marked inactive, nothing else touched. */
  function Deactivated(ws: seq<Word>): (r: seq<Word>)
  {
    seq(|ws|, i requires 0 <= i < |ws| => ws[i].(isActive := false))
  }

  /** The first word from index `k` on whose slot covers `p`. */
  function FirstCovering(ws: seq<Word>, p: int, k: nat): (r: Option<nat>)
    decreases |ws| - k
    ensures r.Some? ==> k <= r.value < |ws| && Covers(ws[r.value], p) &&
                        forall j :: k <= j < r.value ==> !Covers(ws[j], p)
    ensures r.None? ==> forall j :: k <= j < |ws| ==> !Covers(ws[j], p)
  {
    if k >= |ws| then None
    else if Covers(ws[k], p) then Some(k)
    else FirstCovering(ws, p, k + 1)
  }

  /** The list after `updateActiveWord(p)`: at most one word is active, it is
      the first word whose slot covers `p` (none if no slot does), and no field
      but `isActive` changes. */
  function Activated(ws: seq<Word>, p: int): (r: seq<Word>)
    ensures |r| == |ws|
    ensures forall i :: 0 <= i < |r| ==> r[i] == ws[i].(isActive := r[i].isActive)
    ensures AtMostOneActive(r)
    ensures forall i :: 0 <= i < |r| ==>
      (r[i].isActive <==> Covers(ws[i], p) && forall j :: 0 <= j < i ==> !Covers(ws[j], p))
  {
    var f := FirstCovering(ws, p, 0);
    seq(|ws|, i requires 0 <= i < |ws| => ws[i].(isActive := f == Some(i)))
  }

  /** When word `i` is the first to cover `p`, activation marks it alone. */
  lemma ActivatedAt(ws: seq<Word>, p: int, i: nat)
    requires i < |ws| && Covers(ws[i], p)
    requires forall j :: 0 <= j < i ==> !Covers(ws[j], p)
    ensures Activated(ws, p) == Deactivated(ws)[i := ws[i].(isActive := true)]
  {
    var a, b := Activated(ws, p), Deactivated(ws)[i := ws[i].(isActive := true)];
    assert forall j :: 0 <= j < |ws| ==> a[j] == b[j];
  }

  /** When no word covers `p`, activation marks none. */
  lemma ActivatedNone(ws: seq<Word>, p: int)
    requires forall j :: 0 <= j < |ws| ==> !Covers(ws[j], p)
    ensures Activated(ws, p) == Deactivated(ws)
  {
    var a, b := Activated(ws, p), Deactivated(ws);
    assert forall j :: 0 <= j < |ws| ==> a[j] == b[j];
  }

  // ---------------------------------------------------------------------------
  // Evaluation (question.ts:439-441, 475-485)

  /** The word marked incorrect exactly when its input differs from its text,
      ignoring case. */
  function Mark(w: Word): (r: Word)
  {
    w.(incorrect := Lower(w.userInput) != Lower(w.text))
  }

  function Marked(ws: seq<Word>): (r: seq<Word>)
  {
    seq(|ws|, i requires 0 <= i < |ws| => Mark(ws[i]))
  }

  /** After marking, a word is incorrect exactly when its lower-cased input
      differs from its lower-cased text, and only `incorrect` changed. */
  lemma MarkedFlags(ws: seq<Word>)
    ensures |Marked(ws)| == |ws|
    ensures forall i :: 0 <= i < |ws| ==>
      (Marked(ws)[i].incorrect <==> Lower(ws[i].userInput) != Lower(ws[i].text)) &&
      Marked(ws)[i].(incorrect := ws[i].incorrect) == ws[i]
  {
  }

  /** Marking twice gives the same flags as marking once. */
  lemma MarkedIdempotent(ws: seq<Word>)
    ensures Marked(Marked(ws)) == Marked(ws)
  {
  }

  /** `checkWordCorrect` after marking: true exactly when every input matches
      its text up to case. */
  lemma MarkedAllCorrect(ws: seq<Word>)
    ensures AllCorrect(Marked(ws)) <==> forall i :: 0 <= i < |ws| ==> Lower(ws[i].userInput) == Lower(ws[i].text)
  {
    assert forall i :: 0 <= i < |ws| ==> Marked(ws)[i] == Mark(ws[i]);
  }

  // ---------------------------------------------------------------------------
  // Searches for incorrect words (question.ts:556-570, 641-643, 927-940)

  /** The first incorrect word at index `k` or later. */
  function FirstIncorrectFrom(ws: seq<Word>, k: nat): (r: Option<nat>)
    decreases |ws| - k
    ensures r.Some? ==> k <= r.value < |ws| && ws[r.value].incorrect &&
                        forall j :: k <= j < r.value ==> !ws[j].incorrect
    ensures r.None? ==> forall j :: k <= j < |ws| ==> !ws[j].incorrect
  {
    if k >= |ws| then None
    else if ws[k].incorrect then Some(k)
    else FirstIncorrectFrom(ws, k + 1)
  }

  /** The nearest incorrect word strictly before index `k`. */
  function LastIncorrectBefore(ws: seq<Word>, k: nat): (r: Option<nat>)
    requires k <= |ws|
    ensures r.Some? ==> r.value < k && ws[r.value].incorrect &&
                        forall j :: r.value < j < k ==> !ws[j].incorrect
    ensures r.None? ==> forall j :: 0 <= j < k ==> !ws[j].incorrect
  {
    if k == 0 then None
    else if ws[k - 1].incorrect then Some(k - 1)
    else LastIncorrectBefore(ws, k - 1)
  }

  /** The incorrect word `clearNextIncorrectWord` works on (question.ts:677-681):
      the first one after `cur`, or, when `cur` is unset or no incorrect word
      follows it, the first incorrect word of the list. */
  function NextTarget(ws: seq<Word>, cur: Option<nat>): (t: nat)
    requires HasIncorrect(ws)
    ensures t < |ws| && ws[t].incorrect
    ensures cur.Some? && (exists j :: cur.value < j < |ws| && ws[j].incorrect) ==>
      cur.value < t && forall j :: cur.value < j < t ==> !ws[j].incorrect
    ensures cur.None? || (forall j :: cur.value < j < |ws| ==> !ws[j].incorrect) ==>
      forall j :: 0 <= j < t ==> !ws[j].incorrect
  {
    var next := if cur.Some? then FirstIncorrectFrom(ws, cur.value + 1) else None;
    if next.Some? then next.value else FirstIncorrectFrom(ws, 0).value
  }

  /** Word `t` with its input emptied (question.ts:683). */
  function ClearedAt(ws: seq<Word>, t: nat): (r: seq<Word>)
    requires t < |ws|
  {
    ws[t := ws[t].(userInput := "")]
  }
}
