/**
 * String helpers shared by the typing engine and the lesson-title converter:
 * JavaScript's `String.prototype.split` on a one-character separator,
 * `Array.prototype.join`, character removal (`replace(/a|b/g, "")`) and an
 * ASCII lower-casing that stands in for `toLocaleLowerCase`.
 */
module Text {

  /** `s.split(sep)` for a one-character separator: never empty, and the
      fragments are the maximal separator-free runs of `s`. */
  function Split(s: string, sep: char): (r: seq<string>)
    ensures |r| >= 1
    ensures forall i :: 0 <= i < |r| ==> sep !in r[i]
    ensures sep in s <==> |r| >= 2
  {
    if s == [] then [[]]
    else
      var rest := Split(s[1..], sep);
      assert s == [s[0]] + s[1..];
      if s[0] == sep then [[]] + rest
      else [[s[0]] + rest[0]] + rest[1..]
  }

  /** The summed length of the parts. */
  function TotalLength(parts: seq<string>): (n: nat)
    ensures |parts| >= 1 ==> n >= |parts[0]|
  {
    if parts == [] then 0 else |parts[0]| + TotalLength(parts[1..])
  }

  /** `parts.join(sep)`: every part once, with one separator between
      neighbours and none at either end. */
  function Join(parts: seq<string>, sep: string): (r: string)
    ensures |parts| == 0 ==> r == ""
    ensures |parts| >= 1 ==> |r| == TotalLength(parts) + (|parts| - 1) * |sep|
    ensures |parts| >= 1 ==> r[..|parts[0]|] == parts[0]
  {
    if |parts| == 0 then ""
    else if |parts| == 1 then parts[0]
    else parts[0] + sep + Join(parts[1..], sep)
  }

  /** Joining the fragments back with the separator gives the original string. */
  lemma {:induction false} JoinSplit(s: string, sep: char)
    ensures Join(Split(s, sep), [sep]) == s
  {
    if s != [] {
      var rest := Split(s[1..], sep);
      JoinSplit(s[1..], sep);
      assert s == [s[0]] + s[1..];
      if s[0] == sep {
        assert ([[]] + rest)[1..] == rest;
      } else if |rest| > 1 {
        var r := Split(s, sep);
        assert r[1..] == rest[1..];
      }
    }
  }

  /** Splitting at the first separator peels off the text before it. */
  lemma {:induction false} SplitAtSep(a: string, b: string, sep: char)
    requires sep !in a
    ensures Split(a + [sep] + b, sep) == [a] + Split(b, sep)
  {
    if a == [] {
      assert a + [sep] + b == [sep] + b;
      assert ([sep] + b)[1..] == b;
    } else {
      SplitAtSep(a[1..], b, sep);
      assert (a + [sep] + b)[1..] == a[1..] + [sep] + b;
      assert a == [a[0]] + a[1..];
    }
  }

  /** A string without the separator splits into itself alone. */
  lemma SplitNoSep(a: string, sep: char)
    requires sep !in a
    ensures Split(a, sep) == [a]
  {
    JoinSplit(a, sep);
  }

  /** Splitting a join of separator-free parts gives the parts back. */
  lemma {:induction false} SplitJoin(parts: seq<string>, sep: char)
    requires |parts| >= 1
    requires forall i :: 0 <= i < |parts| ==> sep !in parts[i]
    ensures Split(Join(parts, [sep]), sep) == parts
  {
    if |parts| == 1 {
      SplitNoSep(parts[0], sep);
    } else {
      SplitJoin(parts[1..], sep);
      SplitAtSep(parts[0], Join(parts[1..], [sep]), sep);
      assert parts == [parts[0]] + parts[1..];
    }
  }

  /** A character that is neither in any part nor in the separator is not in the join. */
  lemma {:induction false} NotInJoin(parts: seq<string>, sep: string, c: char)
    requires c !in sep
    requires forall i :: 0 <= i < |parts| ==> c !in parts[i]
    ensures c !in Join(parts, sep)
  {
    if |parts| > 1 {
      NotInJoin(parts[1..], sep, c);
    }
  }

  /** The offset at which part `i` starts in `Join(parts, [sep])`: every
      earlier part contributes its length plus one separator. */
  function SlotStart(parts: seq<string>, i: nat): (n: nat)
    requires i <= |parts|
  {
    if i == 0 then 0 else SlotStart(parts, i - 1) + |parts[i - 1]| + 1
  }

  /** The join seen from the start of slot `i` is the join of the parts from `i` on. */
  lemma {:induction false} JoinFrom(parts: seq<string>, sep: char, i: nat)
    requires i < |parts|
    ensures SlotStart(parts, i) <= |Join(parts, [sep])|
    ensures Join(parts, [sep])[SlotStart(parts, i)..] == Join(parts[i..], [sep])
  {
    if i > 0 {
      JoinFrom(parts, sep, i - 1);
      var tail := parts[i - 1..];
      assert tail[1..] == parts[i..];
      assert Join(tail, [sep]) == parts[i - 1] + [sep] + Join(parts[i..], [sep]);
    }
  }

  /** Slot `i` of the joined string holds exactly part `i`; a separator
      follows every slot but the last, and the last slot ends at the end of
      the string. */
  lemma JoinSlot(parts: seq<string>, sep: char, i: nat)
    requires i < |parts|
    ensures SlotStart(parts, i) + |parts[i]| <= |Join(parts, [sep])|
    ensures Join(parts, [sep])[SlotStart(parts, i)..SlotStart(parts, i) + |parts[i]|] == parts[i]
    ensures i < |parts| - 1 ==> SlotStart(parts, i) + |parts[i]| < |Join(parts, [sep])| &&
                                Join(parts, [sep])[SlotStart(parts, i) + |parts[i]|] == sep
    ensures i == |parts| - 1 ==> SlotStart(parts, i) + |parts[i]| == |Join(parts, [sep])|
  {
    JoinFrom(parts, sep, i);
    var tail := parts[i..];
    if |tail| > 1 {
      assert Join(tail, [sep]) == parts[i] + [sep] + Join(tail[1..], [sep]);
    }
  }

  /** `s` with every character of `cs` removed. */
  function Remove(s: string, cs: set<char>): (r: string)
    ensures |r| <= |s|
    ensures forall i :: 0 <= i < |r| ==> r[i] !in cs
  {
    if s == [] then []
    else (if s[0] in cs then [] else [s[0]]) + Remove(s[1..], cs)
  }

  /** Removal distributes over concatenation. */
  lemma {:induction false} RemoveAppend(a: string, b: string, cs: set<char>)
    ensures Remove(a + b, cs) == Remove(a, cs) + Remove(b, cs)
  {
    if a == [] {
      assert a + b == b;
    } else {
      var head := if a[0] in cs then [] else [a[0]];
      assert (a + b)[0] == a[0] && (a + b)[1..] == a[1..] + b;
      assert Remove(a + b, cs) == head + Remove(a[1..] + b, cs);
      assert Remove(a, cs) == head + Remove(a[1..], cs);
      RemoveAppend(a[1..], b, cs);
    }
  }

  /** Removing a string made only of removed characters leaves nothing. */
  lemma {:induction false} RemoveAll(s: string, cs: set<char>)
    requires forall i :: 0 <= i < |s| ==> s[i] in cs
    ensures Remove(s, cs) == []
  {
    if s != [] {
      RemoveAll(s[1..], cs);
    }
  }

  /** Removing characters that do not occur changes nothing. */
  lemma {:induction false} RemoveNothing(s: string, cs: set<char>)
    requires forall i :: 0 <= i < |s| ==> s[i] !in cs
    ensures Remove(s, cs) == s
  {
    if s != [] {
      RemoveNothing(s[1..], cs);
      assert s == [s[0]] + s[1..];
    }
  }

  predicate IsUpper(c: char)
  {
    'A' <= c <= 'Z'
  }

  /** ASCII lower-casing of one character. */
  function LowerChar(c: char): (r: char)
    ensures !IsUpper(r)
    ensures !IsUpper(c) ==> r == c
  {
    if IsUpper(c) then (c as int + 32) as char else c
  }

  /** ASCII lower-casing of a string: no capital letter is left, every other
      character is kept, and each capital becomes its small letter. */
  function Lower(s: string): (r: string)
    ensures |r| == |s|
    ensures forall i :: 0 <= i < |r| ==> !IsUpper(r[i])
    ensures forall i :: 0 <= i < |s| && !IsUpper(s[i]) ==> r[i] == s[i]
    ensures forall i :: 0 <= i < |s| ==> r[i] == LowerChar(s[i])
  {
    seq(|s|, i requires 0 <= i < |s| => LowerChar(s[i]))
  }

  /** Lower-casing twice is lower-casing once. */
  lemma LowerIdempotent(s: string)
    ensures Lower(Lower(s)) == Lower(s)
  {
  }

  /** Two characters are the same letter up to ASCII case. */
  predicate SameLetterIgnoringCase(a: char, b: char)
  {
    a == b || (IsUpper(a) && a as int + 32 == b as int) || (IsUpper(b) && b as int + 32 == a as int)
  }

  /** `s` and `t` differ at most in the case of ASCII letters. */
  predicate EqualIgnoringCase(s: string, t: string)
  {
    |s| == |t| && forall i :: 0 <= i < |s| ==> SameLetterIgnoringCase(s[i], t[i])
  }

  /** Comparing lower-cased strings is comparing up to ASCII case. */
  lemma LowerEqual(s: string, t: string)
    ensures Lower(s) == Lower(t) <==> EqualIgnoringCase(s, t)
  {
    if Lower(s) == Lower(t) {
      forall i | 0 <= i < |s| ensures SameLetterIgnoringCase(s[i], t[i]) {
        assert LowerChar(s[i]) == Lower(s)[i] == Lower(t)[i] == LowerChar(t[i]);
      }
    }
    if EqualIgnoringCase(s, t) {
      forall i | 0 <= i < |s| ensures Lower(s)[i] == Lower(t)[i] {
        assert LowerChar(s[i]) == LowerChar(t[i]);
      }
    }
  }
}
