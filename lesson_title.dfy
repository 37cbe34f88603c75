/**
 * `convertTitleToNumber` (apps/client/composables/main/shareImage/convert.ts):
 * turns a Chinese lesson title such as "第十二课" or "第一.三课" into the
 * decimal form "12" or "1 . 3" printed on the share image.
 *
 * The title loses every 第 and 课, is split on ".", each part is read as a
 * Chinese numeral up to ninety-nine, and the numbers are joined with " . ".
 */
module LessonTitle {
  import opened Text

  const Ten: char := '十'
  const Markers: set<char> := {'第', '课'}

  /** `numMap[c] || 0`: the value of one of the nine digit characters, 0 for
      anything else; no digit character is 十, "." or a marker. */
  function DigitValue(c: char): (n: nat)
    ensures n <= 9
    ensures n != 0 ==> c != Ten && c != '.' && c !in Markers
  {
    match c
    case '一' => 1
    case '二' => 2
    case '三' => 3
    case '四' => 4
    case '五' => 5
    case '六' => 6
    case '七' => 7
    case '八' => 8
    case '九' => 9
    case _ => 0
  }

  /** The digit character for 1..9, the inverse of `DigitValue`. */
  function DigitChar(d: nat): (c: char)
    requires 1 <= d <= 9
    ensures DigitValue(c) == d && c != Ten && c != '.' && c !in Markers
  {
    match d
    case 1 => '一'
    case 2 => '二'
    case 3 => '三'
    case 4 => '四'
    case 5 => '五'
    case 6 => '六'
    case 7 => '七'
    case 8 => '八'
    case 9 => '九'
  }

  /** Each digit character is the one `DigitChar` writes for its value, so
      the nine entries of the map are distinct. */
  lemma DigitRoundTrip(c: char)
    requires DigitValue(c) != 0
    ensures DigitChar(DigitValue(c)) == c
  {
  }

  /** `numMap[s] || 0` for a whole string key: only a one-character digit string has a value. */
  function LookupDigit(s: string): (n: nat)
    ensures 1 <= n <= 9 <==> |s| == 1 && DigitValue(s[0]) != 0
    ensures n <= 9
  {
    if |s| == 1 then DigitValue(s[0]) else 0
  }

  /** The value of one "."-separated part of the stripped title (convert.ts:50-66). */
  function PartValue(part: string): (n: nat)
    ensures n <= 99
  {
    if part == [] then 0
    else if part == [Ten] then 10
    else if part[0] == Ten then 10 + DigitValue(part[1])
    else if part[|part| - 1] == Ten then DigitValue(part[0]) * 10
    else if Ten in part then
      var pieces := Split(part, Ten);
      LookupDigit(pieces[0]) * 10 + LookupDigit(pieces[1])
    else LookupDigit(part)
  }

  /** `num.toString()` for a natural number. */
  function Decimal(n: nat): (r: string)
    ensures |r| >= 1
    ensures forall i :: 0 <= i < |r| ==> '0' <= r[i] <= '9'
  {
    if n < 10 then [('0' as int + n) as char]
    else Decimal(n / 10) + [('0' as int + n % 10) as char]
  }

  /** The numbers of the title, one per "."-separated part of the stripped title. */
  function TitleNumbers(title: string): (ns: seq<nat>)
    ensures |ns| == |Split(Remove(title, Markers), '.')|
    ensures forall i :: 0 <= i < |ns| ==> ns[i] <= 99
  {
    var parts := Split(Remove(title, Markers), '.');
    seq(|parts|, i requires 0 <= i < |parts| => PartValue(parts[i]))
  }

  /** The decimal forms of a list of numbers. */
  function Decimals(ns: seq<nat>): (ds: seq<string>)
    ensures |ds| == |ns|
  {
    seq(|ns|, i requires 0 <= i < |ns| => Decimal(ns[i]))
  }

  /** The characters the converter can print. */
  const OutputChars: set<char> := {'0', '1', '2', '3', '4', '5', '6', '7', '8', '9', ' ', '.'}

  /** `convertTitleToNumber(title)`: never empty, and made of decimal digits,
      spaces and dots only. */
  function ConvertTitleToNumber(title: string): (r: string)
    ensures |r| >= 1
    ensures forall i :: 0 <= i < |r| ==> r[i] in OutputChars
  {
    var ds := Decimals(TitleNumbers(title));
    DecimalsJoinChars(ds);
    Join(ds, " . ")
  }

  /** A " . "-join of decimal strings holds only digits, spaces and dots. */
  lemma DecimalsJoinChars(ds: seq<string>)
    requires forall j :: 0 <= j < |ds| ==> forall k :: 0 <= k < |ds[j]| ==> '0' <= ds[j][k] <= '9'
    ensures forall i :: 0 <= i < |Join(ds, " . ")| ==> Join(ds, " . ")[i] in OutputChars
  {
    var r := Join(ds, " . ");
    forall i | 0 <= i < |r| ensures r[i] in OutputChars {
      var c := r[i];
      if c !in OutputChars {
        assert forall j :: 0 <= j < |ds| ==> c !in ds[j];
        NotInJoin(ds, " . ", c);
      }
    }
  }

  // ---------------------------------------------------------------------------
  // Reading the output back

  /** The value of a string of decimal digits. */
  function DecimalValue(s: string): (n: nat)
  {
    if s == [] then 0
    else
      var d := s[|s| - 1] as int - '0' as int;
      DecimalValue(s[..|s| - 1]) * 10 + (if 0 <= d <= 9 then d else 0)
  }

  /** Reads the numbers back out of a converter output: drop the spaces, split on ".". */
  function ReadNumbers(out: string): (ns: seq<nat>)
  {
    var pieces := Split(Remove(out, {' '}), '.');
    seq(|pieces|, i requires 0 <= i < |pieces| => DecimalValue(pieces[i]))
  }

  lemma {:induction false} DecimalRoundTrip(n: nat)
    ensures DecimalValue(Decimal(n)) == n
  {
    if n >= 10 {
      DecimalRoundTrip(n / 10);
      var s := Decimal(n);
      assert s[..|s| - 1] == Decimal(n / 10);
    }
  }

  /** With " . " between parts that hold no space, dropping the spaces leaves a "."-join. */
  lemma {:induction false} RemoveSpacesJoin(ds: seq<string>)
    requires forall i :: 0 <= i < |ds| ==> ' ' !in ds[i]
    ensures Remove(Join(ds, " . "), {' '}) == Join(ds, ".")
  {
    if |ds| == 1 {
      RemoveNothing(ds[0], {' '});
    } else if |ds| > 1 {
      RemoveSpacesJoin(ds[1..]);
      RemoveAppend(ds[0] + " . ", Join(ds[1..], " . "), {' '});
      RemoveAppend(ds[0], " . ", {' '});
      RemoveNothing(ds[0], {' '});
      assert Remove(" . ", {' '}) == ".";
    }
  }

  /** The output is one decimal per part of the stripped title, in order and
      separated by " . ": reading it back yields exactly `TitleNumbers(title)`
      (convert.ts:34, 48, 68). */
  lemma ConvertTitleRoundTrip(title: string)
    ensures ReadNumbers(ConvertTitleToNumber(title)) == TitleNumbers(title)
  {
    var ns := TitleNumbers(title);
    var ds := Decimals(ns);
    forall i | 0 <= i < |ds| ensures ' ' !in ds[i] && '.' !in ds[i] {
      assert forall k :: 0 <= k < |ds[i]| ==> '0' <= ds[i][k] <= '9';
    }
    RemoveSpacesJoin(ds);
    SplitJoin(ds, '.');
    forall i | 0 <= i < |ns| ensures DecimalValue(ds[i]) == ns[i] {
      DecimalRoundTrip(ns[i]);
    }
  }

  /** Removing 第 and 课 first means they never influence the result. */
  lemma StripIsIdempotent(title: string)
    ensures ConvertTitleToNumber(Remove(title, Markers)) == ConvertTitleToNumber(title)
  {
    RemoveNothing(Remove(title, Markers), Markers);
  }

  // ---------------------------------------------------------------------------
  // The four shapes of a part

  /** An empty part reads 0 and the part "十" reads 10 (convert.ts:51-52). */
  lemma SpecialParts()
    ensures PartValue("") == 0
    ensures PartValue([Ten]) == 10
  {
  }

  /** A part that starts with 十 reads 10 plus the digit after it, so 10..19 (convert.ts:55-56). */
  lemma LeadingTen(part: string)
    requires |part| >= 2 && part[0] == Ten
    ensures PartValue(part) == 10 + DigitValue(part[1])
    ensures 10 <= PartValue(part) <= 19
  {
  }

  /** A part that ends (but does not start) with 十 reads ten times its first character (convert.ts:57-58). */
  lemma TrailingTen(part: string)
    requires |part| >= 2 && part[0] != Ten && part[|part| - 1] == Ten
    ensures PartValue(part) == 10 * DigitValue(part[0])
    ensures PartValue(part) % 10 == 0
  {
  }

  /** A part with 十 strictly inside reads tens from the text before the first
      十 and units from the text between it and the next 十 (or the end)
      (convert.ts:59-61). */
  lemma InnerTen(part: string, i: nat)
    requires 0 < i < |part| - 1 && part[i] == Ten && Ten !in part[..i]
    requires part[|part| - 1] != Ten
    ensures PartValue(part) == 10 * LookupDigit(part[..i]) + LookupDigit(Split(part[i + 1..], Ten)[0])
  {
    assert part == part[..i] + [Ten] + part[i + 1..];
    SplitAtSep(part[..i], part[i + 1..], Ten);
  }

  /** A part without 十 reads 1..9 exactly when it is a single digit character, else 0 (convert.ts:62-63). */
  lemma NoTen(part: string)
    requires Ten !in part
    ensures PartValue(part) == LookupDigit(part)
    ensures 1 <= PartValue(part) <= 9 <==> |part| == 1 && DigitValue(part[0]) != 0
  {
  }

  // ---------------------------------------------------------------------------
  // Chinese numerals are read correctly

  /** The usual written form of 1..99: 七, 十, 十二, 三十, 四十五. */
  function Numeral(n: nat): (s: string)
    requires 1 <= n <= 99
    ensures '.' !in s && forall i :: 0 <= i < |s| ==> s[i] !in Markers
  {
    if n < 10 then [DigitChar(n)]
    else if n == 10 then [Ten]
    else if n < 20 then [Ten, DigitChar(n - 10)]
    else if n % 10 == 0 then [DigitChar(n / 10), Ten]
    else [DigitChar(n / 10), Ten, DigitChar(n % 10)]
  }

  /** Every numeral from one to ninety-nine is read back as its value. */
  lemma NumeralValue(n: nat)
    requires 1 <= n <= 99
    ensures PartValue(Numeral(n)) == n
  {
    var s := Numeral(n);
    if 20 <= n && n % 10 != 0 {
      assert s == [s[0]] + [Ten] + [s[2]];
      SplitAtSep([s[0]], [s[2]], Ten);
      SplitNoSep([s[2]], Ten);
    }
  }

  /** A lesson title written as "第" + numerals joined by "." + "课" converts to
      the decimals joined by " . ". */
  lemma ConvertLessonTitle(ns: seq<nat>)
    requires |ns| >= 1
    requires forall i :: 0 <= i < |ns| ==> 1 <= ns[i] <= 99
    ensures ConvertTitleToNumber("第" + Join(seq(|ns|, i requires 0 <= i < |ns| => Numeral(ns[i])), ".") + "课")
            == Join(Decimals(ns), " . ")
  {
    var parts := seq(|ns|, i requires 0 <= i < |ns| => Numeral(ns[i]));
    var body := Join(parts, ".");
    forall c | c in Markers ensures c !in body {
      NotInJoin(parts, ".", c);
    }
    RemoveNothing(body, Markers);
    RemoveAppend("第", body, Markers);
    RemoveAppend("第" + body, "课", Markers);
    assert Remove("第", Markers) == [];
    assert Remove("课", Markers) == [];
    var title := "第" + body + "课";
    assert Remove("第" + body, Markers) == body;
    assert Remove(title, Markers) == body;
    SplitJoin(parts, '.');
    assert Split(Remove(title, Markers), '.') == parts;
    forall i | 0 <= i < |ns| ensures TitleNumbers(title)[i] == ns[i] {
      NumeralValue(ns[i]);
    }
    assert TitleNumbers(title) == ns;
  }
}
