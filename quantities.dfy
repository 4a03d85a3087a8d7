/** `extraer_unidades` and `extraer_jeringas`: the quantity written before a unit word
    in a note. Each pattern is searched the way `re.search` does it (leftmost start,
    backtracking), and `str.extract` returns its one group. Each recogniser below is
    proved to find, at every start, exactly the group the pattern captures there. */
module Quantities {
  import opened Prelude
  import opened Regex
  import opened Frame
  import opened Numeric

  /** Digits and the separators `.` and `,`. */
  predicate IsNumChar(c: char) { IsDigit(c) || c == '.' || c == ',' }
  predicate AllNumChars(x: string) { forall k :: 0 <= k < |x| ==> IsNumChar(x[k]) }

  /** s[a..b] is `\d+`-material: digits only. */
  predicate DigitsBetween(s: string, a: nat, b: nat)
    requires b <= |s|
  {
    forall k :: a <= k < b ==> IsDigit(s[k])
  }

  /** Position g holds a character that cannot continue a number. */
  predicate Stops(s: string, g: nat) { g < |s| && !IsNumChar(s[g]) }

  /** The unit words of a pattern all start with an upper-case letter. */
  predicate LetterWords(words: seq<string>)
  {
    forall w :: w in words ==> |w| > 0 && IsUpper(w[0])
  }

  /** `(?:w1|w2|...)\b` under `(?i)` matches at j. */
  predicate WordAt(s: string, j: nat, words: seq<string>)
  {
    exists w :: w in words && AtCI(s, j, w) && IsBoundary(s, j + |w|)
  }

  /** `\s*(?:w1|w2|...)\b` under `(?i)` matches from g. */
  ghost predicate WordTail(s: string, g: nat, words: seq<string>)
  {
    exists j :: g <= j <= |s| && AllSpace(s[g..j]) && WordAt(s, j, words)
  }

  /** The same, computed: greedy `\s*` can only give way to a letter at the end of the run. */
  predicate TailAt(s: string, g: nat, words: seq<string>)
    requires g <= |s|
  {
    WordAt(s, RunEnd(s, g, IsSpace), words)
  }

  /** The unit word part matches exactly when the computed check succeeds, and then the
      number before it has ended. */
  lemma TailSpec(s: string, g: nat, words: seq<string>)
    requires g <= |s| && LetterWords(words)
    ensures WordTail(s, g, words) <==> TailAt(s, g, words)
    ensures WordTail(s, g, words) ==> Stops(s, g)
  {
    if WordTail(s, g, words) {
      TailSound(s, g, words);
    }
    if TailAt(s, g, words) {
      TailComplete(s, g, words);
    }
  }

  lemma TailSound(s: string, g: nat, words: seq<string>)
    requires g <= |s| && LetterWords(words) && WordTail(s, g, words)
    ensures TailAt(s, g, words) && Stops(s, g)
  {
    var j :| g <= j <= |s| && AllSpace(s[g..j]) && WordAt(s, j, words);
    var w :| w in words && AtCI(s, j, w) && IsBoundary(s, j + |w|);
    StartsWithLetter(s, j, w);
    SpacesBetween(s, g, j);
    RunEndUnique(s, g, j, IsSpace);
    if j > g {
      SpaceNotNum(s[g]);
    }
  }

  /** A word that starts with a letter, found at j, puts a letter at j. */
  lemma StartsWithLetter(s: string, j: nat, w: string)
    requires AtCI(s, j, w) && |w| > 0 && IsUpper(w[0])
    ensures j < |s| && !IsSpace(s[j]) && !IsNumChar(s[j])
  {
    assert UpperChar(s[j + 0]) == w[0];
    LetterNotSpace(s[j]);
  }

  lemma SpacesBetween(s: string, g: nat, j: nat)
    requires g <= j <= |s| && AllSpace(s[g..j])
    ensures forall k :: g <= k < j ==> IsSpace(s[k])
  {
    forall k | g <= k < j
      ensures IsSpace(s[k])
    {
      assert s[g..j][k - g] == s[k];
    }
  }

  lemma SpaceNotNum(c: char)
    requires IsSpace(c)
    ensures !IsNumChar(c)
  {
  }

  lemma TailComplete(s: string, g: nat, words: seq<string>)
    requires g <= |s| && TailAt(s, g, words)
    ensures WordTail(s, g, words)
  {
    var j := RunEnd(s, g, IsSpace);
    assert AllSpace(s[g..j]);
  }

  /** A character that upper-cases to a letter is a letter, hence neither a space nor
      part of a number. */
  lemma LetterNotSpace(c: char)
    requires IsUpper(UpperChar(c))
    ensures IsLetter(c) && !IsSpace(c) && !IsNumChar(c)
  {
  }

  // ---------------------------------------------------------------- units

  const UnitWords: seq<string> := ["U", "UND", "UNID", "UNIDADES"]

  /** `[.,]\d{3}` at p. */
  predicate SepGroup(s: string, p: nat)
  {
    p + 4 <= |s| && (s[p] == '.' || s[p] == ',') && IsDigit(s[p + 1]) && IsDigit(s[p + 2]) && IsDigit(s[p + 3])
  }

  /** `(?:[.,]\d{3})*` spans exactly s[d..g]. */
  ghost predicate Groups(s: string, d: nat, g: nat)
    decreases g - d
  {
    d == g || (d + 4 <= g && SepGroup(s, d) && Groups(s, d + 4, g))
  }

  /** s[i..g] is `\d+(?:[.,]\d{3})*`. */
  ghost predicate GroupedNumber(s: string, i: nat, g: nat)
  {
    exists d :: i < d <= g <= |s| && DigitsBetween(s, i, d) && Groups(s, d, g)
  }

  /** The pattern of `extraer_unidades`, `(?i)\b(\d+(?:[.,]\d{3})*|\d+)\s*(?:U(?:ND|NID|NIDADES)?)\b`,
      matches at i with its group spanning s[i..g]. Its second alternative `\d+` is the
      first one with no groups. */
  ghost predicate UnitsMatch(s: string, i: nat, g: nat)
  {
    i <= |s| && IsBoundary(s, i) && GroupedNumber(s, i, g) && WordTail(s, g, UnitWords)
  }

  /** Where greedy `(?:[.,]\d{3})*` stops. */
  function GroupsEnd(s: string, d: nat): (g: nat)
    requires d <= |s|
    ensures d <= g <= |s|
    ensures forall k :: d <= k < g ==> IsNumChar(s[k])
    decreases |s| - d
  {
    if SepGroup(s, d) then GroupsEnd(s, d + 4) else d
  }

  lemma {:induction false} GroupsEndSpans(s: string, d: nat)
    requires d <= |s|
    ensures Groups(s, d, GroupsEnd(s, d))
    decreases |s| - d
  {
    if SepGroup(s, d) {
      GroupsEndSpans(s, d + 4);
    }
  }

  /** A run of groups that something other than a digit or separator follows is the
      greedy one. */
  lemma {:induction false} GroupsStop(s: string, d: nat, g: nat)
    requires d <= |s| && Groups(s, d, g) && Stops(s, g)
    ensures g == GroupsEnd(s, d)
    decreases g - d
  {
    if d != g {
      GroupsStop(s, d + 4, g);
    }
  }

  /** The group the unit pattern captures when it matches at i. */
  function UnitsAt(s: string, i: nat): (r: Option<nat>)
    ensures r.Some? ==> i < r.value <= |s| && AllNumChars(s[i..r.value])
  {
    if i < |s| && IsDigit(s[i]) && IsBoundary(s, i) then
      var d := RunEnd(s, i, IsDigit);
      var g := GroupsEnd(s, d);
      if TailAt(s, g, UnitWords) then
        assert forall k :: i <= k < g ==> IsNumChar(s[k]);
        Some(g)
      else None
    else None
  }

  lemma UnitWordsLetters()
    ensures LetterWords(UnitWords)
  {
  }

  /** At each start the unit pattern has at most one group, and UnitsAt finds it. */
  lemma UnitsAtSpec(s: string, i: nat, g: nat)
    requires i <= |s|
    ensures UnitsAt(s, i) == Some(g) <==> UnitsMatch(s, i, g)
  {
    if UnitsMatch(s, i, g) {
      UnitsMatchFound(s, i, g);
    }
    if UnitsAt(s, i) == Some(g) {
      UnitsFoundMatch(s, i, g);
    }
  }

  lemma UnitsMatchFound(s: string, i: nat, g: nat)
    requires i <= |s| && UnitsMatch(s, i, g)
    ensures UnitsAt(s, i) == Some(g)
  {
    UnitWordsLetters();
    var d :| i < d <= g <= |s| && DigitsBetween(s, i, d) && Groups(s, d, g);
    TailSpec(s, g, UnitWords);
    RunEndUnique(s, i, d, IsDigit);
    GroupsStop(s, d, g);
  }

  lemma UnitsFoundMatch(s: string, i: nat, g: nat)
    requires i <= |s| && UnitsAt(s, i) == Some(g)
    ensures UnitsMatch(s, i, g)
  {
    UnitWordsLetters();
    var d := RunEnd(s, i, IsDigit);
    GroupsEndSpans(s, d);
    TailSpec(s, g, UnitWords);
  }

  /** `str.extract(pat_unidades)` on one text: the group of the leftmost match, or None (NaN). */
  function ExtractUnits(t: string): (r: Option<string>)
    ensures r.Some? ==> |r.value| > 0 && AllNumChars(r.value)
  {
    match Leftmost(t, 0, UnitsAt)
    case None => None
    case Some((a, g)) => Some(t[a..g])
  }

  /** The extraction is None exactly when the unit pattern matches nowhere. */
  lemma ExtractUnitsNone(t: string)
    ensures ExtractUnits(t).None? <==> forall a, g :: 0 <= a <= |t| ==> !UnitsMatch(t, a, g)
  {
    var r := Leftmost(t, 0, UnitsAt);
    if r.None? {
      forall a, g | 0 <= a <= |t|
        ensures !UnitsMatch(t, a, g)
      {
        UnitsAtSpec(t, a, g);
      }
    } else {
      UnitsAtSpec(t, r.value.0, r.value.1);
    }
  }

  /** When the leftmost match of the unit pattern starts at a with group end g, the
      extraction is t[a..g]. */
  lemma ExtractUnitsLeftmost(t: string, a: nat, g: nat)
    requires UnitsMatch(t, a, g)
    requires forall a', g' :: 0 <= a' < a ==> !UnitsMatch(t, a', g')
    ensures ExtractUnits(t) == Some(t[a..g])
  {
    UnitsAtSpec(t, a, g);
    forall a' | 0 <= a' < a
      ensures UnitsAt(t, a').None?
    {
      if UnitsAt(t, a').Some? {
        UnitsAtSpec(t, a', UnitsAt(t, a').value);
      }
    }
    LeftmostIs(t, a, g, UnitsAt);
  }

  /** `str.replace(r'[.,]', '')`. */
  function DropSeps(x: string): string
  {
    if x == [] then []
    else (if x[0] == '.' || x[0] == ',' then [] else [x[0]]) + DropSeps(x[1..])
  }

  /** Without its separators a number is digits only ... */
  lemma {:induction false} DropSepsDigits(x: string)
    requires AllNumChars(x)
    ensures AllDigits(DropSeps(x))
  {
    if x != [] {
      DropSepsDigits(x[1..]);
    }
  }

  /** ... and digits are left as they are. */
  lemma {:induction false} DropSepsOfDigits(x: string)
    requires AllDigits(x)
    ensures DropSeps(x) == x
  {
    if x != [] {
      DropSepsOfDigits(x[1..]);
    }
  }

  /** The `unidades` cell of one text: the digits of the group read as an `Int64`, or NA. */
  function UnitsCell(t: string): (r: Cell)
    ensures ExtractUnits(t).Some? ==> AllDigits(DropSeps(ExtractUnits(t).value))
  {
    match ExtractUnits(t)
    case None => Missing(NA)
    case Some(x) =>
      DropSepsDigits(x);
      Int(DigitsValue(DropSeps(x)))
  }

  /** The `unidades` column: `<NA>` exactly where nothing is extracted, and otherwise the
      integer the extracted group's digits spell once its separators are dropped. */
  function UnitsColumn(cells: seq<Cell>): (r: seq<Cell>)
    ensures |r| == |cells|
    ensures forall k :: 0 <= k < |cells| ==> (r[k].Missing? <==> ExtractUnits(AsText(cells[k])).None?)
    ensures forall k :: 0 <= k < |cells| && ExtractUnits(AsText(cells[k])).Some? ==>
      && AllDigits(DropSeps(ExtractUnits(AsText(cells[k])).value))
      && r[k] == Int(DigitsValue(DropSeps(ExtractUnits(AsText(cells[k])).value)))
  {
    seq(|cells|, k requires 0 <= k < |cells| => UnitsCell(AsText(cells[k])))
  }

  /** "1.500 U" is read as 1500 units: the dot is a thousands separator. */
  lemma UnitsThousands(s: string)
    requires s == "1.500 U"
    ensures UnitsCell(s) == Int(1500)
  {
    ThousandsAt(s);
    LeftmostIs(s, 0, 5, UnitsAt);
    assert s[0..5] == "1.500";
    ThousandsDropped("1.500");
    Value1500();
  }

  lemma ThousandsAt(s: string)
    requires s == "1.500 U"
    ensures UnitsAt(s, 0) == Some(5)
  {
    RunEndUnique(s, 0, 1, IsDigit);
    assert SepGroup(s, 1) && !SepGroup(s, 5);
    assert GroupsEnd(s, 1) == 5;
    RunEndUnique(s, 5, 6, IsSpace);
    assert "U" in UnitWords && AtCI(s, 6, "U") && IsBoundary(s, 7);
    assert TailAt(s, 5, UnitWords);
  }

  lemma ThousandsDropped(x: string)
    requires x == "1.500"
    ensures DropSeps(x) == "1500"
  {
    assert x[1..] == ".500" && ".500"[1..] == "500";
    DropSepsOfDigits("500");
    assert ['1'] + "500" == "1500";
  }

  /** "50U" is read as 50 units: no space is needed before the unit word. */
  lemma UnitsGlued(s: string)
    requires s == "50U"
    ensures UnitsCell(s) == Int(50)
  {
    GluedAt(s);
    LeftmostIs(s, 0, 2, UnitsAt);
    assert s[0..2] == "50";
    DropSepsOfDigits("50");
    Value1500();
  }

  lemma GluedAt(s: string)
    requires s == "50U"
    ensures UnitsAt(s, 0) == Some(2)
  {
    RunEndUnique(s, 0, 2, IsDigit);
    assert GroupsEnd(s, 2) == 2;
    RunEndUnique(s, 2, 2, IsSpace);
    assert "U" in UnitWords && AtCI(s, 2, "U") && IsBoundary(s, 3);
    assert TailAt(s, 2, UnitWords);
  }

  // ---------------------------------------------------------------- syringes

  const SyringeWords: seq<string> := ["J", "JER", "JINGA", "JINGAS", "JERINGA", "JERINGAS"]

  /** s[i..g] is `\d+(?:\.\d+)?`. */
  ghost predicate DecimalNumber(s: string, i: nat, g: nat)
  {
    exists d :: i < d <= g <= |s| && DigitsBetween(s, i, d) &&
      (g == d || (d + 1 < g && s[d] == '.' && DigitsBetween(s, d + 1, g)))
  }

  /** The pattern of `extraer_jeringas`, `(?i)\b(\d+(?:\.\d+)?)\s*(?:J(?:ER)?(?:INGAS?)?)\b`,
      matches at i with its group spanning s[i..g]; the words J, JER, JINGA, JINGAS,
      JERINGA and JERINGAS are the six ways through `J(?:ER)?(?:INGAS?)?`. */
  ghost predicate SyringesMatch(s: string, i: nat, g: nat)
  {
    i <= |s| && IsBoundary(s, i) && DecimalNumber(s, i, g) && WordTail(s, g, SyringeWords)
  }

  /** Where greedy `\d+(?:\.\d+)?` stops. */
  function DecimalEnd(s: string, i: nat): (g: nat)
    requires i <= |s|
    ensures i <= g <= |s|
  {
    var d := RunEnd(s, i, IsDigit);
    if d + 1 < |s| && s[d] == '.' && IsDigit(s[d + 1]) then RunEnd(s, d + 1, IsDigit) else d
  }

  /** The group the syringe pattern captures when it matches at i; it always reads as a
      number. */
  function SyringesAt(s: string, i: nat): (r: Option<nat>)
    ensures r.Some? ==> i < r.value <= |s| && IsCleaned(s[i..r.value]) && ParseCleaned(s[i..r.value]).Some?
  {
    if i < |s| && IsDigit(s[i]) && IsBoundary(s, i) then
      var g := DecimalEnd(s, i);
      if TailAt(s, g, SyringeWords) then
        DecimalParses(s, i, RunEnd(s, i, IsDigit), g);
        Some(g)
      else None
    else None
  }

  lemma SyringeWordsLetters()
    ensures LetterWords(SyringeWords)
  {
  }

  /** At each start the syringe pattern has at most one group, and SyringesAt finds it. */
  lemma SyringesAtSpec(s: string, i: nat, g: nat)
    requires i <= |s|
    ensures SyringesAt(s, i) == Some(g) <==> SyringesMatch(s, i, g)
  {
    if SyringesMatch(s, i, g) {
      SyringesMatchFound(s, i, g);
    }
    if SyringesAt(s, i) == Some(g) {
      SyringesFoundMatch(s, i, g);
    }
  }

  lemma SyringesFoundMatch(s: string, i: nat, g: nat)
    requires i <= |s| && SyringesAt(s, i) == Some(g)
    ensures SyringesMatch(s, i, g)
  {
    SyringeWordsLetters();
    TailSpec(s, g, SyringeWords);
    var d := RunEnd(s, i, IsDigit);
    assert DigitsBetween(s, i, d);
  }

  lemma SyringesMatchFound(s: string, i: nat, g: nat)
    requires i <= |s| && SyringesMatch(s, i, g)
    ensures SyringesAt(s, i) == Some(g)
  {
    SyringeWordsLetters();
    var d :| i < d <= g <= |s| && DigitsBetween(s, i, d) &&
      (g == d || (d + 1 < g && s[d] == '.' && DigitsBetween(s, d + 1, g)));
    TailSpec(s, g, SyringeWords);
    RunEndUnique(s, i, d, IsDigit);
    if g != d {
      RunEndUnique(s, d + 1, g, IsDigit);
    }
    assert DecimalEnd(s, i) == g;
    SyringesAtSome(s, i, g);
  }

  /** A run of digits, optionally followed by a dot and more digits, reads as a number:
      an integer exactly when there is no dot. */
  lemma DecimalParses(s: string, i: nat, d: nat, g: nat)
    requires i < d <= g <= |s| && DigitsBetween(s, i, d)
    requires g == d || (d + 1 < g && s[d] == '.' && DigitsBetween(s, d + 1, g))
    ensures IsCleaned(s[i..g]) && ParseCleaned(s[i..g]).Some?
    ensures ParseCleaned(s[i..g]).value.IntNum? <==> d == g
  {
    var x := s[i..g];
    var n := d - i;
    assert IsCleaned(x);
    CountDotsSplit(x, n);
    assert forall k :: 0 <= k < n ==> x[..n][k] != '.';
    DotFreeCount(x[..n]);
    if n < |x| {
      var y := x[n + 1..];
      assert x[n..][1..] == y;
      assert forall k :: 0 <= k < |y| ==> y[k] != '.';
      DotFreeCount(y);
    }
  }

  /** `str.extract(pat_jeringas)` on one text: the group of the leftmost match, or None. */
  function ExtractSyringes(t: string): (r: Option<string>)
    ensures r.Some? ==> IsCleaned(r.value) && ParseCleaned(r.value).Some?
  {
    match Leftmost(t, 0, SyringesAt)
    case None => None
    case Some((a, g)) => Some(t[a..g])
  }

  /** The extraction is None exactly when the syringe pattern matches nowhere. */
  lemma ExtractSyringesNone(t: string)
    ensures ExtractSyringes(t).None? <==> forall a, g :: 0 <= a <= |t| ==> !SyringesMatch(t, a, g)
  {
    var r := Leftmost(t, 0, SyringesAt);
    if r.None? {
      forall a, g | 0 <= a <= |t|
        ensures !SyringesMatch(t, a, g)
      {
        SyringesAtSpec(t, a, g);
      }
    } else {
      SyringesAtSpec(t, r.value.0, r.value.1);
    }
  }

  /** When the leftmost match of the syringe pattern starts at a with group end g, the
      extraction is t[a..g]. */
  lemma ExtractSyringesLeftmost(t: string, a: nat, g: nat)
    requires SyringesMatch(t, a, g)
    requires forall a', g' :: 0 <= a' < a ==> !SyringesMatch(t, a', g')
    ensures ExtractSyringes(t) == Some(t[a..g])
  {
    SyringesAtSpec(t, a, g);
    forall a' | 0 <= a' < a
      ensures SyringesAt(t, a').None?
    {
      if SyringesAt(t, a').Some? {
        SyringesAtSpec(t, a', SyringesAt(t, a').value);
      }
    }
    LeftmostIs(t, a, g, SyringesAt);
  }

  /** `to_numeric` of one row's extraction. */
  function SyringesValue(t: string): Option<Num>
  {
    match ExtractSyringes(t)
    case None => None
    case Some(x) => ParseCleaned(x)
  }

  /** The `jeringas` column: NaN exactly in the rows where nothing was extracted, since
      every extracted group is a number. */
  function SyringesColumn(cells: seq<Cell>): (r: seq<Cell>)
    ensures |r| == |cells|
    ensures forall k :: 0 <= k < |cells| ==> IsNumericCell(r[k])
    ensures forall k :: 0 <= k < |cells| ==> (r[k] == Missing(NaN) <==> ExtractSyringes(AsText(cells[k])).None?)
  {
    NumericColumn(seq(|cells|, k requires 0 <= k < |cells| => SyringesValue(AsText(cells[k]))))
  }

  /** A decimal comma is not part of the syringe pattern: in "1,5 J" the match starts
      after the comma, and the row reads as 5 syringes. */
  lemma SyringesDecimalComma(s: string)
    requires s == "1,5 J"
    ensures ExtractSyringes(s) == Some("5")
    ensures SyringesColumn([Text(s)]) == [Int(5)]
  {
    CommaLeftmost(s);
    var v := s[2..3];
    assert v == "5" && DigitsValue(v) == 5;
    LeftmostValue(s, 2, 3, v);
  }

  /** A leftmost match whose group is a plain digit string gives that integer. */
  lemma LeftmostValue(t: string, a: nat, g: nat, v: string)
    requires Leftmost(t, 0, SyringesAt) == Some((a, g))
    requires a <= g <= |t| && t[a..g] == v && |v| > 0 && AllDigits(v)
    ensures ExtractSyringes(t) == Some(v)
    ensures SyringesColumn([Text(t)]) == [Int(DigitsValue(v))]
  {
    ParseDigits(v);
    SingleIntRow(t, DigitsValue(v));
  }

  lemma CommaLeftmost(s: string)
    requires s == "1,5 J"
    ensures Leftmost(s, 0, SyringesAt) == Some((2, 3))
  {
    CommaNoMatch(s);
    CommaMatch(s);
    LeftmostThird(s, 3, SyringesAt);
  }

  lemma CommaNoMatch(s: string)
    requires s == "1,5 J"
    ensures SyringesAt(s, 0).None? && SyringesAt(s, 1).None?
  {
    assert s[0] == '1' && s[1] == ',' && |s| == 5;
    assert !IsDigit(s[1]) && !IsSpace(s[1]) && !IsUpper(UpperChar(s[1]));
    RunEndUnique(s, 0, 1, IsDigit);
    assert DecimalEnd(s, 0) == 1;
    RunEndUnique(s, 1, 1, IsSpace);
    SyringeWordsLetters();
    NoWordAt(s, 1, SyringeWords);
    assert !TailAt(s, DecimalEnd(s, 0), SyringeWords);
    SyringesAtNone(s, 0);
    SyringesAtNone(s, 1);
  }

  /** The syringe pattern fails at i when no number starts there or no unit word follows. */
  lemma SyringesAtNone(s: string, i: nat)
    requires i <= |s|
    requires i < |s| && IsDigit(s[i]) && IsBoundary(s, i) ==> !TailAt(s, DecimalEnd(s, i), SyringeWords)
    ensures SyringesAt(s, i).None?
  {
  }

  /** No listed word starts at a character that is not a letter in upper case. */
  lemma NoWordAt(s: string, j: nat, words: seq<string>)
    requires LetterWords(words) && j < |s| && !IsUpper(UpperChar(s[j]))
    ensures !WordAt(s, j, words)
  {
    forall w | w in words
      ensures !AtCI(s, j, w)
    {
      assert UpperChar(s[j + 0]) != w[0];
    }
  }

  lemma CommaMatch(s: string)
    requires s == "1,5 J"
    ensures SyringesAt(s, 2) == Some(3)
  {
    assert s[1] == ',' && s[2] == '5' && s[3] == ' ' && s[4] == 'J' && |s| == 5;
    assert IsBoundary(s, 2) && IsBoundary(s, 5) && AtCI(s, 4, "J");
    RunEndUnique(s, 2, 3, IsDigit);
    assert DecimalEnd(s, 2) == 3;
    RunEndUnique(s, 3, 4, IsSpace);
    WordAtWitness(s, 4, SyringeWords, "J");
    SyringesAtSome(s, 2, 3);
  }

  /** One listed word at j, ending at a boundary, is a match of the word part. */
  lemma WordAtWitness(s: string, j: nat, words: seq<string>, w: string)
    requires w in words && AtCI(s, j, w) && IsBoundary(s, j + |w|)
    ensures WordAt(s, j, words)
  {
  }

  /** The syringe pattern captures up to the end g of the number when a unit word follows. */
  lemma SyringesAtSome(s: string, i: nat, g: nat)
    requires i < |s| && IsDigit(s[i]) && IsBoundary(s, i)
    requires g <= |s| && DecimalEnd(s, i) == g && WordAt(s, RunEnd(s, g, IsSpace), SyringeWords)
    ensures SyringesAt(s, i) == Some(g)
  {
  }

  /** A one-row column whose text reads as an integer is an int64 column. */
  lemma SingleIntRow(t: string, n: int)
    requires SyringesValue(t) == Some(IntNum(n))
    ensures SyringesColumn([Text(t)]) == [Int(n)]
  {
    var parsed := seq(1, k requires 0 <= k < 1 => SyringesValue(AsText([Text(t)][k])));
    assert parsed == [Some(IntNum(n))];
    assert AllIntegers(parsed);
  }

  /** `extraer_unidades(df, col_fuente)`: writes `unidades` from the source column's text;
      a missing source column leaves the frame as it was. */
  method ExtraerUnidades(df: DataFrame, colFuente: string)
    requires df.Valid()
    modifies df
    ensures df.Valid() && df.height == old(df.height)
    ensures colFuente !in old(df.cols) ==> df.cols == old(df.cols) && df.names == old(df.names)
    ensures colFuente in old(df.cols) ==>
      df.cols == old(df.cols)["unidades" := UnitsColumn(old(df.cols)[colFuente])]
    ensures colFuente in old(df.cols) ==>
      df.names == if "unidades" in old(df.names) then old(df.names) else old(df.names) + ["unidades"]
  {
    if colFuente in df.cols {
      df.SetColumn("unidades", UnitsColumn(df.cols[colFuente]));
    }
  }

  /** `extraer_jeringas(df, col_fuente)`: writes `jeringas` from the source column's text;
      a missing source column leaves the frame as it was. */
  method ExtraerJeringas(df: DataFrame, colFuente: string := "notas")
    requires df.Valid()
    modifies df
    ensures df.Valid() && df.height == old(df.height)
    ensures colFuente !in old(df.cols) ==> df.cols == old(df.cols) && df.names == old(df.names)
    ensures colFuente in old(df.cols) ==>
      df.cols == old(df.cols)["jeringas" := SyringesColumn(old(df.cols)[colFuente])]
    ensures colFuente in old(df.cols) ==>
      df.names == if "jeringas" in old(df.names) then old(df.names) else old(df.names) + ["jeringas"]
  {
    if colFuente in df.cols {
      df.SetColumn("jeringas", SyringesColumn(df.cols[colFuente]));
    }
  }
}
