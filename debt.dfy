/** `marcar_deuda`, `marcar_deuda_con_contexto_reforjado` and `extraer_monto_deuda`:
    whether a note records a debt, whether that debt is still owed, and the amount
    written after the word DEUDA. */
module Debt {
  import opened Prelude
  import opened Regex
  import opened Frame
  import opened Numeric
  import opened Quantities

  // ---------------------------------------------------------------- flags

  /** `\bDEUDA\b`. */
  const DeudaWord: Pattern := Word("DEUDA")

  /** `str.contains(r'(?i)\bDEUDA\b')`: with ASCII letters, matching case-insensitively
      is matching the upper-cased text. */
  predicate DebtFlag(t: string)
  {
    Search(DeudaWord, UpperAscii(t))
  }

  /** DEUDA occurs at i in u as a whole word. */
  predicate WholeDeudaAt(u: string, i: nat)
  {
    WholeWordAt(u, i, "DEUDA")
  }

  /** A note is flagged exactly when its upper-cased text holds DEUDA as a whole word. */
  lemma DebtFlagSpec(t: string)
    ensures DebtFlag(t) <==> exists i :: 0 <= i <= |t| && WholeDeudaAt(UpperAscii(t), i)
  {
    FlagIsWordSearch(t);
    DeudaToken("DEUDA");
    WordFlag("DEUDA", UpperAscii(t), |t|);
    DeudaAtWord(UpperAscii(t));
  }

  lemma FlagIsWordSearch(t: string)
    ensures DebtFlag(t) <==> Search(Word("DEUDA"), UpperAscii(t))
  {
  }

  lemma DeudaAtWord(u: string)
    ensures (exists i :: 0 <= i <= |u| && WholeWordAt(u, i, "DEUDA")) <==> exists i :: 0 <= i <= |u| && WholeDeudaAt(u, i)
  {
    if exists i :: 0 <= i <= |u| && WholeWordAt(u, i, "DEUDA") {
      var i :| 0 <= i <= |u| && WholeWordAt(u, i, "DEUDA");
      assert WholeDeudaAt(u, i);
    }
    if exists i :: 0 <= i <= |u| && WholeDeudaAt(u, i) {
      var i :| 0 <= i <= |u| && WholeDeudaAt(u, i);
      assert WholeWordAt(u, i, "DEUDA");
    }
  }

  lemma DeudaToken(w: string)
    requires w == "DEUDA"
    ensures IsToken(w)
  {
  }

  /** WordSearch, over a text of the given length. */
  lemma WordFlag(w: string, u: string, n: nat)
    requires IsToken(w) && |u| == n
    ensures Search(Word(w), u) <==> exists i :: 0 <= i <= n && WholeWordAt(u, i, w)
  {
    WordSearch(w, u);
  }

  /** `(?:CANCEL[AO]|PAGO)\s+\bDEUDA\b`, as its two branches. */
  const Excepciones: seq<Pattern> := [
    Lits("CANCEL") + [Class("AO"), Space, Spaces] + DeudaWord,
    Lits("PAGO") + [Space, Spaces] + DeudaWord
  ]

  /** `deuda_generada` for one note: DEUDA as a word in the upper-cased text, and no
      "CANCELA", "CANCELO" or "PAGO" right before such a word. */
  predicate ContextFlag(t: string)
  {
    var u := UpperAscii(t);
    Search(DeudaWord, u) && !SearchAny(Excepciones, u)
  }

  /** `\s*\bDEUDA\b` matching anywhere means DEUDA is found as a word. */
  lemma {:induction false} SpacesThenWord(u: string, i: nat)
    requires i <= |u| && MatchFrom([Spaces] + DeudaWord, u, i)
    ensures Search(DeudaWord, u)
    decreases |u| - i
  {
    var p := [Spaces] + DeudaWord;
    assert p[0] == Spaces && p[1..] == DeudaWord;
    if MatchFrom(DeudaWord, u, i) {
      SearchAt(DeudaWord, u, i);
    } else {
      SpacesThenWord(u, i + 1);
    }
  }

  /** Every exception ends in a whole-word DEUDA, so an exception never fires where the
      plain sensor does not. */
  lemma ExceptionHasWord(u: string)
    requires SearchAny(Excepciones, u)
    ensures Search(DeudaWord, u)
  {
    var b :| b in Excepciones && Search(b, u);
    var i :| 0 <= i <= |u| && MatchFrom(b, u, i);
    var tail := [Spaces] + DeudaWord;
    var prefix := if b == Excepciones[0] then Lits("CANCEL") + [Class("AO"), Space] else Lits("PAGO") + [Space];
    assert b == prefix + tail;
    if b == Excepciones[0] {
      OneCharLits("CANCEL", [Class("AO"), Space]);
    } else {
      OneCharLits("PAGO", [Space]);
    }
    OneCharPrefix(prefix, tail, u, i);
    SpacesThenWord(u, i + |prefix|);
  }

  /** The contextual flag refines the plain one: it is never raised where `marcar_deuda`
      is not, and it is lowered exactly for the notes that match an exception. */
  lemma ContextRefinesFlag(t: string)
    ensures ContextFlag(t) ==> DebtFlag(t)
    ensures DebtFlag(t) && !ContextFlag(t) <==> SearchAny(Excepciones, UpperAscii(t))
  {
    if SearchAny(Excepciones, UpperAscii(t)) {
      ExceptionHasWord(UpperAscii(t));
    }
  }

  /** A text with no C and no O matches no exception: both start with CANCEL or PAGO. */
  lemma NoExceptionWithout(u: string)
    requires forall k :: 0 <= k < |u| ==> u[k] != 'C' && u[k] != 'O'
    ensures !SearchAny(Excepciones, u)
  {
    forall b, i | b in Excepciones && 0 <= i <= |u|
      ensures !MatchFrom(b, u, i)
    {
      if b == Excepciones[0] {
        var rest := [Class("AO"), Space, Spaces] + DeudaWord;
        assert b == Lits("CANCEL") + rest;
        LitsMatch("CANCEL", rest, u, i);
        assert !At(u, i, "CANCEL") by {
          if i + 6 <= |u| {
            assert u[i..i + 6][0] == u[i];
          }
        }
      } else {
        var rest := [Space, Spaces] + DeudaWord;
        assert b == Lits("PAGO") + rest;
        LitsMatch("PAGO", rest, u, i);
        assert !At(u, i, "PAGO") by {
          if i + 4 <= |u| {
            assert u[i..i + 4][3] == u[i + 3];
          }
        }
      }
    }
  }

  /** A whole-word DEUDA is found by the sensor's pattern. */
  lemma FoundWord(u: string, i: nat)
    requires i <= |u| && WholeDeudaAt(u, i)
    ensures Search(DeudaWord, u)
  {
    assert IsToken("DEUDA");
    WordMatch("DEUDA", u, i);
    SearchAt(DeudaWord, u, i);
  }

  /** PAGO, a space, then a whole-word DEUDA is an exception. */
  lemma PagoBefore(u: string, i: nat)
    requires At(u, i, "PAGO") && i + 4 < |u| && IsSpace(u[i + 4]) && WholeDeudaAt(u, i + 5)
    ensures SearchAny(Excepciones, u)
  {
    var tail := [Spaces] + DeudaWord;
    var b := Excepciones[1];
    assert b == Lits("PAGO") + ([Space] + tail);
    LitsMatch("PAGO", [Space] + tail, u, i);
    assert ([Space] + tail)[0] == Space && ([Space] + tail)[1..] == tail;
    assert tail[0] == Spaces && tail[1..] == DeudaWord;
    assert IsToken("DEUDA");
    WordMatch("DEUDA", u, i + 5);
    assert MatchFrom(b, u, i);
    SearchAt(b, u, i);
  }

  /** Text without lower-case letters is its own upper-case form. */
  lemma UpperSame(u: string)
    requires forall k :: 0 <= k < |u| ==> !IsLower(u[k])
    ensures UpperAscii(u) == u
  {
  }

  /** "PAGO DEUDA" (the debt was paid) is a debt for `marcar_deuda` but not for the
      contextual sensor. */
  lemma PaidDebt(u: string)
    requires u == "PAGO DEUDA"
    ensures DebtFlag(u) && !ContextFlag(u)
  {
    UpperSame(u);
    assert u[5..10] == "DEUDA" && u[0..4] == "PAGO";
    FoundWord(u, 5);
    PagoBefore(u, 0);
  }

  /** "DEUDA PAGADA" keeps its flag: the exceptions only look before the word. */
  lemma DebtThenPaid(u: string)
    requires u == "DEUDA PAGADA"
    ensures ContextFlag(u)
  {
    UpperSame(u);
    assert u[0..5] == "DEUDA";
    FoundWord(u, 0);
    NoExceptionWithout(u);
  }

  // ---------------------------------------------------------------- amount

  predicate NotDigit(c: char) { !IsDigit(c) }

  /** No digit in s[a..b]. */
  predicate NoDigitBetween(s: string, a: nat, b: nat)
    requires b <= |s|
  {
    forall k :: a <= k < b ==> !IsDigit(s[k])
  }

  /** `[.,]\d{2}` at g. */
  predicate CentsAt(s: string, g: nat)
  {
    g + 3 <= |s| && (s[g] == '.' || s[g] == ',') && IsDigit(s[g + 1]) && IsDigit(s[g + 2])
  }

  /** The group `\d+(?:[.,]\d{3})*(?:[.,]\d{2})?` of the first amount pattern spans
      s[p..e]: digits up to d, thousands groups up to g, then optional cents. */
  ghost predicate AmountSpan(s: string, p: nat, e: nat)
  {
    exists d, g :: AmountParts(s, p, d, g, e)
  }

  ghost predicate AmountParts(s: string, p: nat, d: nat, g: nat, e: nat)
  {
    && p < d <= g <= e <= |s|
    && DigitsBetween(s, p, d) && Groups(s, d, g)
    && (e == g || (e == g + 3 && CentsAt(s, g)))
    && forall k :: p <= k < e ==> IsNumChar(s[k])
  }

  /** Where the greedy group stops when it starts at the digit s[p]. */
  function AmountEnd(s: string, p: nat): (e: nat)
    requires p < |s| && IsDigit(s[p])
    ensures p < e <= |s|
    ensures forall k :: p <= k < e ==> IsNumChar(s[k])
  {
    var d := RunEnd(s, p, IsDigit);
    var g := GroupsEnd(s, d);
    if CentsAt(s, g) then g + 3 else g
  }

  /** The greedy group is an amount span ... */
  lemma AmountEndSpans(s: string, p: nat)
    requires p < |s| && IsDigit(s[p])
    ensures AmountParts(s, p, RunEnd(s, p, IsDigit), GroupsEnd(s, RunEnd(s, p, IsDigit)), AmountEnd(s, p))
  {
    GroupsEndSpans(s, RunEnd(s, p, IsDigit));
  }

  /** ... and the longest one from p. */
  lemma AmountLongest(s: string, p: nat, d: nat, g: nat, e: nat)
    requires p < |s| && IsDigit(s[p]) && AmountParts(s, p, d, g, e)
    ensures e <= AmountEnd(s, p)
  {
    var d0 := RunEnd(s, p, IsDigit);
    if d < d0 {
      assert IsDigit(s[d]);
      assert d == g;
    } else {
      GroupsBelow(s, d, g);
    }
  }

  /** A run of thousands groups from d ends at the greedy end or at least one group
      before it. */
  lemma {:induction false} GroupsBelow(s: string, d: nat, g: nat)
    requires d <= |s| && Groups(s, d, g)
    ensures g == GroupsEnd(s, d) || g + 4 <= GroupsEnd(s, d)
    decreases g - d
  {
    if d != g {
      GroupsBelow(s, d + 4, g);
    } else if SepGroup(s, d) {
      assert GroupsEnd(s, d) == GroupsEnd(s, d + 4);
    }
  }

  /** `(?i)DEUDA[^0-9]*[S$\/]*\s*(?:USD|US\$|S\/|\$)?\s*(group)` matches at i with its
      group spanning s[p..e]. Everything between DEUDA and the group is read by classes
      that exclude digits, and `[^0-9]*` alone reads any digit-free stretch, so the part
      before the group matches exactly the digit-free stretches. */
  ghost predicate Pat1Match(s: string, i: nat, p: nat, e: nat)
  {
    AtCI(s, i, "DEUDA") && i + 5 <= p <= |s| && NoDigitBetween(s, i + 5, p) && AmountSpan(s, p, e)
  }

  /** The group of the first amount pattern at i. Nothing after the group can fail, so
      the first choice of every greedy quantifier is kept: the group starts at the first
      digit after DEUDA and is the longest amount from there. */
  function Pat1At(s: string, i: nat): (r: Option<(nat, nat)>)
    ensures r.Some? ==> i + 5 <= r.value.0 < r.value.1 <= |s|
    ensures r.Some? ==> forall k :: r.value.0 <= k < r.value.1 ==> IsNumChar(s[k])
  {
    if AtCI(s, i, "DEUDA") then
      var p := RunEnd(s, i + 5, NotDigit);
      if p < |s| then Some((p, AmountEnd(s, p))) else None
    else None
  }

  /** What Pat1At finds is a match ... */
  lemma Pat1Sound(s: string, i: nat)
    requires Pat1At(s, i).Some?
    ensures Pat1Match(s, i, Pat1At(s, i).value.0, Pat1At(s, i).value.1)
  {
    var p := Pat1At(s, i).value.0;
    AmountEndSpans(s, p);
  }

  /** ... every match at i has the same start and a group no longer than it ... */
  lemma Pat1Greedy(s: string, i: nat, p: nat, e: nat)
    requires Pat1Match(s, i, p, e)
    ensures Pat1At(s, i).Some? && Pat1At(s, i).value.0 == p && e <= Pat1At(s, i).value.1
  {
    var d, g :| AmountParts(s, p, d, g, e);
    assert IsDigit(s[p]);
    RunEndUnique(s, i + 5, p, NotDigit);
    AmountLongest(s, p, d, g, e);
  }

  /** ... and there is a match exactly when some digit follows the DEUDA at i. */
  lemma Pat1Exists(s: string, i: nat)
    ensures Pat1At(s, i).Some? <==> AtCI(s, i, "DEUDA") && exists k :: i + 5 <= k < |s| && IsDigit(s[k])
  {
    if AtCI(s, i, "DEUDA") && exists k :: i + 5 <= k < |s| && IsDigit(s[k]) {
      var k :| i + 5 <= k < |s| && IsDigit(s[k]);
      assert RunEnd(s, i + 5, NotDigit) <= k;
    }
  }

  /** `str.extract(pat1)`: the group of the leftmost match. */
  function Monto1(t: string): (r: Option<string>)
    ensures r.Some? ==> |r.value| > 0 && AllNumChars(r.value)
  {
    match Leftmost(t, 0, Pat1At)
    case None => None
    case Some((a, pe)) => Some(t[pe.0..pe.1])
  }

  /** The first pattern extracts something exactly when some DEUDA (in any case) has a
      digit somewhere after it. */
  lemma Monto1Exists(t: string)
    ensures Monto1(t).Some? <==> exists i, k :: 0 <= i && i + 5 <= k < |t| && AtCI(t, i, "DEUDA") && IsDigit(t[k])
  {
    if exists i, k :: 0 <= i && i + 5 <= k < |t| && AtCI(t, i, "DEUDA") && IsDigit(t[k]) {
      var i, k :| 0 <= i && i + 5 <= k < |t| && AtCI(t, i, "DEUDA") && IsDigit(t[k]);
      Pat1Exists(t, i);
    }
    var r := Leftmost(t, 0, Pat1At);
    if r.Some? {
      var i := r.value.0;
      Pat1Exists(t, i);
    }
  }

  /** `(?i)DEUDA[^0-9]*([\d.,]+)\s*(?:USD|US\$|DOLARES?|SOLES?)?` matches at i with its
      group spanning s[q..r]; the optional tail can always match nothing. */
  ghost predicate Pat2Match(s: string, i: nat, q: nat, r: nat)
  {
    && AtCI(s, i, "DEUDA") && i + 5 <= q < r <= |s|
    && NoDigitBetween(s, i + 5, q)
    && forall k :: q <= k < r ==> IsNumChar(s[k])
  }

  /** The last `.` or `,` in s[lo..hi]. */
  function LastSep(s: string, lo: nat, hi: nat): (r: Option<nat>)
    requires hi <= |s|
    ensures r.Some? ==> lo <= r.value < hi && (s[r.value] == '.' || s[r.value] == ',')
    ensures r.Some? ==> forall k :: r.value < k < hi ==> s[k] != '.' && s[k] != ','
    ensures r.None? ==> forall k :: lo <= k < hi ==> s[k] != '.' && s[k] != ','
    decreases hi
  {
    if hi <= lo then None
    else if s[hi - 1] == '.' || s[hi - 1] == ',' then Some(hi - 1)
    else LastSep(s, lo, hi - 1)
  }

  /** The group of the second amount pattern at i: greedy `[^0-9]*` gives way as little
      as it must, so the group starts at the first digit after DEUDA or, when no digit
      follows, at the last separator; greedy `[\d.,]+` then takes the whole run. */
  function Pat2At(s: string, i: nat): (r: Option<(nat, nat)>)
    ensures r.Some? ==> i + 5 <= r.value.0 < r.value.1 <= |s|
    ensures r.Some? ==> forall k :: r.value.0 <= k < r.value.1 ==> IsNumChar(s[k])
  {
    if AtCI(s, i, "DEUDA") then
      var f := RunEnd(s, i + 5, NotDigit);
      if f < |s| then Some((f, RunEnd(s, f, IsNumChar)))
      else match LastSep(s, i + 5, |s|)
        case None => None
        case Some(k) => Some((k, RunEnd(s, k, IsNumChar)))
    else None
  }

  /** What Pat2At finds is a match, and the one the backtracking search tries first: no
      match starts later, and none with the same start ends later. */
  lemma Pat2Spec(s: string, i: nat, q: nat, r: nat)
    requires Pat2At(s, i).Some?
    ensures Pat2Match(s, i, Pat2At(s, i).value.0, Pat2At(s, i).value.1)
    ensures Pat2Match(s, i, q, r) ==> q <= Pat2At(s, i).value.0
    ensures Pat2Match(s, i, q, r) && q == Pat2At(s, i).value.0 ==> r <= Pat2At(s, i).value.1
  {
    var f := RunEnd(s, i + 5, NotDigit);
    if Pat2Match(s, i, q, r) {
      var q0 := Pat2At(s, i).value.0;
      if f == |s| {
        assert IsNumChar(s[q]);
      }
    }
  }

  /** Whenever the second pattern matches at i, Pat2At finds a group there. */
  lemma Pat2Complete(s: string, i: nat, q: nat, r: nat)
    requires Pat2Match(s, i, q, r)
    ensures Pat2At(s, i).Some?
  {
    assert IsNumChar(s[q]);
  }

  function Monto2(t: string): (r: Option<string>)
    ensures r.Some? ==> |r.value| > 0 && AllNumChars(r.value)
  {
    match Leftmost(t, 0, Pat2At)
    case None => None
    case Some((a, qr)) => Some(t[qr.0..qr.1])
  }

  /** When the first pattern finds nothing, no digit follows any DEUDA, so what the second
      one finds is made of separators alone. */
  lemma Monto2Separators(t: string)
    requires Monto1(t).None? && Monto2(t).Some?
    ensures forall k :: 0 <= k < |Monto2(t).value| ==> !IsDigit(Monto2(t).value[k])
  {
    var i := Leftmost(t, 0, Pat2At).value.0;
    var qr := Leftmost(t, 0, Pat2At).value.1;
    assert Pat1At(t, i).None?;
    assert RunEnd(t, i + 5, NotDigit) == |t|;
    forall k | 0 <= k < |Monto2(t).value|
      ensures !IsDigit(Monto2(t).value[k])
    {
      assert Monto2(t).value[k] == t[qr.0 + k];
    }
  }

  /** `monto1.fillna(monto2)`. */
  function Combined(t: string): (r: Option<string>)
    ensures r.Some? ==> AllNumChars(r.value)
  {
    if Monto1(t).Some? then Monto1(t) else Monto2(t)
  }

  /** `[.,](?=\d{3}\b)` matches at k of x. */
  predicate ThousandsSepAt(x: string, k: nat)
  {
    && k + 4 <= |x| && (x[k] == '.' || x[k] == ',')
    && IsDigit(x[k + 1]) && IsDigit(x[k + 2]) && IsDigit(x[k + 3])
    && IsBoundary(x, k + 4)
  }

  /** `re.sub(r'[.,](?=\d{3}\b)', '', x)` from position k on: each match is one character,
      so the scan keeps every character that does not start a match. */
  function DropThousands(x: string, k: nat): string
    requires k <= |x|
    decreases |x| - k
  {
    if k == |x| then []
    else (if ThousandsSepAt(x, k) then [] else [x[k]]) + DropThousands(x, k + 1)
  }

  /** The scan only removes characters, so it keeps every property all of them share. */
  lemma {:induction false} DropThousandsKeeps(x: string, k: nat, ok: char -> bool)
    requires k <= |x| && forall j :: k <= j < |x| ==> ok(x[j])
    ensures forall j :: 0 <= j < |DropThousands(x, k)| ==> ok(DropThousands(x, k)[j])
    decreases |x| - k
  {
    if k < |x| {
      DropThousandsKeeps(x, k + 1, ok);
    }
  }

  /** `str.replace(',', '.')`. */
  function CommaToDot(x: string): (r: string)
    ensures |r| == |x|
    ensures forall k :: 0 <= k < |x| ==> r[k] == if x[k] == ',' then '.' else x[k]
  {
    seq(|x|, k requires 0 <= k < |x| => if x[k] == ',' then '.' else x[k])
  }

  /** The text `to_numeric` reads from an extracted amount. */
  function CleanAmount(x: string): (r: string)
    ensures AllNumChars(x) ==> IsCleaned(r)
  {
    if AllNumChars(x) then
      DropThousandsKeeps(x, 0, IsNumChar);
      CommaToDot(DropThousands(x, 0))
    else CommaToDot(DropThousands(x, 0))
  }

  /** An extracted amount x: digits up to d, thousands groups up to g, then either the
      end or a two-digit decimal part. */
  ghost predicate AmountText(x: string, d: nat, g: nat)
  {
    AmountParts(x, 0, d, g, |x|)
  }

  /** The number such an amount denotes when read with its separators as thousands
      marks and a final two-digit part as cents. */
  ghost function Reading(x: string, d: nat, g: nat): Num
    requires AmountText(x, d, g)
  {
    assert AllNumChars(x[..g]);
    DropSepsDigits(x[..g]);
    var whole := DigitsValue(DropSeps(x[..g]));
    if g == |x| then IntNum(whole)
    else DecNum(whole as real + DigitsValue(x[g + 1..]) as real / 100.0)
  }

  lemma {:induction false} KeepDigitsRun(x: string, i: nat, j: nat)
    requires i <= j <= |x| && DigitsBetween(x, i, j)
    ensures DropThousands(x, i) == x[i..j] + DropThousands(x, j)
    decreases j - i
  {
    if i < j {
      KeepDigitsRun(x, i + 1, j);
      assert x[i..j] == [x[i]] + x[i + 1..j];
    }
  }

  lemma {:induction false} DropSepsConcat(a: string, b: string)
    ensures DropSeps(a + b) == DropSeps(a) + DropSeps(b)
    decreases |a|
  {
    if a == [] {
      assert a + b == b;
    } else {
      var ab := a + b;
      assert ab[0] == a[0] && ab[1..] == a[1..] + b;
      DropSepsConcat(a[1..], b);
    }
  }

  /** Every separator before a full thousands group is removed, and the group's digits
      are kept. */
  lemma {:induction false} KeepGroups(x: string, d: nat, g: nat)
    requires 0 < d <= g <= |x| && Groups(x, d, g) && (g == |x| || !IsWordChar(x[g]))
    ensures DropThousands(x, d) == DropSeps(x[d..g]) + DropThousands(x, g)
    decreases g - d
  {
    if d < g {
      SepBeforeGroup(x, d, g);
      KeepDigitsRun(x, d + 1, d + 4);
      KeepGroups(x, d + 4, g);
      DropSepsGroup(x, d, g);
      Regroup(x[d + 1..d + 4], DropSeps(x[d + 4..g]), DropThousands(x, g));
    }
  }

  /** The separator that starts a thousands group is removed: three digits follow it,
      and then a separator or the end of the amount. */
  lemma SepBeforeGroup(x: string, d: nat, g: nat)
    requires d < g <= |x| && Groups(x, d, g) && (g == |x| || !IsWordChar(x[g]))
    ensures d + 4 <= g && Groups(x, d + 4, g)
    ensures DropThousands(x, d) == DropThousands(x, d + 1)
  {
    assert SepGroup(x, d) && Groups(x, d + 4, g);
    if d + 4 < g {
      assert SepGroup(x, d + 4);
    }
    assert ThousandsSepAt(x, d);
  }

  /** Dropping the separators of a thousands group leaves its three digits. */
  lemma DropSepsGroup(x: string, d: nat, g: nat)
    requires d + 4 <= g <= |x| && SepGroup(x, d)
    ensures DropSeps(x[d..g]) == x[d + 1..d + 4] + DropSeps(x[d + 4..g])
  {
    var y := x[d..g];
    assert y[0] == x[d] && y[1..] == x[d + 1..g];
    var z := x[d + 1..g];
    assert z == x[d + 1..d + 4] + x[d + 4..g];
    DropSepsConcat(x[d + 1..d + 4], x[d + 4..g]);
    DropSepsOfDigits(x[d + 1..d + 4]);
  }

  /** The cleaned text of an amount: its digits up to the cents, then a dot and the
      cents when there are any. */
  lemma CleanReading(x: string, d: nat, g: nat)
    requires AmountText(x, d, g)
    ensures CleanAmount(x) == DropSeps(x[..g]) + (if g == |x| then [] else "." + x[g + 1..])
  {
    ThousandsRemoved(x, d, g);
    assert AllNumChars(x[..g]);
    DropSepsDigits(x[..g]);
    var a := DropSeps(x[..g]);
    if g == |x| {
      CommaToDotDigits(a, []);
    } else {
      CommaToDotDigits(a, [x[g]] + x[g + 1..]);
    }
  }

  /** Removing the thousands separators of an amount leaves the digits before the cents,
      then the cents with their separator. */
  lemma ThousandsRemoved(x: string, d: nat, g: nat)
    requires AmountText(x, d, g)
    ensures DropThousands(x, 0) == DropSeps(x[..g]) + (if g == |x| then [] else [x[g]] + x[g + 1..])
  {
    var tail := if g == |x| then [] else [x[g]] + x[g + 1..];
    assert DropThousands(x, g) == tail by {
      if g < |x| {
        CentsKept(x, g);
      }
    }
    assert g == |x| || !IsWordChar(x[g]);
    Assemble(x, d, g, tail);
  }

  lemma Assemble(x: string, d: nat, g: nat, tail: string)
    requires 0 < d <= g <= |x| && DigitsBetween(x, 0, d) && Groups(x, d, g)
    requires g == |x| || !IsWordChar(x[g])
    requires DropThousands(x, g) == tail
    ensures DropThousands(x, 0) == DropSeps(x[..g]) + tail
  {
    KeepDigitsRun(x, 0, d);
    assert x[0..d] == x[..d];
    KeepGroups(x, d, g);
    DigitsThenGroups(x, d, g);
    Regroup(x[..d], DropSeps(x[d..g]), tail);
  }

  lemma DigitsThenGroups(x: string, d: nat, g: nat)
    requires d <= g <= |x| && DigitsBetween(x, 0, d)
    ensures DropSeps(x[..g]) == x[..d] + DropSeps(x[d..g])
  {
    assert x[..g] == x[..d] + x[d..g];
    DropSepsConcat(x[..d], x[d..g]);
    DropSepsOfDigits(x[..d]);
  }

  /** The separator of a two-digit ending is no thousands separator. */
  lemma CentsKept(x: string, g: nat)
    requires g + 3 == |x| && CentsAt(x, g)
    ensures DropThousands(x, g) == [x[g]] + x[g + 1..]
  {
    assert !ThousandsSepAt(x, g);
    KeepDigitsRun(x, g + 1, |x|);
  }

  /** `str.replace(',', '.')` keeps digits and turns the separator that follows them
      into a dot. */
  lemma CommaToDotDigits(a: string, tail: string)
    requires AllDigits(a)
    requires tail != [] ==> (tail[0] == '.' || tail[0] == ',') && AllDigits(tail[1..])
    ensures CommaToDot(a + tail) == a + (if tail == [] then [] else "." + tail[1..])
  {
    var dt := a + tail;
    var want := a + (if tail == [] then [] else "." + tail[1..]);
    assert |CommaToDot(dt)| == |want|;
    forall k | 0 <= k < |dt|
      ensures CommaToDot(dt)[k] == want[k]
    {
      if k < |a| {
        assert dt[k] == a[k] && want[k] == a[k];
      } else if k > |a| {
        assert dt[k] == tail[1..][k - |a| - 1] && want[k] == dt[k];
      }
    }
  }

  /** Digits, a dot and more digits read as a decimal. */
  lemma ParseDecimal(a: string, c: string)
    requires |a| > 0 && AllDigits(a) && AllDigits(c)
    ensures IsCleaned(a + "." + c)
    ensures ParseCleaned(a + "." + c) == Some(DecNum(DigitsValue(a) as real + DigitsValue(c) as real / Pow10(|c|) as real))
  {
    var t := a + "." + c;
    DecimalPieces(a, c);
    DotFreeCount(c);
    DotFreeCount(a);
    var v := DigitsValue(a) as real + DigitsValue(c) as real / Pow10(|c|) as real;
    assert ParseCleaned(t) == Some(DecNum(v));
  }

  lemma DecimalPieces(a: string, c: string)
    requires AllDigits(a) && AllDigits(c)
    ensures IsCleaned(a + "." + c)
    ensures DotIndex(a + "." + c) == |a|
    ensures (a + "." + c)[..|a|] == a && (a + "." + c)[|a| + 1..] == c
  {
    var t := a + "." + c;
    assert t[|a|] == '.';
  }

  /** An extracted amount is read as the number it denotes. */
  lemma AmountReading(x: string, d: nat, g: nat)
    requires AmountText(x, d, g)
    ensures IsCleaned(CleanAmount(x)) && ParseCleaned(CleanAmount(x)) == Some(Reading(x, d, g))
  {
    CleanReading(x, d, g);
    WholeDigits(x, d, g);
    ReadingIs(x, d, g);
    var a := DropSeps(x[..g]);
    if g == |x| {
      assert a + [] == a;
      ParseDigits(a);
    } else {
      CentsCore(a, x[g + 1..], CleanAmount(x), Reading(x, d, g));
    }
  }

  lemma CentsCore(a: string, c: string, clean: string, r: Num)
    requires |a| > 0 && AllDigits(a) && |c| == 2 && AllDigits(c) && clean == a + ("." + c)
    requires r == DecNum(DigitsValue(a) as real + DigitsValue(c) as real / 100.0)
    ensures IsCleaned(clean) && ParseCleaned(clean) == Some(r)
  {
    ReadCents(a, c);
    Regroup(a, ".", c);
  }

  /** Reading of an amount, written out on its whole digits and its cents. */
  lemma ReadingIs(x: string, d: nat, g: nat)
    requires AmountText(x, d, g)
    ensures AllNumChars(x[..g]) && AllDigits(DropSeps(x[..g]))
    ensures g == |x| || (g + 3 == |x| && |x[g + 1..]| == 2 && AllDigits(x[g + 1..]))
    ensures Reading(x, d, g) == (if g == |x| then IntNum(DigitsValue(DropSeps(x[..g])))
      else DecNum(DigitsValue(DropSeps(x[..g])) as real + DigitsValue(x[g + 1..]) as real / 100.0))
  {
    assert AllNumChars(x[..g]);
    DropSepsDigits(x[..g]);
  }

  /** Whole digits, a dot and two cent digits read as a decimal number of cents. */
  lemma ReadCents(a: string, c: string)
    requires |a| > 0 && AllDigits(a) && |c| == 2 && AllDigits(c)
    ensures IsCleaned(a + "." + c)
    ensures ParseCleaned(a + "." + c) == Some(DecNum(DigitsValue(a) as real + DigitsValue(c) as real / 100.0))
  {
    ParseDecimal(a, c);
    assert Pow10(|c|) == 100 by {
      assert Pow10(2) == 10 * Pow10(1) && Pow10(1) == 10 * Pow10(0);
    }
    SameQuotient(DigitsValue(c), Pow10(|c|));
  }

  lemma SameQuotient(n: nat, p: nat)
    requires p == 100
    ensures n as real / p as real == n as real / 100.0
  {
  }

  /** The digits before the cents are never empty: the amount starts with one. */
  lemma WholeDigits(x: string, d: nat, g: nat)
    requires 0 < d <= g <= |x| && DigitsBetween(x, 0, d)
    requires forall k :: 0 <= k < g ==> IsNumChar(x[k])
    ensures AllNumChars(x[..g]) && AllDigits(DropSeps(x[..g])) && |DropSeps(x[..g])| > 0
  {
    DigitsThenGroups(x, d, g);
    assert AllNumChars(x[..g]);
    DropSepsDigits(x[..g]);
  }


  lemma {:induction false} GroupsSlice(s: string, p: nat, e: nat, d: nat, g: nat)
    requires p <= d <= g <= e <= |s| && Groups(s, d, g)
    ensures Groups(s[p..e], d - p, g - p)
    decreases g - d
  {
    if d < g {
      GroupsSlice(s, p, e, d + 4, g);
      assert SepGroup(s[p..e], d - p);
    }
  }

  /** The group the first pattern extracts has the shape of an amount. */
  lemma Monto1Shape(t: string)
    requires Monto1(t).Some?
    ensures exists d, g :: AmountText(Monto1(t).value, d, g)
  {
    var r := Leftmost(t, 0, Pat1At);
    var a := r.value.0;
    var p, e := r.value.1.0, r.value.1.1;
    Pat1Sound(t, a);
    var d, g :| AmountParts(t, p, d, g, e);
    PartsSlice(t, p, d, g, e);
    assert Monto1(t).value == t[p..e] && |t[p..e]| == e - p;
    assert AmountText(t[p..e], d - p, g - p);
  }

  /** The parts of an amount, seen in the extracted text. */
  lemma PartsSlice(s: string, p: nat, d: nat, g: nat, e: nat)
    requires AmountParts(s, p, d, g, e)
    ensures AmountParts(s[p..e], 0, d - p, g - p, e - p)
  {
    var x := s[p..e];
    GroupsSlice(s, p, e, d, g);
    if e == g + 3 {
      assert x[g - p] == s[g] && x[g - p + 1] == s[g + 1] && x[g - p + 2] == s[g + 2];
    }
  }


  /** A cleaned text without digits is NaN. */
  lemma {:induction false} DigitFreeNaN(t: string)
    requires IsCleaned(t) && forall k :: 0 <= k < |t| ==> !IsDigit(t[k])
    ensures ParseCleaned(t).None?
  {
    AllDots(t);
  }

  lemma {:induction false} AllDots(t: string)
    requires forall k :: 0 <= k < |t| ==> t[k] == '.'
    ensures CountDots(t) == |t|
  {
    if t != [] {
      AllDots(t[1..]);
    }
  }

  /** The `deuda_monto` number of one note (None is NaN). */
  function AmountValue(t: string): Option<Num>
  {
    match Combined(t)
    case None => None
    case Some(x) => ParseCleaned(CleanAmount(x))
  }

  /** The debt amount of a note: when some DEUDA has a digit after it, the number the
      amount written there denotes; otherwise NaN, because the fallback pattern can then
      only pick up separators. */
  lemma AmountValueSpec(t: string)
    ensures Monto1(t).None? ==> AmountValue(t).None?
    ensures Monto1(t).Some? ==> exists d, g :: AmountText(Monto1(t).value, d, g) && AmountValue(t) == Some(Reading(Monto1(t).value, d, g))
  {
    if Monto1(t).Some? {
      Monto1Shape(t);
      var d, g :| AmountText(Monto1(t).value, d, g);
      AmountReading(Monto1(t).value, d, g);
    } else if Monto2(t).Some? {
      Monto2Separators(t);
      var x := Monto2(t).value;
      var c := CleanAmount(x);
      DropThousandsKeeps(x, 0, NotDigit);
      assert forall k :: 0 <= k < |c| ==> !IsDigit(c[k]);
      DigitFreeNaN(c);
    }
  }

  /** "deuda 1,5000" is read as 1500: the thousands group takes the three digits after
      the comma and the fourth is left out of the amount. */
  lemma AmountFourDigits(t: string)
    requires t == "deuda 1,5000"
    ensures Monto1(t) == Some("1,500") && AmountValue(t) == Some(IntNum(1500))
  {
    FourDigitsMatch(t);
    LeftmostIs(t, 0, (6, 11), Pat1At);
    var x := t[6..11];
    assert x == "1,500";
    FourDigitsAmount(x);
    AmountReading(x, 1, 5);
    Value1500();
  }

  lemma FourDigitsMatch(t: string)
    requires t == "deuda 1,5000"
    ensures Pat1At(t, 0) == Some((6, 11))
  {
    assert AtCI(t, 0, "DEUDA");
    RunEndUnique(t, 5, 6, NotDigit);
    RunEndUnique(t, 6, 7, IsDigit);
    assert SepGroup(t, 7) && !SepGroup(t, 11);
    assert GroupsEnd(t, 7) == 11;
    assert !CentsAt(t, 11);
  }

  lemma FourDigitsAmount(x: string)
    requires x == "1,500"
    ensures AmountText(x, 1, 5) && DropSeps(x[..5]) == "1500"
  {
    assert SepGroup(x, 1) && Groups(x, 5, 5);
    assert x[..5] == x && x[1..] == ",500" && ",500"[1..] == "500";
    DropSepsOfDigits("500");
    assert ['1'] + "500" == "1500";
  }

  /** "DEUDA S/ 1,500.50" is read as 1500.5: the comma separates thousands and the dot
      the cents. (`limpiar_y_convertir_a_numerico` reads a similar text as NaN.) */
  lemma AmountWithCents(t: string)
    requires t == "DEUDA S/ 1,500.50"
    ensures Monto1(t) == Some("1,500.50") && AmountValue(t) == Some(DecNum(1500.5))
  {
    CentsMatch(t);
    LeftmostIs(t, 0, (9, 17), Pat1At);
    var x := t[9..17];
    assert x == "1,500.50";
    CentsAmount(x);
    AmountReading(x, 1, 5);
    Value1500();
  }

  lemma CentsMatch(t: string)
    requires t == "DEUDA S/ 1,500.50"
    ensures Pat1At(t, 0) == Some((9, 17))
  {
    assert AtCI(t, 0, "DEUDA");
    RunEndUnique(t, 5, 9, NotDigit);
    RunEndUnique(t, 9, 10, IsDigit);
    assert SepGroup(t, 10) && !SepGroup(t, 14);
    assert GroupsEnd(t, 10) == 14;
    assert CentsAt(t, 14);
  }

  lemma CentsAmount(x: string)
    requires x == "1,500.50"
    ensures AmountText(x, 1, 5) && DropSeps(x[..5]) == "1500" && x[6..] == "50"
  {
    assert SepGroup(x, 1) && Groups(x, 5, 5) && CentsAt(x, 5);
    var y := x[..5];
    assert y == "1,500" && y[1..] == ",500" && ",500"[1..] == "500";
    DropSepsOfDigits("500");
    assert ['1'] + "500" == "1500";
  }

  function AmountColumn(cells: seq<Cell>): (r: seq<Cell>)
    ensures |r| == |cells|
    ensures forall k :: 0 <= k < |r| ==> IsNumericCell(r[k])
    ensures forall k :: 0 <= k < |r| ==> (r[k] == Missing(NaN) <==> AmountValue(AsText(cells[k])).None?)
  {
    NumericColumn(seq(|cells|, k requires 0 <= k < |cells| => AmountValue(AsText(cells[k]))))
  }

  /** `extraer_monto_deuda(df, col_fuente)`: writes `deuda_monto`; a missing source column
      leaves the frame as it was. */
  method ExtraerMontoDeuda(df: DataFrame, colFuente: string := "notas")
    requires df.Valid()
    modifies df
    ensures df.Valid() && df.height == old(df.height)
    ensures colFuente !in old(df.cols) ==> df.cols == old(df.cols) && df.names == old(df.names)
    ensures colFuente in old(df.cols) ==>
      df.cols == old(df.cols)["deuda_monto" := AmountColumn(old(df.cols)[colFuente])]
    ensures colFuente in old(df.cols) ==>
      df.names == if "deuda_monto" in old(df.names) then old(df.names) else old(df.names) + ["deuda_monto"]
  {
    if colFuente in df.cols {
      df.SetColumn("deuda_monto", AmountColumn(df.cols[colFuente]));
    }
  }

  function DebtColumn(cells: seq<Cell>): (r: seq<Cell>)
    ensures |r| == |cells|
    ensures forall k :: 0 <= k < |cells| ==> r[k] == Flag(DebtFlag(AsText(cells[k])))
  {
    seq(|cells|, k requires 0 <= k < |cells| => Flag(DebtFlag(AsText(cells[k]))))
  }

  function ContextColumn(cells: seq<Cell>): (r: seq<Cell>)
    ensures |r| == |cells|
    ensures forall k :: 0 <= k < |cells| ==> r[k] == Flag(ContextFlag(AsText(cells[k])))
  {
    seq(|cells|, k requires 0 <= k < |cells| => Flag(ContextFlag(AsText(cells[k]))))
  }

  /** `marcar_deuda(df, col_fuente)`: writes the boolean column `deuda`; a missing source
      column leaves the frame as it was. */
  method MarcarDeuda(df: DataFrame, colFuente: string := "notas")
    requires df.Valid()
    modifies df
    ensures df.Valid() && df.height == old(df.height)
    ensures colFuente !in old(df.cols) ==> df.cols == old(df.cols) && df.names == old(df.names)
    ensures colFuente in old(df.cols) ==>
      df.cols == old(df.cols)["deuda" := DebtColumn(old(df.cols)[colFuente])]
    ensures colFuente in old(df.cols) ==>
      df.names == if "deuda" in old(df.names) then old(df.names) else old(df.names) + ["deuda"]
  {
    if colFuente in df.cols {
      df.SetColumn("deuda", DebtColumn(df.cols[colFuente]));
    }
  }

  /** `marcar_deuda_con_contexto_reforjado(df, col_fuente)`: writes `deuda_generada` when
      the source column exists, and drops any `deuda` column in every case. */
  method MarcarDeudaConContexto(df: DataFrame, colFuente: string := "notas")
    requires df.Valid()
    modifies df
    ensures df.Valid() && df.height == old(df.height)
    ensures "deuda" !in df.cols
    ensures df.cols == (if colFuente in old(df.cols)
      then old(df.cols)["deuda_generada" := ContextColumn(old(df.cols)[colFuente])]
      else old(df.cols)) - {"deuda"}
    ensures df.names == RemoveName(if colFuente in old(df.cols) && "deuda_generada" !in old(df.names)
      then old(df.names) + ["deuda_generada"] else old(df.names), "deuda")
  {
    if colFuente in df.cols {
      df.SetColumn("deuda_generada", ContextColumn(df.cols[colFuente]));
    }
    if "deuda" in df.cols {
      df.DropColumn("deuda");
    } else {
      RemoveAbsent(df.names, "deuda");
    }
  }
}
