/** `limpiar_y_convertir_a_numerico` and `limpiar_num_cols`: keep only the digits
    and dots of each cell's text and convert the column with
    `pd.to_numeric(..., errors='coerce')`. The same conversion turns the extracted
    syringe counts and debt amounts into numbers. */
module Numeric {
  import opened Prelude
  import opened Frame

  /** A number `to_numeric` reads from one string. */
  datatype Num = IntNum(i: int) | DecNum(x: real)

  /** Text made only of digits and dots, as `str.replace(r'[^\d.]', '')` leaves it. */
  predicate IsCleaned(t: string) { forall k :: 0 <= k < |t| ==> IsDigit(t[k]) || t[k] == '.' }

  /** `str.replace(r'[^\d.]', '', regex=True)`. */
  function KeepDigitsAndDots(s: string): (r: string)
    ensures IsCleaned(r) && |r| <= |s|
    ensures IsCleaned(s) ==> r == s
  {
    if s == [] then []
    else if IsDigit(s[0]) || s[0] == '.' then [s[0]] + KeepDigitsAndDots(s[1..])
    else KeepDigitsAndDots(s[1..])
  }

  function CountDots(t: string): nat
  {
    if t == [] then 0 else (if t[0] == '.' then 1 else 0) + CountDots(t[1..])
  }

  function Pow10(n: nat): (r: nat)
    ensures r >= 1
  {
    if n == 0 then 1 else 10 * Pow10(n - 1)
  }

  /** Index of the first dot of t (|t| when there is none). */
  function DotIndex(t: string): (k: nat)
    ensures k <= |t|
    ensures forall j :: 0 <= j < k ==> t[j] != '.'
    ensures k < |t| ==> t[k] == '.'
  {
    if t == [] then 0 else if t[0] == '.' then 0 else 1 + DotIndex(t[1..])
  }

  lemma {:induction false} NoDotsDigits(t: string)
    requires IsCleaned(t) && CountDots(t) == 0
    ensures AllDigits(t)
  {
    if t != [] {
      NoDotsDigits(t[1..]);
    }
  }

  lemma {:induction false} CountDotsSplit(t: string, k: nat)
    requires k <= |t|
    ensures CountDots(t) == CountDots(t[..k]) + CountDots(t[k..])
  {
    if k > 0 {
      CountDotsSplit(t[1..], k - 1);
      assert t[1..][..k - 1] == t[..k][1..];
      assert t[1..][k - 1..] == t[k..];
    }
  }

  lemma {:induction false} DotFreeCount(t: string)
    requires forall j :: 0 <= j < |t| ==> t[j] != '.'
    ensures CountDots(t) == 0
  {
    if t != [] {
      DotFreeCount(t[1..]);
    }
  }

  /** `pd.to_numeric` of one cleaned string under `errors='coerce'`: digits alone give an
      integer; one dot with at least one digit gives a decimal (".5" and "5." included);
      the empty string, a lone dot and two or more dots give None (NaN). */
  function ParseCleaned(t: string): (r: Option<Num>)
    requires IsCleaned(t)
    ensures r.Some? <==> (CountDots(t) == 0 && |t| > 0) || (CountDots(t) == 1 && |t| > 1)
    ensures r.Some? && r.value.IntNum? <==> CountDots(t) == 0 && |t| > 0
  {
    var k := DotIndex(t);
    if k == |t| then
      DotFreeCount(t);
      NoDotsDigits(t);
      if |t| > 0 then Some(IntNum(DigitsValue(t))) else None
    else
      CountDotsSplit(t, k);
      DotFreeCount(t[..k]);
      assert t[k..][1..] == t[k + 1..];
      var before := t[..k];
      var after := t[k + 1..];
      if CountDots(after) == 0 && |t| > 1 then
        NoDotsDigits(before);
        NoDotsDigits(after);
        Some(DecNum(DigitsValue(before) as real + DigitsValue(after) as real / Pow10(|after|) as real))
      else None
  }

  /** A string of digits reads as the integer it spells. */
  lemma ParseDigits(t: string)
    requires |t| > 0 && AllDigits(t)
    ensures IsCleaned(t) && ParseCleaned(t) == Some(IntNum(DigitsValue(t)))
  {
    assert DotIndex(t) == |t|;
  }

  /** The cell `to_numeric` gives one row once its column's dtype is known. */
  function NumCell(p: Option<Num>, allInt: bool): Cell
  {
    match p
    case None => Missing(NaN)
    case Some(IntNum(i)) => if allInt then Int(i) else Float(i as real)
    case Some(DecNum(x)) => Float(x)
  }

  predicate AllIntegers(parsed: seq<Option<Num>>)
  {
    forall k :: 0 <= k < |parsed| ==> parsed[k].Some? && parsed[k].value.IntNum?
  }

  predicate IsNumericCell(c: Cell) { c.Int? || c.Float? || c == Missing(NaN) }

  /** A converted column is int64 when every row read as an integer; otherwise it is
      float64, with NaN where a row did not parse. */
  function NumericColumn(parsed: seq<Option<Num>>): (r: seq<Cell>)
    ensures |r| == |parsed|
    ensures forall k :: 0 <= k < |r| ==> IsNumericCell(r[k])
    ensures AllIntegers(parsed) ==> forall k :: 0 <= k < |r| ==> r[k] == Int(parsed[k].value.i)
    ensures !AllIntegers(parsed) ==> forall k :: 0 <= k < |r| ==> !r[k].Int?
    ensures forall k :: 0 <= k < |r| ==> (r[k] == Missing(NaN) <==> parsed[k].None?)
  {
    var allInt := AllIntegers(parsed);
    seq(|parsed|, k requires 0 <= k < |parsed| => NumCell(parsed[k], allInt))
  }

  /** Text, cleaning and conversion of one column. */
  function CleanNumericColumn(cells: seq<Cell>): (r: seq<Cell>)
    ensures |r| == |cells|
    ensures forall k :: 0 <= k < |r| ==> IsNumericCell(r[k])
  {
    NumericColumn(seq(|cells|, k requires 0 <= k < |cells| => ParseCleaned(KeepDigitsAndDots(AsText(cells[k])))))
  }

  /** The cleaned text of one cell and the reading of a column of such texts. */
  lemma CleanNumericRow(cells: seq<Cell>, k: nat)
    requires k < |cells|
    ensures CleanNumericColumn(cells)[k] == Missing(NaN)
        <==> ParseCleaned(KeepDigitsAndDots(AsText(cells[k]))).None?
  {
  }

  lemma {:induction false} KeepConcat(a: string, b: string)
    ensures KeepDigitsAndDots(a + b) == KeepDigitsAndDots(a) + KeepDigitsAndDots(b)
  {
    if a == [] {
      assert a + b == b;
    } else {
      var ab := a + b;
      assert ab[0] == a[0];
      assert ab[1..] == a[1..] + b;
      KeepConcat(a[1..], b);
      if IsDigit(a[0]) || a[0] == '.' {
        assert KeepDigitsAndDots(ab) == [a[0]] + KeepDigitsAndDots(a[1..] + b);
        assert [a[0]] + (KeepDigitsAndDots(a[1..]) + KeepDigitsAndDots(b))
            == ([a[0]] + KeepDigitsAndDots(a[1..])) + KeepDigitsAndDots(b);
      } else {
        assert KeepDigitsAndDots(ab) == KeepDigitsAndDots(a[1..] + b);
      }
    }
  }

  lemma CurrencyCleaned()
    ensures KeepDigitsAndDots("S/. 1,500.50") == ".1500.50"
  {
    assert "S/. 1,500.50" == "S/. " + "1," + "500.50";
    PrefixCleaned();
    CleanedPieces("S/. ", "1,", "500.50");
    AmountText();
  }

  lemma PrefixCleaned()
    ensures KeepDigitsAndDots("S/. ") == "."
    ensures KeepDigitsAndDots("1,") == "1"
  {
    assert "S/. "[1..] == "/. " && "/. "[1..] == ". " && ". "[1..] == " ";
    assert "1,"[1..] == ",";
  }

  lemma CleanedPieces(head: string, mid: string, tail: string)
    requires IsCleaned(tail)
    ensures KeepDigitsAndDots(head + mid + tail)
         == KeepDigitsAndDots(head) + KeepDigitsAndDots(mid) + tail
  {
    KeepConcat(head + mid, tail);
    KeepConcat(head, mid);
  }

  lemma AmountText()
    ensures "." + "1" + "500.50" == ".1500.50"
  {
  }

  lemma TwoDotsNaN()
    ensures ParseCleaned(".1500.50") == None
  {
    var t := ".1500.50";
    assert IsCleaned(t) && t[0] == '.';
    assert DotIndex(t) == 0;
    assert t[1..] == "1500.50";
    assert CountDots("1500.50") == 1 by {
      CountDotsSplit("1500.50", 4);
      assert "1500.50"[..4] == "1500" && "1500.50"[4..] == ".50";
      DotFreeCount("1500");
      assert ".50"[1..] == "50";
      DotFreeCount("50");
    }
    ParseCleanedDots(t, 0);
  }

  /** A second dot after the first makes the text NaN. */
  lemma ParseCleanedDots(t: string, k: nat)
    requires IsCleaned(t) && k < |t| && DotIndex(t) == k && CountDots(t[k + 1..]) > 0
    ensures ParseCleaned(t) == None
  {
  }

  /** One dot at k: the digits before it, plus those after it scaled down. */
  lemma ParseCleanedDecimal(t: string, k: nat)
    requires IsCleaned(t) && k < |t| && DotIndex(t) == k && CountDots(t[k + 1..]) == 0 && |t| > 1
    requires AllDigits(t[..k]) && AllDigits(t[k + 1..])
    ensures ParseCleaned(t) == Some(DecNum(DigitsValue(t[..k]) as real + DigitsValue(t[k + 1..]) as real / Pow10(|t| - k - 1) as real))
  {
  }

  /** The comment's example 'S/. 1,500.50' keeps the dot of "S/.": it becomes
      '.1500.50', which has two dots and is read as NaN. */
  lemma CurrencyExample()
    ensures KeepDigitsAndDots("S/. 1,500.50") == ".1500.50"
    ensures ParseCleaned(".1500.50") == None
    ensures CleanNumericColumn([Text("S/. 1,500.50")]) == [Missing(NaN)]
  {
    CurrencyCleaned();
    TwoDotsNaN();
    var c := CleanNumericColumn([Text("S/. 1,500.50")]);
    CleanNumericRow([Text("S/. 1,500.50")], 0);
  }

  lemma Value1500()
    ensures DigitsValue("1500") == 1500 && DigitsValue("50") == 50
  {
    assert "1500"[..3] == "150" && "150"[..2] == "15" && "15"[..1] == "1" && "1"[..0] == "";
    assert "50"[..1] == "5" && "5"[..0] == "";
  }

  /** Without the currency sign the same amount reads as the decimal 1500.5. */
  lemma PlainAmount()
    ensures ParseCleaned("1500.50") == Some(DecNum(1500.5))
  {
    var t := "1500.50";
    assert IsCleaned(t) && |t| == 7 && t[4] == '.';
    assert DotIndex(t) == 4;
    assert t[..4] == "1500" && t[5..] == "50";
    Value1500();
    DotFreeCount("50");
    assert Pow10(2) == 100;
    ParseCleanedDecimal(t, 4);
    assert 1500 as real + 50 as real / 100 as real == 1500.5;
  }

  /** `limpiar_y_convertir_a_numerico(df, nombre_columna)`: the column, when present,
      is replaced by its cleaned numeric conversion; a missing column is skipped. */
  method LimpiarYConvertirANumerico(df: DataFrame, nombreColumna: string)
    requires df.Valid()
    modifies df
    ensures df.Valid() && df.height == old(df.height) && df.names == old(df.names)
    ensures nombreColumna in old(df.cols) ==>
      df.cols == old(df.cols)[nombreColumna := CleanNumericColumn(old(df.cols)[nombreColumna])]
    ensures nombreColumna !in old(df.cols) ==> df.cols == old(df.cols)
  {
    if nombreColumna in df.cols {
      df.SetColumn(nombreColumna, CleanNumericColumn(df.cols[nombreColumna]));
    }
  }

  /** The columns after converting each listed name that exists, in list order. */
  function NumColsSpec(cols: map<string, seq<Cell>>, names: seq<string>): (r: map<string, seq<Cell>>)
    ensures r.Keys == cols.Keys
    ensures forall n :: n in cols && n !in names ==> r[n] == cols[n]
    ensures forall n :: n in cols ==> |r[n]| == |cols[n]|
    decreases |names|
  {
    if names == [] then cols
    else
      var init := NumColsSpec(cols, names[..|names| - 1]);
      var n := names[|names| - 1];
      assert forall m :: m in names[..|names| - 1] ==> m in names;
      if n in init then init[n := CleanNumericColumn(init[n])] else init
  }

  /** After `limpiar_num_cols`, every listed column that exists holds only numbers and
      NaN, and the other columns are unchanged. */
  lemma {:induction false} NumColsNumeric(cols: map<string, seq<Cell>>, names: seq<string>)
    ensures forall n, k :: n in cols && n in names && 0 <= k < |NumColsSpec(cols, names)[n]| ==>
      IsNumericCell(NumColsSpec(cols, names)[n][k])
    decreases |names|
  {
    if names != [] {
      var init := names[..|names| - 1];
      NumColsNumeric(cols, init);
      forall n | n in cols && n in names
        ensures n in init || n == names[|names| - 1]
      {
        var j :| 0 <= j < |names| && names[j] == n;
        if j < |names| - 1 {
          assert init[j] == n;
        }
      }
    }
  }

  /** `limpiar_num_cols(df, nombre_col)`: converts, in place and in list order, every
      listed column that exists; it returns nothing. */
  method LimpiarNumCols(df: DataFrame, nombreCol: seq<string>)
    requires df.Valid()
    modifies df
    ensures df.Valid() && df.height == old(df.height) && df.names == old(df.names)
    ensures df.cols == NumColsSpec(old(df.cols), nombreCol)
  {
    var i := 0;
    while i < |nombreCol|
      invariant 0 <= i <= |nombreCol|
      invariant df.Valid() && df.height == old(df.height) && df.names == old(df.names)
      invariant df.cols == NumColsSpec(old(df.cols), nombreCol[..i])
    {
      var col := nombreCol[i];
      assert nombreCol[..i + 1][..i] == nombreCol[..i];
      if col in df.cols {
        df.SetColumn(col, CleanNumericColumn(df.cols[col]));
      }
      i := i + 1;
    }
    assert nombreCol[..i] == nombreCol;
  }
}
