/** The two table-repair passes: `reconstruir_identidades` fills missing names from the
    DNI and missing DNIs from the name, and `consolidar_informacion_paciente` fills
    missing cells of chosen columns from the other visits of the same DNI. Both look a
    value up as "the last row, in frame order, where the key and the value are both
    present" — the `keep='last'` maps of the first and `transform('last')` of the
    second. */
module Repair {
  import opened Prelude
  import opened Frame

  /** Row j holds both a key and a value. */
  predicate Complete(keys: seq<Cell>, vals: seq<Cell>, j: nat)
    requires j < |keys| == |vals|
  {
    !IsNull(keys[j]) && !IsNull(vals[j])
  }

  /** The value of the last row before n that is complete and has this key. */
  function LastWith(keys: seq<Cell>, vals: seq<Cell>, key: Cell, n: nat): (r: Option<Cell>)
    requires n <= |keys| == |vals|
    ensures r.Some? ==> !IsNull(r.value)
  {
    if n == 0 then None
    else if Complete(keys, vals, n - 1) && keys[n - 1] == key then Some(vals[n - 1])
    else LastWith(keys, vals, key, n - 1)
  }

  /** Row j is the last complete row with this key before n. */
  predicate IsLastBefore(keys: seq<Cell>, vals: seq<Cell>, key: Cell, j: nat, n: nat)
    requires n <= |keys| == |vals|
  {
    && j < n && Complete(keys, vals, j) && keys[j] == key
    && forall j' :: j < j' < n ==> !(Complete(keys, vals, j') && keys[j'] == key)
  }

  /** Row j is the last complete row with this key. */
  predicate IsLast(keys: seq<Cell>, vals: seq<Cell>, key: Cell, j: nat)
    requires |keys| == |vals|
  {
    IsLastBefore(keys, vals, key, j, |keys|)
  }

  /** LastWith finds nothing exactly when no complete row has the key, and otherwise
      the value of the last such row. */
  lemma {:induction false} LastWithSpec(keys: seq<Cell>, vals: seq<Cell>, key: Cell, n: nat)
    requires n <= |keys| == |vals|
    ensures LastWith(keys, vals, key, n).None? <==>
      forall j :: 0 <= j < n ==> !(Complete(keys, vals, j) && keys[j] == key)
    ensures forall j: nat :: IsLastBefore(keys, vals, key, j, n) ==> LastWith(keys, vals, key, n) == Some(vals[j])
    decreases n
  {
    if n > 0 {
      LastWithSpec(keys, vals, key, n - 1);
    }
  }

  /** A lookup of `map` on a probe value: NaN for a missing probe or an unknown key. */
  function Lookup(keys: seq<Cell>, vals: seq<Cell>, probe: Cell): Cell
    requires |keys| == |vals|
  {
    if IsNull(probe) then Missing(NaN)
    else match LastWith(keys, vals, probe, |keys|)
      case Some(v) => v
      case None => Missing(NaN)
  }

  /** `col.fillna(probe.map(keys -> vals))`: present cells are kept, missing ones take
      the looked-up value. */
  function FillFrom(col: seq<Cell>, probe: seq<Cell>, keys: seq<Cell>, vals: seq<Cell>): (r: seq<Cell>)
    requires |col| == |probe| && |keys| == |vals|
    ensures |r| == |col|
  {
    seq(|col|, k requires 0 <= k < |col| =>
      if IsNull(col[k]) then Lookup(keys, vals, probe[k]) else col[k])
  }

  /** A filled cell is never overwritten, and a missing one receives the value of the
      last complete row whose key is its probe; it stays missing when the probe is
      missing or no such row exists. */
  lemma FillFromSpec(col: seq<Cell>, probe: seq<Cell>, keys: seq<Cell>, vals: seq<Cell>, k: nat)
    requires |col| == |probe| && |keys| == |vals| && k < |col|
    ensures !IsNull(col[k]) ==> FillFrom(col, probe, keys, vals)[k] == col[k]
    ensures IsNull(col[k]) && IsNull(probe[k]) ==> IsNull(FillFrom(col, probe, keys, vals)[k])
    ensures IsNull(col[k]) ==>
      (IsNull(FillFrom(col, probe, keys, vals)[k]) <==>
        IsNull(probe[k]) || forall j :: 0 <= j < |keys| ==> !(Complete(keys, vals, j) && keys[j] == probe[k]))
    ensures forall j: nat :: IsNull(col[k]) && !IsNull(probe[k]) && IsLast(keys, vals, probe[k], j) ==>
      FillFrom(col, probe, keys, vals)[k] == vals[j]
  {
    LastWithSpec(keys, vals, probe[k], |keys|);
    forall j: nat | IsNull(col[k]) && !IsNull(probe[k]) && IsLast(keys, vals, probe[k], j)
      ensures FillFrom(col, probe, keys, vals)[k] == vals[j]
    {
      assert LastWith(keys, vals, probe[k], |keys|) == Some(vals[j]);
    }
  }

  // ---------------------------------------------------------------------------
  // reconstruir_identidades

  /** The strings the sentinel replacement turns into None. */
  predicate IsSentinel(s: string)
  {
    s == "<NA>" || s == "None" || s == "nan" || s == ""
  }

  /** `str.replace(r'\.0$', '', regex=True)`; `$` also matches just before a final
      newline. */
  function DropDotZero(s: string): string
  {
    var n := |s|;
    if n >= 2 && s[n - 2] == '.' && s[n - 1] == '0' then s[..n - 2]
    else if n >= 3 && s[n - 3] == '.' && s[n - 2] == '0' && s[n - 1] == '\n' then s[..n - 3] + "\n"
    else s
  }

  /** A DNI read as a float prints as "n.0" (Python writes integral floats that way below
      1e16, in exponent form above); the suffix removal gives back the digits. */
  lemma FloatDni(n: nat)
    ensures DropDotZero(AsText(Float(n as real))) == NatText(n)
  {
    var t := AsText(Float(n as real));
    assert (n as real).Floor == n;
    assert t == NatText(n) + "." + "0";
    assert t[..|t| - 2] == NatText(n);
  }

  /** A DNI without the suffix is kept. */
  lemma DigitsDni(s: string)
    requires AllDigits(s)
    ensures DropDotZero(s) == s
  {
  }

  /** One `dni` cell after `astype(str)`, the suffix removal and the sentinel
      replacement. */
  function NormDni(c: Cell): (r: Cell)
    ensures r.Missing? || r.Text?
  {
    var t := DropDotZero(AsText(c));
    if IsSentinel(t) then Missing(NoneValue) else Text(t)
  }

  /** One `nombre` cell after the sentinel replacement, which touches only strings: no
      sentinel text is left, and a cell is either kept or becomes None. */
  function NormName(c: Cell): (r: Cell)
    ensures !(r.Text? && IsSentinel(r.s))
    ensures r == c || r == Missing(NoneValue)
  {
    if c.Text? && IsSentinel(c.s) then Missing(NoneValue) else c
  }

  /** The replacement is idempotent, and it keeps every text that is not a sentinel. */
  lemma NormNameSpec(c: Cell)
    ensures NormName(NormName(c)) == NormName(c)
    ensures c.Text? && !IsSentinel(c.s) ==> NormName(c) == c
    ensures c.Text? && IsSentinel(c.s) ==> NormName(c).Missing?
  {
  }

  /** A text that does not end in "0" or a newline has no suffix to remove. */
  lemma NoDotZero(s: string)
    requires s != [] && s[|s| - 1] != '0' && s[|s| - 1] != '\n'
    ensures DropDotZero(s) == s
  {
  }

  /** Every missing marker, and the text of one, becomes None in both columns. */
  lemma NormMissing(k: MissingKind)
    ensures NormDni(Missing(k)) == Missing(NoneValue)
    ensures NormName(Missing(k)) == Missing(k)
    ensures NormName(Text(AsText(Missing(k)))) == Missing(NoneValue)
  {
    var t := AsText(Missing(k));
    assert t[|t| - 1] in "e>n";
    NoDotZero(t);
  }

  function Map(f: Cell -> Cell, cells: seq<Cell>): (r: seq<Cell>)
    ensures |r| == |cells|
    ensures forall k :: 0 <= k < |cells| ==> r[k] == f(cells[k])
  {
    seq(|cells|, k requires 0 <= k < |cells| => f(cells[k]))
  }

  /** The new `nombre` column: missing names looked up by DNI in the map built from the
      rows that have both. */
  function RebuiltNames(dni: seq<Cell>, nombre: seq<Cell>): (r: seq<Cell>)
    requires |dni| == |nombre|
    ensures |r| == |nombre|
  {
    var d := Map(NormDni, dni);
    var n := Map(NormName, nombre);
    FillFrom(n, d, d, n)
  }

  /** The new `dni` column: missing DNIs looked up by the (already rebuilt) name in the
      map built, before any filling, from the rows that have both. */
  function RebuiltDnis(dni: seq<Cell>, nombre: seq<Cell>): (r: seq<Cell>)
    requires |dni| == |nombre|
    ensures |r| == |dni|
  {
    var d := Map(NormDni, dni);
    var n := Map(NormName, nombre);
    FillFrom(d, RebuiltNames(dni, nombre), n, d)
  }

  /** Names and DNIs present after the sentinel step are never changed; a missing name
      takes the name of the last row with the same DNI and both values, and a missing
      DNI the DNI of the last such row with its (rebuilt) name. */
  lemma RebuiltSpec(dni: seq<Cell>, nombre: seq<Cell>, k: nat)
    requires |dni| == |nombre| && k < |dni|
    ensures var n := Map(NormName, nombre);
      !IsNull(n[k]) ==> RebuiltNames(dni, nombre)[k] == n[k]
    ensures var d := Map(NormDni, dni);
      !IsNull(d[k]) ==> RebuiltDnis(dni, nombre)[k] == d[k]
    ensures var d, n := Map(NormDni, dni), Map(NormName, nombre);
      forall j: nat :: IsNull(n[k]) && !IsNull(d[k]) && IsLast(d, n, d[k], j) ==> RebuiltNames(dni, nombre)[k] == n[j]
    ensures var d, n, n1 := Map(NormDni, dni), Map(NormName, nombre), RebuiltNames(dni, nombre);
      forall j: nat :: IsNull(d[k]) && !IsNull(n1[k]) && IsLast(n, d, n1[k], j) ==> RebuiltDnis(dni, nombre)[k] == d[j]
  {
    var d, n := Map(NormDni, dni), Map(NormName, nombre);
    FillFromSpec(n, d, d, n, k);
    FillFromSpec(d, RebuiltNames(dni, nombre), n, d, k);
  }

  /** The test frame of the module: five visits, one name and one DNI missing. The
      name of row 2 comes from row 0 (same DNI) and the DNI of row 3 from row 0 too
      (same name). */
  lemma DemoFrame(dni: seq<Cell>, nombre: seq<Cell>)
    requires dni == [Text("123"), Text("456"), Text("123"), Missing(NoneValue), Text("789")]
    requires nombre == [Text("Juan Perez"), Text("Ana Gomez"), Missing(NoneValue), Text("Juan Perez"), Text("Luis Paez")]
    ensures RebuiltNames(dni, nombre)[2] == Text("Juan Perez")
    ensures RebuiltDnis(dni, nombre)[3] == Text("123")
  {
    DemoNormal(dni, nombre);
    DemoNameFilled(dni, nombre);
    DemoDniFilled(dni, nombre);
  }

  lemma DemoNameFilled(dni: seq<Cell>, nombre: seq<Cell>)
    requires dni == [Text("123"), Text("456"), Text("123"), Missing(NoneValue), Text("789")]
    requires nombre == [Text("Juan Perez"), Text("Ana Gomez"), Missing(NoneValue), Text("Juan Perez"), Text("Luis Paez")]
    requires Map(NormDni, dni) == dni && Map(NormName, nombre) == nombre
    ensures RebuiltNames(dni, nombre)[2] == Text("Juan Perez")
  {
    RebuiltSpec(dni, nombre, 2);
    assert IsLast(dni, nombre, Text("123"), 0);
  }

  lemma DemoDniFilled(dni: seq<Cell>, nombre: seq<Cell>)
    requires dni == [Text("123"), Text("456"), Text("123"), Missing(NoneValue), Text("789")]
    requires nombre == [Text("Juan Perez"), Text("Ana Gomez"), Missing(NoneValue), Text("Juan Perez"), Text("Luis Paez")]
    requires Map(NormDni, dni) == dni && Map(NormName, nombre) == nombre
    ensures RebuiltDnis(dni, nombre)[3] == Text("123")
  {
    RebuiltSpec(dni, nombre, 3);
    assert RebuiltNames(dni, nombre)[3] == Text("Juan Perez");
    assert IsLast(nombre, dni, Text("Juan Perez"), 0);
  }

  /** Its cells are already in normal form: plain digit strings and no sentinels. */
  lemma DemoNormal(dni: seq<Cell>, nombre: seq<Cell>)
    requires dni == [Text("123"), Text("456"), Text("123"), Missing(NoneValue), Text("789")]
    requires nombre == [Text("Juan Perez"), Text("Ana Gomez"), Missing(NoneValue), Text("Juan Perez"), Text("Luis Paez")]
    ensures Map(NormDni, dni) == dni && Map(NormName, nombre) == nombre
  {
    PlainDni(dni, 3);
    PlainNames(nombre, 2);
  }

  /** A column of non-sentinel texts and missing values is unchanged by the name
      normalisation. */
  lemma PlainNames(nombre: seq<Cell>, k: nat)
    requires k < |nombre| && nombre[k] == Missing(NoneValue)
    requires forall j :: 0 <= j < |nombre| && j != k ==> nombre[j].Text? && !IsSentinel(nombre[j].s)
    ensures Map(NormName, nombre) == nombre
  {
    NormMissing(NoneValue);
    forall j | 0 <= j < |nombre| && j != k ensures NormName(nombre[j]) == nombre[j] {
      NormNameSpec(nombre[j]);
    }
  }

  /** A column of digit strings and missing values is unchanged by the DNI
      normalisation. */
  lemma PlainDni(dni: seq<Cell>, k: nat)
    requires k < |dni| && dni[k] == Missing(NoneValue)
    requires forall j :: 0 <= j < |dni| && j != k ==> dni[j].Text? && dni[j].s != [] && AllDigits(dni[j].s)
    ensures Map(NormDni, dni) == dni
  {
    NormMissing(NoneValue);
    forall j | 0 <= j < |dni| && j != k ensures NormDni(dni[j]) == dni[j] {
      DigitsDni(dni[j].s);
    }
  }

  /** `reconstruir_identidades(df)`: without both `dni` and `nombre` the frame is left as
      it was; otherwise both columns are rewritten. */
  method ReconstruirIdentidades(df: DataFrame)
    requires df.Valid()
    modifies df
    ensures df.Valid() && df.height == old(df.height) && df.names == old(df.names)
    ensures "dni" !in old(df.cols) || "nombre" !in old(df.cols) ==> df.cols == old(df.cols)
    ensures "dni" in old(df.cols) && "nombre" in old(df.cols) ==>
      df.cols == old(df.cols)
        ["dni" := RebuiltDnis(old(df.cols)["dni"], old(df.cols)["nombre"])]
        ["nombre" := RebuiltNames(old(df.cols)["dni"], old(df.cols)["nombre"])]
  {
    if "dni" !in df.cols || "nombre" !in df.cols {
      return;
    }
    var dni, nombre := df.cols["dni"], df.cols["nombre"];
    df.SetColumn("dni", RebuiltDnis(dni, nombre));
    df.SetColumn("nombre", RebuiltNames(dni, nombre));
  }

  // ---------------------------------------------------------------------------
  // consolidar_informacion_paciente

  /** One column after `fillna(groupby('dni')[col].transform('last'))`: the groups leave
      out rows without a DNI, and `last` is the last value present in the group. */
  function Coalesce(col: seq<Cell>, dni: seq<Cell>): (r: seq<Cell>)
    requires |col| == |dni|
    ensures |r| == |col|
  {
    FillFrom(col, dni, dni, col)
  }

  /** Two DNI columns that agree on which rows are missing and on every present value. */
  predicate SameKeys(d: seq<Cell>, d': seq<Cell>)
  {
    |d| == |d'| && forall j :: 0 <= j < |d| ==> IsNull(d[j]) == IsNull(d'[j]) && (!IsNull(d[j]) ==> d[j] == d'[j])
  }

  lemma {:induction false} LastWithSameKeys(d: seq<Cell>, d': seq<Cell>, col: seq<Cell>, key: Cell, n: nat)
    requires SameKeys(d, d') && |col| == |d| && n <= |d| && !IsNull(key)
    ensures LastWith(d, col, key, n) == LastWith(d', col, key, n)
    decreases n
  {
    if n > 0 {
      LastWithSameKeys(d, d', col, key, n - 1);
    }
  }

  /** The coalesce only reads which DNIs are present and what they are. */
  lemma CoalesceSameKeys(col: seq<Cell>, d: seq<Cell>, d': seq<Cell>)
    requires SameKeys(d, d') && |col| == |d|
    ensures Coalesce(col, d) == Coalesce(col, d')
  {
    forall k | 0 <= k < |col| ensures Coalesce(col, d)[k] == Coalesce(col, d')[k] {
      if !IsNull(d[k]) {
        LastWithSameKeys(d, d', col, d[k], |d|);
      }
    }
  }

  /** Coalescing the DNI column by itself keeps its present values and its gaps. */
  lemma CoalesceDni(d: seq<Cell>)
    ensures SameKeys(d, Coalesce(d, d))
  {
    forall j | 0 <= j < |d| ensures IsNull(d[j]) == IsNull(Coalesce(d, d)[j]) {
      FillFromSpec(d, d, d, d, j);
    }
  }

  /** The columns after the loop has handled `names`, one after the other. */
  function ConsolidateAll(cols: map<string, seq<Cell>>, names: seq<string>): (r: map<string, seq<Cell>>)
    requires "dni" in cols && forall n :: n in cols ==> |cols[n]| == |cols["dni"]|
    ensures r.Keys == cols.Keys
    ensures forall n :: n in r ==> |r[n]| == |cols["dni"]|
    decreases |names|
  {
    if names == [] then cols
    else
      var prev := ConsolidateAll(cols, names[..|names| - 1]);
      var c := names[|names| - 1];
      if c in prev then prev[c := Coalesce(prev[c], prev["dni"])] else prev
  }

  /** After the loop every listed column present in the frame is the coalesce of its
      original by the original DNIs, and every other column is as it was. */
  lemma {:induction false} ConsolidateAllSpec(cols: map<string, seq<Cell>>, names: seq<string>)
    requires "dni" in cols && forall n :: n in cols ==> |cols[n]| == |cols["dni"]|
    ensures SameKeys(cols["dni"], ConsolidateAll(cols, names)["dni"])
    ensures forall c :: c in cols && c !in names ==> ConsolidateAll(cols, names)[c] == cols[c]
    ensures forall c :: c in cols && c in names && c != "dni" ==>
      ConsolidateAll(cols, names)[c] == Coalesce(cols[c], cols["dni"])
    decreases |names|
  {
    if names != [] {
      var init := names[..|names| - 1];
      ConsolidateAllSpec(cols, init);
      var prev := ConsolidateAll(cols, init);
      var c := names[|names| - 1];
      assert forall x :: x in names <==> x in init || x == c;
      var d := cols["dni"];
      if c == "dni" {
        CoalesceDni(prev["dni"]);
        SameKeysTrans(d, prev["dni"], Coalesce(prev["dni"], prev["dni"]));
      } else if c in cols {
        CoalesceSameKeys(cols[c], d, prev["dni"]);
        CoalesceIdem(cols[c], d);
        CoalesceSameKeys(Coalesce(cols[c], d), d, prev["dni"]);
      }
    }
  }

  lemma SameKeysTrans(a: seq<Cell>, b: seq<Cell>, c: seq<Cell>)
    requires SameKeys(a, b) && SameKeys(b, c)
    ensures SameKeys(a, c)
  {
  }

  /** The last row, before n, whose DNI is key; -1 when there is none. */
  function LastKeyAt(d: seq<Cell>, key: Cell, n: nat): (m: int)
    requires n <= |d|
    ensures -1 <= m < n
    ensures m >= 0 ==> d[m] == key
    ensures forall j :: m < j < n ==> d[j] != key
  {
    if n == 0 then -1 else if d[n - 1] == key then n - 1 else LastKeyAt(d, key, n - 1)
  }

  /** After the coalesce a group's last value is the same as before: if the group had
      one, its last row now holds it, and if it had none, no row was filled. */
  lemma CoalesceKeepsLast(col: seq<Cell>, d: seq<Cell>, key: Cell)
    requires |col| == |d| && !IsNull(key)
    ensures LastWith(d, Coalesce(col, d), key, |d|) == LastWith(d, col, key, |d|)
  {
    var f := Coalesce(col, d);
    var n := |d|;
    LastWithSpec(d, col, key, n);
    LastWithSpec(d, f, key, n);
    if LastWith(d, col, key, n).None? {
      forall j | 0 <= j < n ensures !(Complete(d, f, j) && d[j] == key) {
        FillFromSpec(col, d, d, col, j);
      }
    } else {
      var r :| 0 <= r < n && Complete(d, col, r) && d[r] == key;
      var m := LastKeyAt(d, key, n);
      assert r <= m;
      FillFromSpec(col, d, d, col, m);
      if !IsNull(col[m]) {
        assert IsLast(d, col, key, m);
      }
      assert IsLast(d, f, key, m);
    }
  }

  /** Running the coalesce twice changes nothing. */
  lemma CoalesceIdem(col: seq<Cell>, d: seq<Cell>)
    requires |col| == |d|
    ensures Coalesce(Coalesce(col, d), d) == Coalesce(col, d)
  {
    var f := Coalesce(col, d);
    forall k | 0 <= k < |col| ensures Coalesce(f, d)[k] == f[k] {
      if !IsNull(d[k]) {
        CoalesceKeepsLast(col, d, d[k]);
      }
    }
  }

  /** `consolidar_informacion_paciente(df, columnas_a_consolidar)`: without `dni` the
      frame is left as it was; otherwise each listed column present is coalesced in
      turn. */
  method ConsolidarInformacionPaciente(df: DataFrame, columnas: seq<string>)
    requires df.Valid()
    modifies df
    ensures df.Valid() && df.height == old(df.height) && df.names == old(df.names)
    ensures "dni" !in old(df.cols) ==> df.cols == old(df.cols)
    ensures "dni" in old(df.cols) ==> df.cols == ConsolidateAll(old(df.cols), columnas)
  {
    if "dni" !in df.cols {
      return;
    }
    var i := 0;
    while i < |columnas|
      invariant 0 <= i <= |columnas|
      invariant df.Valid() && df.height == old(df.height) && df.names == old(df.names)
      invariant "dni" in df.cols && |df.cols["dni"]| == df.height
      invariant df.cols == ConsolidateAll(old(df.cols), columnas[..i])
    {
      assert columnas[..i + 1][..i] == columnas[..i];
      var col := columnas[i];
      if col in df.cols {
        df.SetColumn(col, Coalesce(df.cols[col], df.cols["dni"]));
      }
      i := i + 1;
    }
    assert columnas[..i] == columnas;
  }
}
