/** `format_paciente_for_display` of the front end: a patient record from the API becomes
    the seven labelled cells shown in the table, with 'N/A' for what is missing and the
    birth date written day/month/year. The pandas Series it returns is modelled as its
    entries (label, value) in order. */
module Formatters {
  import opened Prelude
  import opened Values

  const NA: string := "N/A"

  /** The labels of the display row, in order. */
  const DisplayLabels: seq<string> := [
    "ID", "DNI", "Nombre Completo", "Tel\U{e9}fono", "Distrito", "Sexo", "Fecha de Nacimiento"]

  /** `row.get(key, default)`: a key that is present gives its value, even None. */
  function GetOr(row: Entries, key: string, default: Value): (r: Value)
    ensures key !in Keys(row) ==> r == default
    ensures key in Keys(row) ==> Some(r) == Get(row, key)
  {
    match Get(row, key)
    case Some(v) => v
    case None => default
  }

  /** `int(s)` on text: surrounding white space is dropped, then an optional sign and at
      least one decimal digit. */
  function ParseInt(s: string): Result<int>
  {
    ParseSigned(Strip(s))
  }

  /** An optional sign and at least one decimal digit, nothing else. */
  function ParseSigned(t: string): Result<int>
  {
    if |t| > 1 && (t[0] == '-' || t[0] == '+') && AllDigits(t[1..]) then
      var n: int := DigitsValue(t[1..]);
      Ok(if t[0] == '-' then -n else n)
    else if |t| > 0 && AllDigits(t) then Ok(DigitsValue(t))
    else Err(ValueError("invalid literal for int() with base 10"))
  }

  /** `int(v)`: an int is kept, a bool is 0 or 1, text is parsed, anything else raises
      TypeError. */
  function IntOf(v: Value): Result<int>
  {
    match v
    case Int(i) => Ok(i)
    case Bool(b) => Ok(if b then 1 else 0)
    case Str(s) => ParseInt(s)
    case _ => Err(TypeError("int() argument must be a string or a number"))
  }

  /** The f-string `{day}/{month}/{year}` of three integers: `str` of each, no padding. */
  function DateText(d: int, m: int, y: int): string
  {
    IntText(d) + "/" + IntText(m) + "/" + IntText(y)
  }

  /** The text of an integer has no white space at either end. */
  lemma StripIntText(i: int)
    ensures Strip(IntText(i)) == IntText(i)
  {
    var t := IntText(i);
    assert !IsSpace(t[0]);
    assert StripLeft(t) == t;
    assert !IsSpace(t[|t| - 1]);
  }

  /** `int(str(i)) == i`. */
  lemma ParseIntText(i: int)
    ensures ParseInt(IntText(i)) == Ok(i)
  {
    StripIntText(i);
    ParseStripped(IntText(i));
    SignedText(i);
  }

  /** The sign and digits of `str(i)` read back as i. */
  lemma SignedText(i: int)
    ensures ParseSigned(IntText(i)) == Ok(i)
  {
    var t := IntText(i);
    if i < 0 {
      NegativeText(t, NatText(-i));
      ParseNegative(t);
    } else {
      ParseDigits(t);
    }
  }

  lemma ParseStripped(t: string)
    requires Strip(t) == t
    ensures ParseInt(t) == ParseSigned(t)
  {
  }

  lemma NegativeText(t: string, u: string)
    requires t == "-" + u
    ensures |t| == |u| + 1 && t[0] == '-' && t[1..] == u
  {
  }

  lemma ParseNegative(t: string)
    requires |t| > 1 && t[0] == '-' && AllDigits(t[1..])
    ensures ParseSigned(t) == Ok(-(DigitsValue(t[1..]) as int))
  {
  }

  lemma ParseDigits(t: string)
    requires |t| > 0 && AllDigits(t)
    ensures ParseSigned(t) == Ok(DigitsValue(t))
  {
    assert IsDigit(t[0]);
  }

  /** The date text splits at '/' into day, month and year, which read back as the three
      integers. */
  lemma DateTextReadsBack(d: int, m: int, y: int)
    ensures Split(DateText(d, m, y), '/') == [IntText(d), IntText(m), IntText(y)]
    ensures ParseInt(Split(DateText(d, m, y), '/')[0]) == Ok(d)
    ensures ParseInt(Split(DateText(d, m, y), '/')[1]) == Ok(m)
    ensures ParseInt(Split(DateText(d, m, y), '/')[2]) == Ok(y)
  {
    var parts := [IntText(d), IntText(m), IntText(y)];
    NoSlash(d);
    NoSlash(m);
    NoSlash(y);
    assert Join("/", parts) == DateText(d, m, y) by {
      assert Join("/", parts[2..]) == IntText(y);
      assert parts[1..][1..] == parts[2..];
    }
    SplitJoin(parts, '/');
    ParseIntText(d);
    ParseIntText(m);
    ParseIntText(y);
  }

  lemma NoSlash(i: int)
    ensures '/' !in IntText(i)
  {
    var t := IntText(i);
    if i < 0 {
      assert forall k :: 1 <= k < |t| ==> t[k] == NatText(-i)[k - 1];
    }
  }

  /** `distrito.get('nombre', 'N/A')` of `row.get('distrito', {})`; a distrito that is
      present but not a dict (None, say) has no `get` and raises AttributeError. */
  function DistritoNombre(row: Entries): Result<Value>
  {
    var distrito := GetOr(row, "distrito", Dict([]));
    if distrito.Dict? then Ok(GetOr(distrito.entries, "nombre", Str(NA)))
    else Err(AttributeError("get"))
  }

  /** The birth-date cell: 'N/A' unless year, month and day are all truthy; then the day,
      month and year through `int()`, in that order, each of which may raise. */
  function Nacimiento(row: Entries): Result<Value>
  {
    var year, month, day := GetOr(row, "nacimientoYear", Null), GetOr(row, "nacimientoMonth", Null), GetOr(row, "nacimientoDay", Null);
    if Truthy(year) && Truthy(month) && Truthy(day) then
      NacimientoOf(IntOf(day), IntOf(month), IntOf(year))
    else Ok(Str(NA))
  }

  /** The f-string once the three conversions are done: the first that raised decides. */
  function NacimientoOf(d: Result<int>, m: Result<int>, y: Result<int>): (r: Result<Value>)
    ensures d.Ok? && m.Ok? && y.Ok? ==> r == Ok(Str(DateText(d.value, m.value, y.value)))
    ensures d.Err? ==> r == Err(d.error)
    ensures d.Ok? && m.Err? ==> r == Err(m.error)
    ensures d.Ok? && m.Ok? && y.Err? ==> r == Err(y.error)
  {
    match d
    case Err(e) => Err(e)
    case Ok(dv) =>
      match m
      case Err(e) => Err(e)
      case Ok(mv) =>
        match y
        case Err(e) => Err(e)
        case Ok(yv) => Ok(Str(DateText(dv, mv, yv)))
  }

  /** The seven cells, given the district name and the birth-date cell. */
  function Cells(row: Entries, distrito: Value, nacimiento: Value): (r: Entries)
    ensures Keys(r) == DisplayLabels
  {
    [("ID", GetOr(row, "id", Str(NA))),
     ("DNI", GetOr(row, "dni", Str(NA))),
     ("Nombre Completo", GetOr(row, "nombreCompleto", Str(NA))),
     ("Tel\U{e9}fono", GetOr(row, "telefono", Str(NA))),
     ("Distrito", distrito),
     ("Sexo", GetOr(row, "sexo", Str(NA))),
     ("Fecha de Nacimiento", nacimiento)]
  }

  /** `format_paciente_for_display(row)`: the district is read first, then the birth
      date, then the cells are built. */
  function FormatPacienteForDisplay(row: Entries): Result<Entries>
  {
    match DistritoNombre(row)
    case Err(e) => Err(e)
    case Ok(distrito) =>
      match Nacimiento(row)
      case Err(e) => Err(e)
      case Ok(nacimiento) => Ok(Cells(row, distrito, nacimiento))
  }

  /** The row is built exactly when neither the district nor the birth date raises; it has
      the seven labels in order, the district name and birth-date cell in their places,
      and every other cell is the record's value or 'N/A' when the key is absent. */
  lemma FormatPacienteForDisplaySpec(row: Entries)
    ensures FormatPacienteForDisplay(row).Ok? <==> DistritoNombre(row).Ok? && Nacimiento(row).Ok?
    ensures FormatPacienteForDisplay(row).Ok? ==>
      var cells := FormatPacienteForDisplay(row).value;
      && Keys(cells) == DisplayLabels
      && cells[4].1 == DistritoNombre(row).value
      && cells[6].1 == Nacimiento(row).value
      && cells[0].1 == GetOr(row, "id", Str(NA))
      && cells[1].1 == GetOr(row, "dni", Str(NA))
      && cells[2].1 == GetOr(row, "nombreCompleto", Str(NA))
      && cells[3].1 == GetOr(row, "telefono", Str(NA))
      && cells[5].1 == GetOr(row, "sexo", Str(NA))
  {
  }

  /** The birth date is 'N/A' unless all three parts are truthy; with all three given as
      integers it is day/month/year without padding, which splits back into the three. */
  lemma NacimientoSpec(row: Entries, d: int, m: int, y: int)
    ensures (!Truthy(GetOr(row, "nacimientoYear", Null)) || !Truthy(GetOr(row, "nacimientoMonth", Null)) ||
             !Truthy(GetOr(row, "nacimientoDay", Null))) ==> Nacimiento(row) == Ok(Str(NA))
    ensures GetOr(row, "nacimientoDay", Null) == Int(d) && GetOr(row, "nacimientoMonth", Null) == Int(m)
            && GetOr(row, "nacimientoYear", Null) == Int(y) && d != 0 && m != 0 && y != 0 ==>
      Nacimiento(row) == Ok(Str(DateText(d, m, y)))
  {
  }

  /** 5 March 1990 is written '5/3/1990'. */
  lemma DateTextExample()
    ensures DateText(5, 3, 1990) == "5/3/1990"
  {
    assert NatText(1990) == NatText(199) + ['0'];
    assert NatText(199) == NatText(19) + ['9'];
    assert NatText(19) == NatText(1) + ['9'];
  }

  /** The district cell is the dict's 'nombre', 'N/A' when the dict lacks it or the record
      has no district, and a district that is present but None raises. */
  lemma DistritoNombreSpec(row: Entries)
    ensures "distrito" !in Keys(row) ==> DistritoNombre(row) == Ok(Str(NA))
    ensures Get(row, "distrito") == Some(Null) ==> DistritoNombre(row) == Err(AttributeError("get"))
    ensures Get(row, "distrito").Some? && Get(row, "distrito").value.Dict? ==>
      DistritoNombre(row) == Ok(GetOr(Get(row, "distrito").value.entries, "nombre", Str(NA)))
  {
  }
}
