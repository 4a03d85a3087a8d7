/** The `Paciente` model of the backend: a patient row with a birth date that may be
    partial, the properties derived from it (`edad`, `fecha_nacimiento_completa`,
    `alertas`) and the dict `to_dict_completo` hands to the front end. */
module PacienteModel {
  import opened Prelude
  import opened Values
  import opened Dates
  import opened CamelCase
  import Base

  datatype Distrito = Distrito(idDistrito: int, nombreDistrito: string)

  /** A row of `pacientes`; a nullable column is an Option, `distrito` is the related row
      the ORM loads. */
  datatype Paciente = Paciente(
    idPaciente: Option<int>,
    dni: Option<string>,
    nombreCompleto: string,
    sexo: Option<string>,
    telefono: Option<string>,
    nacimientoYear: Option<int>,
    nacimientoMonth: Option<int>,
    nacimientoDay: Option<int>,
    pacienteProblematico: bool,
    createdAt: Value,
    idDistrito: Option<int>,
    distrito: Option<Distrito>)

  /** `bool(x)` of a nullable integer column: NULL and 0 are false. */
  predicate Given(o: Option<int>)
  {
    o.Some? && o.value != 0
  }

  /** `bool(s)` of a nullable text column: NULL and '' are false. */
  predicate HasText(o: Option<string>)
  {
    o.Some? && o.value != ""
  }

  function OptInt(o: Option<int>): Value
  {
    match o
    case Some(i) => Int(i)
    case None => Null
  }

  function OptStr(o: Option<string>): Value
  {
    match o
    case Some(s) => Str(s)
    case None => Null
  }

  /** Today has reached the birthday b (it falls on or before today). */
  predicate Reached(hoy: Date, b: Date)
  {
    !Before(hoy, b)
  }

  /** `edad`, with `date.today()` as the parameter hoy: None without a year; otherwise the
      difference of the years, less one while this year's birthday is still ahead, which
      is checked only when month and day are both known. With a full birth date, the age
      is the number of birthdays reached. */
  function Edad(p: Paciente, hoy: Date): (r: Option<int>)
    ensures r.None? <==> !Given(p.nacimientoYear)
    ensures Given(p.nacimientoYear) && !(Given(p.nacimientoMonth) && Given(p.nacimientoDay)) ==>
      r == Some(hoy.year - p.nacimientoYear.value)
    ensures Given(p.nacimientoYear) && Given(p.nacimientoMonth) && Given(p.nacimientoDay) ==>
      var y, m, d := p.nacimientoYear.value, p.nacimientoMonth.value, p.nacimientoDay.value;
      r.Some? && Reached(hoy, Date(y + r.value, m, d)) && !Reached(hoy, Date(y + r.value + 1, m, d))
  {
    if !Given(p.nacimientoYear) then None
    else
      var edad := hoy.year - p.nacimientoYear.value;
      if Given(p.nacimientoMonth) && Given(p.nacimientoDay)
         && (hoy.month, hoy.day) != (p.nacimientoMonth.value, p.nacimientoDay.value)
         && (hoy.month < p.nacimientoMonth.value || (hoy.month == p.nacimientoMonth.value && hoy.day < p.nacimientoDay.value))
      then Some(edad - 1)
      else Some(edad)
  }

  /** The birthday count is unique: at most one a has the a-th birthday reached and the
      next one not. */
  lemma AgeUnique(hoy: Date, y: int, m: int, d: int, a: int, b: int)
    requires Reached(hoy, Date(y + a, m, d)) && !Reached(hoy, Date(y + a + 1, m, d))
    requires Reached(hoy, Date(y + b, m, d)) && !Reached(hoy, Date(y + b + 1, m, d))
    ensures a == b
  {
  }

  /** The age turns on the birthday itself. */
  lemma EdadOnBirthday(p: Paciente, hoy: Date)
    requires p.nacimientoYear == Some(2000) && p.nacimientoMonth == Some(10) && p.nacimientoDay == Some(14)
    ensures Edad(p, Date(2026, 10, 14)) == Some(26)
    ensures Edad(p, Date(2026, 10, 13)) == Some(25)
  {
  }

  predicate Complete(p: Paciente)
  {
    Given(p.nacimientoYear) && Given(p.nacimientoMonth) && Given(p.nacimientoDay)
  }

  /** `fecha_nacimiento_completa`: the birth date when year, month and day are all given
      and form a real date; None when one is missing or `date()` raises ValueError. */
  function FechaCompleta(p: Paciente): (r: Option<Date>)
    ensures r.Some? <==> Complete(p) && Valid(Date(p.nacimientoYear.value, p.nacimientoMonth.value, p.nacimientoDay.value))
    ensures r.Some? ==> r.value == Date(p.nacimientoYear.value, p.nacimientoMonth.value, p.nacimientoDay.value)
  {
    if !Complete(p) then None
    else
      match MakeDate(p.nacimientoYear.value, p.nacimientoMonth.value, p.nacimientoDay.value)
      case Ok(d) => Some(d)
      case Err(_) => None
  }

  /** The 31st of February is given but is no date; the 29th is one in a leap year. */
  lemma FebruaryBirthdays(p: Paciente, q: Paciente)
    requires p.nacimientoYear == Some(1990) && p.nacimientoMonth == Some(2) && p.nacimientoDay == Some(31)
    requires q.nacimientoYear == Some(2000) && q.nacimientoMonth == Some(2) && q.nacimientoDay == Some(29)
    ensures Complete(p) && FechaCompleta(p) == None
    ensures FechaCompleta(q) == Some(Date(2000, 2, 29))
  {
  }

  /** The codes of `alertas`, in the order the checks run. */
  datatype Alerta = FaltaAnio | FaltaMesDia | FechaInvalida | SinTelefono | SinDistrito

  function Code(a: Alerta): string
  {
    match a
    case FaltaAnio => "falta_anio_nacimiento"
    case FaltaMesDia => "falta_mes_dia_nacimiento"
    case FechaInvalida => "fecha_nacimiento_invalida"
    case SinTelefono => "sin_telefono"
    case SinDistrito => "sin_distrito"
  }

  function Position(a: Alerta): nat
  {
    match a
    case FaltaAnio => 0
    case FaltaMesDia => 1
    case FechaInvalida => 2
    case SinTelefono => 3
    case SinDistrito => 4
  }

  /** Different alerts have different codes. */
  lemma CodesDistinct(a: Alerta, b: Alerta)
    requires a != b
    ensures Code(a) != Code(b)
  {
    assert Code(SinTelefono)[4] != Code(SinDistrito)[4];
  }

  /** `alertas`: one check after the other, each adding its code. */
  function Alertas(p: Paciente): seq<Alerta>
  {
    FechaAlertas(p) + TelefonoAlertas(p) + DistritoAlertas(p)
  }

  /** The alerts about the birth date: a missing year, else a missing month or day; then
      a date that is not real. */
  function FechaAlertas(p: Paciente): (r: seq<Alerta>)
    ensures FaltaAnio in r <==> !Given(p.nacimientoYear)
    ensures FaltaMesDia in r <==> Given(p.nacimientoYear) && !(Given(p.nacimientoMonth) && Given(p.nacimientoDay))
    ensures FechaInvalida in r <==> Given(p.nacimientoYear) && FechaCompleta(p).None?
    ensures forall i :: 0 <= i < |r| ==> Position(r[i]) < 3
    ensures forall i, j :: 0 <= i < j < |r| ==> Position(r[i]) < Position(r[j])
    ensures |r| <= 2 && (r == [] <==> FechaCompleta(p).Some?)
  {
    (if !Given(p.nacimientoYear) then [FaltaAnio]
     else if !Given(p.nacimientoMonth) || !Given(p.nacimientoDay) then [FaltaMesDia]
     else [])
    + (if Given(p.nacimientoYear) && FechaCompleta(p).None? then [FechaInvalida] else [])
  }

  function TelefonoAlertas(p: Paciente): (r: seq<Alerta>)
    ensures r == [] || r == [SinTelefono]
    ensures r == [SinTelefono] <==> !HasText(p.telefono)
  {
    if !HasText(p.telefono) then [SinTelefono] else []
  }

  function DistritoAlertas(p: Paciente): (r: seq<Alerta>)
    ensures r == [] || r == [SinDistrito]
    ensures r == [SinDistrito] <==> !Given(p.idDistrito)
  {
    if !Given(p.idDistrito) then [SinDistrito] else []
  }

  /** Each alert is present exactly when its condition holds, and the alerts come in the
      fixed order of the checks, each at most once. */
  lemma AlertasSpec(p: Paciente)
    ensures FaltaAnio in Alertas(p) <==> !Given(p.nacimientoYear)
    ensures FaltaMesDia in Alertas(p) <==> Given(p.nacimientoYear) && !(Given(p.nacimientoMonth) && Given(p.nacimientoDay))
    ensures FechaInvalida in Alertas(p) <==> Given(p.nacimientoYear) && FechaCompleta(p).None?
    ensures SinTelefono in Alertas(p) <==> !HasText(p.telefono)
    ensures SinDistrito in Alertas(p) <==> !Given(p.idDistrito)
    ensures forall i, j :: 0 <= i < j < |Alertas(p)| ==> Position(Alertas(p)[i]) < Position(Alertas(p)[j])
  {
    var f, t, d := FechaAlertas(p), TelefonoAlertas(p), DistritoAlertas(p);
    assert Alertas(p) == f + t + d;
    InThree(f, t, d);
    Ordered(f, t, d);
  }

  /** In the three runs, each date alert can only come from the first, the telephone
      alert from the second and the district alert from the third. */
  lemma InThree(f: seq<Alerta>, t: seq<Alerta>, d: seq<Alerta>)
    requires forall i :: 0 <= i < |f| ==> Position(f[i]) < 3
    requires t == [] || t == [SinTelefono]
    requires d == [] || d == [SinDistrito]
    ensures FaltaAnio in f + t + d <==> FaltaAnio in f
    ensures FaltaMesDia in f + t + d <==> FaltaMesDia in f
    ensures FechaInvalida in f + t + d <==> FechaInvalida in f
    ensures SinTelefono in f + t + d <==> SinTelefono in t
    ensures SinDistrito in f + t + d <==> SinDistrito in d
  {
    assert SinTelefono !in f && SinDistrito !in f;
  }

  /** Three runs of alerts, each in order and each before the next, are in order. */
  lemma Ordered(f: seq<Alerta>, t: seq<Alerta>, d: seq<Alerta>)
    requires forall i, j :: 0 <= i < j < |f| ==> Position(f[i]) < Position(f[j])
    requires forall i :: 0 <= i < |f| ==> Position(f[i]) < 3
    requires t == [] || t == [SinTelefono]
    requires d == [] || d == [SinDistrito]
    ensures forall i, j :: 0 <= i < j < |f + t + d| ==> Position((f + t + d)[i]) < Position((f + t + d)[j])
  {
    var r := f + t + d;
    forall i, j | 0 <= i < j < |r| ensures Position(r[i]) < Position(r[j]) {
      if j < |f| {
        assert r[i] == f[i] && r[j] == f[j];
      } else if i < |f| {
        assert r[i] == f[i];
      }
    }
  }

  /** A missing year and a missing month or day are never both reported; a missing month
      or day always makes the date invalid too, a missing year never does; and there is
      no alert exactly when the birth date is complete and real, and telephone and
      district are given. */
  lemma AlertasConsequences(p: Paciente)
    ensures !(FaltaAnio in Alertas(p) && FaltaMesDia in Alertas(p))
    ensures FaltaMesDia in Alertas(p) ==> FechaInvalida in Alertas(p)
    ensures FaltaAnio in Alertas(p) ==> FechaInvalida !in Alertas(p)
    ensures Alertas(p) == [] <==> FechaCompleta(p).Some? && HasText(p.telefono) && Given(p.idDistrito)
    ensures |Alertas(p)| <= 4
  {
    AlertasSpec(p);
  }

  /** The mapped columns in declaration order. */
  const Columnas: seq<string> := [
    "id_paciente", "dni", "nombre_completo", "sexo", "telefono", "nacimiento_year",
    "nacimiento_month", "nacimiento_day", "paciente_problematico", "created_at", "id_distrito"]

  /** The column attributes of a row, by name. */
  function Atributos(p: Paciente): (r: map<string, Value>)
    ensures r.Keys == set c | c in Columnas
  {
    map[
      "id_paciente" := OptInt(p.idPaciente),
      "dni" := OptStr(p.dni),
      "nombre_completo" := Str(p.nombreCompleto),
      "sexo" := OptStr(p.sexo),
      "telefono" := OptStr(p.telefono),
      "nacimiento_year" := OptInt(p.nacimientoYear),
      "nacimiento_month" := OptInt(p.nacimientoMonth),
      "nacimiento_day" := OptInt(p.nacimientoDay),
      "paciente_problematico" := Bool(p.pacienteProblematico),
      "created_at" := p.createdAt,
      "id_distrito" := OptInt(p.idDistrito)]
  }

  /** `BaseModel.to_dict()` of the row. */
  function BaseDict(p: Paciente): Entries
  {
    Base.ColumnDict(Columnas, Atributos(p))
  }

  function EdadValue(p: Paciente, hoy: Date): Value
  {
    OptInt(Edad(p, hoy))
  }

  function AlertasValue(p: Paciente): Value
  {
    var a := Alertas(p);
    List(seq(|a|, i requires 0 <= i < |a| => Str(Code(a[i]))))
  }

  /** The ISO text of the birth date, or None. */
  function FechaValue(p: Paciente): Value
  {
    match FechaCompleta(p)
    case Some(d) => Str(IsoFormat(d))
    case None => Null
  }

  /** The ISO text is read back as the birth date. */
  lemma FechaValueParses(p: Paciente)
    ensures FechaValue(p).Str? <==> FechaCompleta(p).Some?
    ensures FechaValue(p).Str? ==> ParseIso(FechaValue(p).s) == FechaCompleta(p)
  {
    if FechaCompleta(p).Some? {
      IsoRoundTrip(FechaCompleta(p).value);
    }
  }

  function DistritoValue(p: Paciente): Value
  {
    match p.distrito
    case Some(d) => Dict([("id_distrito", Int(d.idDistrito)), ("nombre_distrito", Str(d.nombreDistrito))])
    case None => Null
  }

  /** The dict `to_dict_completo` builds before converting its keys. */
  function Datos(p: Paciente, hoy: Date): Entries
  {
    var d0 := BaseDict(p);
    var d1 := Set(d0, "edad", EdadValue(p, hoy));
    var d2 := Set(d1, "alertas", AlertasValue(p));
    var d3 := Set(d2, "fecha_nacimiento", FechaValue(p));
    Set(d3, "distrito", DistritoValue(p))
  }

  /** The attribute names a `Paciente` of this file has: its columns and relation, its own
      methods and properties, and those of `BaseModel`. */
  const Miembros: set<string> := {
    "id_paciente", "dni", "nombre_completo", "sexo", "telefono", "nacimiento_year",
    "nacimiento_month", "nacimiento_day", "paciente_problematico", "created_at", "id_distrito",
    "distrito", "__tablename__", "__repr__", "edad", "fecha_nacimiento_completa", "alertas",
    "to_dict_completo", "buscar_por_dni", "buscar_por_nombre", "__abstract__", "to_dict", "update"}

  /** `to_dict_completo` as written: it ends by calling `self._to_camel_case`, a name the
      class looks up among its attributes. */
  function ToDictCompletoAsWritten(p: Paciente, hoy: Date): Result<Entries>
  {
    if "_to_camel_case" in Miembros then Ok(CamelDict(Datos(p, hoy)))
    else Err(AttributeError("_to_camel_case"))
  }

  /** Neither this class nor `BaseModel` defines `_to_camel_case`, so every call raises. */
  lemma ToDictCompletoRaises(p: Paciente, hoy: Date)
    ensures ToDictCompletoAsWritten(p, hoy) == Err(AttributeError("_to_camel_case"))
  {
    assert "_to_camel_case" !in Miembros;
  }

  /** `to_dict_completo` with the conversion it intends: the dict with camelCase keys. */
  function ToDictCompleto(p: Paciente, hoy: Date): Entries
  {
    CamelDict(Datos(p, hoy))
  }

  /** The four added entries go after the columns, in the order they are assigned. */
  lemma DatosShape(p: Paciente, hoy: Date)
    ensures Datos(p, hoy) == BaseDict(p) + Derivados(p, hoy)
  {
    var e, a, f, d := EdadValue(p, hoy), AlertasValue(p), FechaValue(p), DistritoValue(p);
    Base.ColumnDictKeys(Columnas, Atributos(p));
    ColumnasDistinct();
    SetChain(BaseDict(p), "edad", e, "alertas", a, "fecha_nacimiento", f, true, "distrito", d);
    assert [("edad", e), ("alertas", a), ("fecha_nacimiento", f)] + [("distrito", d)] == Derivados(p, hoy);
  }

  /** The derived entries `to_dict_completo` adds. */
  function Derivados(p: Paciente, hoy: Date): Entries
  {
    [("edad", EdadValue(p, hoy)), ("alertas", AlertasValue(p)),
     ("fecha_nacimiento", FechaValue(p)), ("distrito", DistritoValue(p))]
  }

  /** Distinct snake_case columns, all among the attributes, and extra keys that are
      distinct, no column's, and snake_case or free of underscores without reading back as
      any key. */
  predicate WellKeyed(cols: seq<string>, attrs: map<string, Value>, extra: Entries)
  {
    && (forall j :: 0 <= j < |cols| ==> cols[j] in attrs)
    && (forall a, b :: 0 <= a < b < |cols| ==> cols[a] != cols[b])
    && DistinctKeys(extra)
    && (forall k :: 0 <= k < |extra| ==> extra[k].0 !in cols)
    && (forall j :: 0 <= j < |cols| ==> IsSnake(cols[j]))
    && (forall k :: 0 <= k < |extra| ==>
         IsSnake(extra[k].0) || ('_' !in extra[k].0 && SnakeCase(extra[k].0) !in cols + Keys(extra)))
  }

  /** The column dict followed by entries under other keys, converted: with snake_case
      columns, and extra keys that are snake_case or free of underscores and not read back
      as any key, every entry is kept in order under its converted key, and each column
      can be read back from its converted key. */
  lemma CamelOfColumns(cols: seq<string>, attrs: map<string, Value>, extra: Entries)
    requires WellKeyed(cols, attrs, extra)
    ensures |CamelDict(Base.ColumnDict(cols, attrs) + extra)| == |cols| + |extra|
    ensures DistinctKeys(CamelDict(Base.ColumnDict(cols, attrs) + extra))
    ensures forall j :: 0 <= j < |cols| ==>
      CamelDict(Base.ColumnDict(cols, attrs) + extra)[j] == (CamelKey(cols[j]), attrs[cols[j]])
      && SnakeCase(CamelKey(cols[j])) == cols[j]
    ensures forall k :: 0 <= k < |extra| ==>
      CamelDict(Base.ColumnDict(cols, attrs) + extra)[|cols| + k] == (CamelKey(extra[k].0), extra[k].1)
  {
    var c := Base.ColumnDict(cols, attrs);
    var d := c + extra;
    Base.ColumnDictSpec(cols, attrs);
    ConcatDistinct(c, extra);
    ConcatKeys(c, extra);
    forall j | 0 <= j < |d| ensures IsSnake(d[j].0) || ('_' !in d[j].0 && SnakeCase(d[j].0) !in Keys(d)) {
      if j < |c| {
        assert d[j].0 == cols[j];
      } else {
        assert d[j] == extra[j - |c|];
      }
    }
    NoCollisionOf(d);
    CamelDictNoCollision(d);
    CamelDictSpec(d);
    var r := CamelDict(d);
    forall j | 0 <= j < |cols| ensures r[j] == (CamelKey(cols[j]), attrs[cols[j]]) && SnakeCase(CamelKey(cols[j])) == cols[j] {
      assert d[j] == c[j];
      SnakeRoundTrip(cols[j]);
    }
    forall k | 0 <= k < |extra| ensures r[|cols| + k] == (CamelKey(extra[k].0), extra[k].1) {
      assert d[|c| + k] == extra[k];
    }
  }

  /** Two dicts with distinct keys and no key in common, one after the other. */
  lemma ConcatDistinct(c: Entries, e: Entries)
    requires DistinctKeys(c) && DistinctKeys(e)
    requires forall k :: 0 <= k < |e| ==> e[k].0 !in Keys(c)
    ensures DistinctKeys(c + e)
  {
    var d := c + e;
    assert forall j :: 0 <= j < |c| ==> c[j].0 == Keys(c)[j];
    forall a, b | 0 <= a < b < |d| ensures d[a].0 != d[b].0 {
      if b < |c| {
        assert d[a] == c[a] && d[b] == c[b];
      } else if a < |c| {
        assert d[a] == c[a] && d[b] == e[b - |c|];
      } else {
        assert d[a] == e[a - |c|] && d[b] == e[b - |c|];
      }
    }
  }

  lemma ConcatKeys(c: Entries, e: Entries)
    ensures Keys(c + e) == Keys(c) + Keys(e)
    ensures forall j :: 0 <= j < |c| ==> (c + e)[j] == c[j]
    ensures forall k :: 0 <= k < |e| ==> (c + e)[|c| + k] == e[k]
  {
  }

  lemma ColumnasSnake()
    ensures forall j :: 0 <= j < |Columnas| ==> IsSnake(Columnas[j])
  {
    forall j | 0 <= j < |Columnas| ensures IsSnake(Columnas[j]) {
      ColumnSnake(Columnas[j]);
    }
  }

  /** Each column name is snake_case. */
  lemma ColumnSnake(c: string)
    requires c in Columnas
    ensures IsSnake(c)
  {
    if c == "id_paciente" { IdPacienteSnake(c); }
    else if c == "nombre_completo" { NombreCompletoSnake(c); }
    else if c == "nacimiento_year" { NacimientoSnake(c); }
    else if c == "nacimiento_month" { NacimientoSnake(c); }
    else if c == "nacimiento_day" { NacimientoSnake(c); }
    else if c == "paciente_problematico" { ProblematicoSnake(c); }
    else if c == "created_at" { CreatedAtSnake(c); }
    else if c == "id_distrito" { IdDistritoSnake(c); }
    else { PlainSnake(c); }
  }

  lemma IdPacienteSnake(c: string) requires c == "id_paciente" ensures IsSnake(c) { SnakeAt(c, 2); }
  lemma NombreCompletoSnake(c: string) requires c == "nombre_completo" ensures IsSnake(c) { SnakeAt(c, 6); }
  lemma ProblematicoSnake(c: string) requires c == "paciente_problematico" ensures IsSnake(c) { SnakeAt(c, 8); }
  lemma CreatedAtSnake(c: string) requires c == "created_at" ensures IsSnake(c) { SnakeAt(c, 7); }
  lemma IdDistritoSnake(c: string) requires c == "id_distrito" ensures IsSnake(c) { SnakeAt(c, 2); }
  lemma FechaNacimientoSnake(c: string) requires c == "fecha_nacimiento" ensures IsSnake(c) { SnakeAt(c, 5); }

  lemma NacimientoSnake(c: string)
    requires c in ["nacimiento_year", "nacimiento_month", "nacimiento_day"]
    ensures IsSnake(c)
  {
    SnakeAt(c, 10);
  }

  lemma PlainSnake(c: string)
    requires c in ["dni", "sexo", "telefono", "edad", "alertas", "distrito"]
    ensures IsSnake(c)
  {
    SnakeOne(c);
  }

  lemma ColumnasDistinct()
    ensures forall a, b :: 0 <= a < b < |Columnas| ==> Columnas[a] != Columnas[b]
    ensures forall k :: k in ["edad", "alertas", "fecha_nacimiento", "distrito"] ==> k !in Columnas
  {
  }

  /** `fecha_nacimiento` becomes `fechaNacimiento`. */
  lemma FechaNacimientoKey(key: string)
    requires key == "fecha_nacimiento"
    ensures CamelKey(key) == "fechaNacimiento"
  {
    var b := key[6..];
    assert b == "nacimiento";
    assert key == "fecha" + "_" + b;
    CamelKeyTwo(key, "fecha", b);
    NacimientoTitle(b);
  }

  lemma NacimientoTitle(b: string)
    requires b == "nacimiento"
    ensures Title(b) == "Nacimiento"
  {
    TitleLowerTail(b);
    assert UpperChar(b[0]) == 'N';
  }

  /** The dict sent to the front end has distinct keys, none with an underscore. */
  lemma ToDictCompletoKeys(p: Paciente, hoy: Date)
    ensures DistinctKeys(ToDictCompleto(p, hoy))
    ensures forall j :: 0 <= j < |ToDictCompleto(p, hoy)| ==> '_' !in ToDictCompleto(p, hoy)[j].0
  {
    CamelDictSpec(Datos(p, hoy));
  }

  /** The converted key of the k-th derived entry. */
  lemma DerivedKey(p: Paciente, hoy: Date, k: nat, camel: string)
    requires k < 4
    requires camel == DerivadosCamel[k]
    ensures CamelKey(Derivados(p, hoy)[k].0) == camel
  {
    var key := Derivados(p, hoy)[k].0;
    if k == 2 {
      assert key == "fecha_nacimiento";
      FechaNacimientoKey(key);
    } else {
      assert '_' !in key;
      CamelKeyPlain(key);
    }
  }

  /** The camelCase names of the derived entries. */
  const DerivadosCamel: seq<string> := ["edad", "alertas", "fechaNacimiento", "distrito"]

  /** The dict has fifteen entries: first each column under its camelCase name, from
      which SnakeCase gives the column back, then `edad`, `alertas`, `fechaNacimiento` and
      `distrito` with the derived values. */
  lemma ToDictCompletoSpec(p: Paciente, hoy: Date)
    ensures |ToDictCompleto(p, hoy)| == 15
    ensures forall j :: 0 <= j < |Columnas| ==>
      ToDictCompleto(p, hoy)[j] == (CamelKey(Columnas[j]), Atributos(p)[Columnas[j]])
      && SnakeCase(ToDictCompleto(p, hoy)[j].0) == Columnas[j]
    ensures forall k :: 0 <= k < 4 ==>
      ToDictCompleto(p, hoy)[11 + k] == (DerivadosCamel[k], Derivados(p, hoy)[k].1)
  {
    DatosShape(p, hoy);
    DatosWellKeyed(p, hoy);
    CamelOfColumns(Columnas, Atributos(p), Derivados(p, hoy));
    forall k | 0 <= k < 4 ensures ToDictCompleto(p, hoy)[11 + k] == (DerivadosCamel[k], Derivados(p, hoy)[k].1) {
      DerivedKey(p, hoy, k, DerivadosCamel[k]);
    }
  }

  lemma DatosWellKeyed(p: Paciente, hoy: Date)
    ensures WellKeyed(Columnas, Atributos(p), Derivados(p, hoy))
  {
    var extra := Derivados(p, hoy);
    ColumnasDistinct();
    ColumnasSnake();
    assert Keys(extra) == ["edad", "alertas", "fecha_nacimiento", "distrito"];
    DerivadosSnake(extra);
  }

  /** The keys of the derived entries are snake_case, distinct, and no column's. */
  lemma DerivadosSnake(e: Entries)
    requires Keys(e) == ["edad", "alertas", "fecha_nacimiento", "distrito"]
    ensures DistinctKeys(e)
    ensures forall k :: 0 <= k < |e| ==> IsSnake(e[k].0)
    ensures forall k :: 0 <= k < |e| ==> e[k].0 !in Columnas
  {
    assert forall k :: 0 <= k < |e| ==> e[k].0 == Keys(e)[k];
    PlainSnake(e[0].0);
    PlainSnake(e[1].0);
    FechaNacimientoSnake(e[2].0);
    PlainSnake(e[3].0);
    ColumnasDistinct();
  }
}
