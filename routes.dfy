/** The `Paciente` class of the routes file, a second definition of the patient row with
    its columns in another order. Its `edad`, `fecha_nacimiento_completa` and `alertas`
    compute what the model class computes; its `to_dict(include_relations)` adds those,
    the birth date under the key `fechaNacimiento`, the district as `{id, nombre}` only
    when asked for and present, and converts the keys with `_to_camel_case`. */
module Routes {
  import opened Prelude
  import opened Values
  import opened CamelCase
  import opened Dates
  import opened PacienteModel
  import Base

  /** The mapped columns in the order this class declares them. */
  const RutaColumnas: seq<string> := [
    "id_paciente", "dni", "nombre_completo", "sexo", "telefono", "nacimiento_year",
    "nacimiento_month", "nacimiento_day", "id_distrito", "paciente_problematico", "created_at"]

  /** The same columns as the model class, each once, all snake_case. */
  lemma RutaColumnasSpec()
    ensures forall j :: 0 <= j < |RutaColumnas| ==> RutaColumnas[j] in Columnas
    ensures (set c | c in RutaColumnas) == (set c | c in Columnas)
    ensures forall a, b :: 0 <= a < b < |RutaColumnas| ==> RutaColumnas[a] != RutaColumnas[b]
    ensures forall j :: 0 <= j < |RutaColumnas| ==> IsSnake(RutaColumnas[j])
  {
    forall j | 0 <= j < |RutaColumnas| ensures IsSnake(RutaColumnas[j]) {
      ColumnSnake(RutaColumnas[j]);
    }
  }

  /** The `{id, nombre}` dict of the related district. */
  function DistritoRuta(d: Distrito): Value
  {
    Dict([("id", Int(d.idDistrito)), ("nombre", Str(d.nombreDistrito))])
  }

  /** The district goes in when relations are asked for and the row has one. */
  predicate ConDistrito(p: Paciente, includeRelations: bool)
  {
    includeRelations && p.distrito.Some?
  }

  /** The dict `to_dict` builds before converting its keys. */
  function DatosRuta(p: Paciente, includeRelations: bool, hoy: Date): Entries
  {
    var d0 := Base.ColumnDict(RutaColumnas, Atributos(p));
    var d1 := Set(d0, "edad", EdadValue(p, hoy));
    var d2 := Set(d1, "alertas", AlertasValue(p));
    var d3 := Set(d2, "fechaNacimiento", FechaValue(p));
    if ConDistrito(p, includeRelations) then Set(d3, "distrito", DistritoRuta(p.distrito.value))
    else d3
  }

  /** `to_dict(include_relations)`, with `date.today()` as the parameter hoy. */
  function ToDict(p: Paciente, includeRelations: bool, hoy: Date): Entries
  {
    CamelDict(DatosRuta(p, includeRelations, hoy))
  }

  /** The entries `to_dict` adds after the columns. */
  function DerivadosRuta(p: Paciente, includeRelations: bool, hoy: Date): (r: Entries)
    ensures |r| == if ConDistrito(p, includeRelations) then 4 else 3
  {
    [("edad", EdadValue(p, hoy)), ("alertas", AlertasValue(p)), ("fechaNacimiento", FechaValue(p))]
    + if ConDistrito(p, includeRelations) then [("distrito", DistritoRuta(p.distrito.value))] else []
  }

  /** The keys of the result, in order. */
  const RutaCamel: seq<string> := ["edad", "alertas", "fechaNacimiento", "distrito"]

  /** No added key, nor the snake_case reading of `fechaNacimiento`, is a column. */
  lemma RutaKeysFresh()
    ensures forall k :: k in RutaCamel ==> k !in RutaColumnas
    ensures forall a, b :: 0 <= a < b < |RutaCamel| ==> RutaCamel[a] != RutaCamel[b]
    ensures "fecha_nacimiento" !in RutaColumnas + RutaCamel
  {
  }

  /** The added entries go after the columns, in the order they are assigned. */
  lemma DatosRutaShape(p: Paciente, includeRelations: bool, hoy: Date)
    ensures DatosRuta(p, includeRelations, hoy) == Base.ColumnDict(RutaColumnas, Atributos(p)) + DerivadosRuta(p, includeRelations, hoy)
  {
    var d0 := Base.ColumnDict(RutaColumnas, Atributos(p));
    Base.ColumnDictKeys(RutaColumnas, Atributos(p));
    RutaKeysFresh();
    var dist := if ConDistrito(p, includeRelations) then DistritoRuta(p.distrito.value) else Null;
    SetChain(d0, "edad", EdadValue(p, hoy), "alertas", AlertasValue(p), "fechaNacimiento", FechaValue(p),
      ConDistrito(p, includeRelations), "distrito", dist);
  }

  /** `fechaNacimiento` reads back as `fecha_nacimiento`. */
  lemma FechaCamelSnake(key: string)
    requires key == "fechaNacimiento"
    ensures SnakeCase(key) == "fecha_nacimiento"
  {
    var a, b := key[..5], key[6..];
    assert key == a + [UpperChar('n')] + b;
    SnakeOfCamel(a, 'n', b);
  }

  /** `fechaNacimiento` has no underscore and reads back as none of the names that are not
      `fecha_nacimiento`. */
  lemma FechaFresh(key: string, others: seq<string>)
    requires key == "fechaNacimiento" && "fecha_nacimiento" !in others
    ensures '_' !in key && SnakeCase(key) !in others
  {
    FechaCamelSnake(key);
  }

  /** A lower-case word, an upper-case letter and another lower-case word read back with
      an underscore before the lowered letter. */
  lemma SnakeOfCamel(a: string, c: char, b: string)
    requires forall k :: 0 <= k < |a| ==> IsLower(a[k])
    requires forall k :: 0 <= k < |b| ==> IsLower(b[k])
    requires IsLower(c)
    ensures SnakeCase(a + [UpperChar(c)] + b) == a + ['_', c] + b
  {
    var u := [UpperChar(c)];
    SnakeConcat(a + u, b);
    SnakeConcat(a, u);
    SnakeOfLower(a);
    SnakeOfLower(b);
    SnakeOfUpper(c);
  }

  /** The added keys are distinct and no column's; `fechaNacimiento` has no underscore and
      reads back as no key, the others are snake_case. */
  lemma DerivadosRutaKeys(e: Entries)
    requires 3 <= |e| <= 4 && Keys(e) == RutaCamel[..|e|]
    ensures DistinctKeys(e)
    ensures forall k :: 0 <= k < |e| ==> e[k].0 !in RutaColumnas
    ensures forall k :: 0 <= k < |e| ==>
      IsSnake(e[k].0) || ('_' !in e[k].0 && SnakeCase(e[k].0) !in RutaColumnas + Keys(e))
  {
    assert forall k :: 0 <= k < |e| ==> e[k].0 == RutaCamel[k];
    RutaKeysFresh();
    assert "fecha_nacimiento" !in RutaColumnas + Keys(e);
    forall k | 0 <= k < |e|
      ensures IsSnake(e[k].0) || ('_' !in e[k].0 && SnakeCase(e[k].0) !in RutaColumnas + Keys(e))
    {
      if k == 2 {
        FechaFresh(e[k].0, RutaColumnas + Keys(e));
      } else {
        PlainSnake(e[k].0);
      }
    }
  }

  lemma DatosRutaWellKeyed(p: Paciente, includeRelations: bool, hoy: Date)
    ensures WellKeyed(RutaColumnas, Atributos(p), DerivadosRuta(p, includeRelations, hoy))
  {
    RutaColumnasSpec();
    var e := DerivadosRuta(p, includeRelations, hoy);
    assert Keys(e) == RutaCamel[..|e|];
    DerivadosRutaKeys(e);
  }

  /** The converted key of the k-th added entry. */
  lemma RutaKey(p: Paciente, includeRelations: bool, hoy: Date, k: nat)
    requires k < |DerivadosRuta(p, includeRelations, hoy)|
    ensures CamelKey(DerivadosRuta(p, includeRelations, hoy)[k].0) == RutaCamel[k]
  {
    var key := DerivadosRuta(p, includeRelations, hoy)[k].0;
    assert key == RutaCamel[k];
    assert '_' !in key;
    CamelKeyPlain(key);
  }

  /** The dict sent to the front end: each column under its camelCase name, from which
      SnakeCase gives the column back, then `edad`, `alertas`, `fechaNacimiento` and, just
      when relations are asked for and the row has a district, `distrito`. */
  lemma ToDictSpec(p: Paciente, includeRelations: bool, hoy: Date)
    ensures |ToDict(p, includeRelations, hoy)| == if ConDistrito(p, includeRelations) then 15 else 14
    ensures forall j :: 0 <= j < |RutaColumnas| ==>
      ToDict(p, includeRelations, hoy)[j] == (CamelKey(RutaColumnas[j]), Atributos(p)[RutaColumnas[j]])
      && SnakeCase(ToDict(p, includeRelations, hoy)[j].0) == RutaColumnas[j]
    ensures forall k :: 0 <= k < |DerivadosRuta(p, includeRelations, hoy)| ==>
      ToDict(p, includeRelations, hoy)[11 + k] == (RutaCamel[k], DerivadosRuta(p, includeRelations, hoy)[k].1)
  {
    DatosRutaShape(p, includeRelations, hoy);
    DatosRutaWellKeyed(p, includeRelations, hoy);
    CamelOfColumns(RutaColumnas, Atributos(p), DerivadosRuta(p, includeRelations, hoy));
    forall k | 0 <= k < |DerivadosRuta(p, includeRelations, hoy)|
      ensures ToDict(p, includeRelations, hoy)[11 + k] == (RutaCamel[k], DerivadosRuta(p, includeRelations, hoy)[k].1)
    {
      RutaKey(p, includeRelations, hoy, k);
    }
  }

  /** Its keys are distinct and none has an underscore. */
  lemma ToDictKeys(p: Paciente, includeRelations: bool, hoy: Date)
    ensures DistinctKeys(ToDict(p, includeRelations, hoy))
    ensures forall j :: 0 <= j < |ToDict(p, includeRelations, hoy)| ==> '_' !in ToDict(p, includeRelations, hoy)[j].0
  {
    CamelDictSpec(DatosRuta(p, includeRelations, hoy));
  }
}
