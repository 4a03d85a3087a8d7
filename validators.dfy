/** `validate_paciente_data` of the front end: the form data of a patient is checked
    field by field and the first failure is reported as `(False, message)`; when all
    pass the result is `(True, "")`. A check that raises in Python is an Err here. */
module FrontValidators {
  import opened Prelude
  import opened Values

  /** The fields that must be present and truthy, in the order they are checked. */
  const RequiredFields: seq<string> := [
    "dni", "nombreCompleto", "telefono", "idDistrito", "sexo",
    "nacimientoYear", "nacimientoMonth", "nacimientoDay"]

  const DniMessage: string := "El DNI debe tener 8 d\U{ed}gitos num\U{e9}ricos."
  const TelefonoMessage: string := "El tel\U{e9}fono debe tener entre 9 y 15 d\U{ed}gitos num\U{e9}ricos."
  const YearMessage: string := "El a\U{f1}o de nacimiento no es v\U{e1}lido."
  const MonthMessage: string := "El mes de nacimiento no es v\U{e1}lido."
  const DayMessage: string := "El d\U{ed}a de nacimiento no es v\U{e1}lido."

  function RequiredMessage(field: string): string
  {
    "El campo '" + field + "' es requerido."
  }

  /** `field not in data or not data[field]`. */
  predicate Missing(data: Entries, field: string)
  {
    match Get(data, field)
    case None => true
    case Some(v) => !Truthy(v)
  }

  /** The first of `fields` that is missing. */
  function FirstMissing(fields: seq<string>, data: Entries): (r: Option<string>)
    ensures r.None? <==> forall i :: 0 <= i < |fields| ==> !Missing(data, fields[i])
    ensures r.Some? ==> exists i :: (0 <= i < |fields| && fields[i] == r.value
      && Missing(data, fields[i]) && forall j :: 0 <= j < i ==> !Missing(data, fields[j]))
    decreases |fields|
  {
    if fields == [] then None
    else if Missing(data, fields[0]) then Some(fields[0])
    else
      var r := FirstMissing(fields[1..], data);
      if r.Some? then
        var i :| 0 <= i < |fields| - 1 && fields[1..][i] == r.value
          && Missing(data, fields[1..][i]) && forall j :: 0 <= j < i ==> !Missing(data, fields[1..][j]);
        assert fields[i + 1] == r.value && forall j :: 0 <= j < i + 1 ==> !Missing(data, fields[j]) by {
          forall j | 0 <= j < i + 1 ensures !Missing(data, fields[j]) {
            if j > 0 { assert fields[j] == fields[1..][j - 1]; }
          }
        }
        r
      else r
  }

  /** `data[field]`, for a field the required check has found. */
  function Field(data: Entries, field: string): Value
  {
    match Get(data, field)
    case Some(v) => v
    case None => Null
  }

  /** `str.isdigit()`: at least one character, all of them digits. */
  predicate IsDigitText(s: string)
  {
    |s| > 0 && AllDigits(s)
  }

  /** The integer a comparison with an int sees: `bool` is a subclass of `int`; anything
      else raises TypeError. */
  function AsInt(v: Value): Result<int>
  {
    match v
    case Int(i) => Ok(i)
    case Bool(b) => Ok(if b then 1 else 0)
    case _ => Err(TypeError("'<=' not supported between instances of 'int' and another type"))
  }

  /** `lo <= v <= hi` evaluated in Python, or the TypeError it raises. */
  function InRange(v: Value, lo: int, hi: int): Result<bool>
  {
    match AsInt(v)
    case Ok(i) => Ok(lo <= i <= hi)
    case Err(e) => Err(e)
  }

  /** A text field checked with `isdigit` and a length bound, or the AttributeError a
      non-string raises. */
  function DigitsWithin(v: Value, lo: int, hi: int): Result<bool>
  {
    if !v.Str? then Err(AttributeError("isdigit"))
    else Ok(IsDigitText(v.s) && lo <= |v.s| <= hi)
  }

  /** The `(is_valid, error_message)` pair. */
  type Verdict = (bool, string)

  /** `validate_paciente_data(data)`. */
  function ValidatePacienteData(data: Entries): Result<Verdict>
  {
    match FirstMissing(RequiredFields, data)
    case Some(field) => Ok((false, RequiredMessage(field)))
    case None =>
      FormatChecks(Field(data, "dni"), Field(data, "telefono"), Field(data, "nacimientoYear"),
        Field(data, "nacimientoMonth"), Field(data, "nacimientoDay"))
  }

  /** The checks after the required ones, on the values of the five fields they read. */
  function FormatChecks(dni: Value, telefono: Value, year: Value, month: Value, day: Value): Result<Verdict>
  {
    Checks(DigitsWithin(dni, 8, 8), DigitsWithin(telefono, 9, 15), InRange(year, 1900, 2024),
      InRange(month, 1, 12), InRange(day, 1, 31))
  }

  /** The five guards in order, on the outcomes of their checks. */
  function Checks(c1: Result<bool>, c2: Result<bool>, c3: Result<bool>, c4: Result<bool>, c5: Result<bool>): Result<Verdict>
  {
    Guard(c1, DniMessage, Guard(c2, TelefonoMessage, Guard(c3, YearMessage,
    Guard(c4, MonthMessage, Guard(c5, DayMessage, Ok((true, "")))))))
  }

  /** Each format check passes. */
  predicate FormatPass(dni: Value, telefono: Value, year: Value, month: Value, day: Value)
  {
    && DigitsWithin(dni, 8, 8) == Ok(true)
    && DigitsWithin(telefono, 9, 15) == Ok(true)
    && InRange(year, 1900, 2024) == Ok(true)
    && InRange(month, 1, 12) == Ok(true)
    && InRange(day, 1, 31) == Ok(true)
  }

  /** A failing verdict says why. */
  predicate Explained(r: Result<Verdict>)
  {
    r.Ok? && !r.value.0 ==> r.value.1 != ""
  }

  /** A guard passes exactly when its check holds and the rest passes; a failure it reports
      carries its own message or the one the rest reports. */
  lemma GuardSpec(check: Result<bool>, message: string, rest: Result<Verdict>)
    requires message != "" && Explained(rest)
    ensures Guard(check, message, rest) == Ok((true, "")) <==> check == Ok(true) && rest == Ok((true, ""))
    ensures Explained(Guard(check, message, rest))
  {
  }

  /** The guards pass exactly when every check holds, and a failure says why. */
  lemma ChecksSpec(c1: Result<bool>, c2: Result<bool>, c3: Result<bool>, c4: Result<bool>, c5: Result<bool>)
    ensures Checks(c1, c2, c3, c4, c5) == Ok((true, "")) <==>
      c1 == Ok(true) && c2 == Ok(true) && c3 == Ok(true) && c4 == Ok(true) && c5 == Ok(true)
    ensures Explained(Checks(c1, c2, c3, c4, c5))
  {
    var r5 := Ok((true, ""));
    var r4 := Guard(c5, DayMessage, r5);
    var r3 := Guard(c4, MonthMessage, r4);
    var r2 := Guard(c3, YearMessage, r3);
    var r1 := Guard(c2, TelefonoMessage, r2);
    MessagesNonEmpty();
    GuardSpec(c5, DayMessage, r5);
    GuardSpec(c4, MonthMessage, r4);
    GuardSpec(c3, YearMessage, r3);
    GuardSpec(c2, TelefonoMessage, r2);
    GuardSpec(c1, DniMessage, r1);
  }

  /** The format checks pass exactly when each of them does, and a failure says why. */
  lemma FormatChecksSpec(dni: Value, telefono: Value, year: Value, month: Value, day: Value)
    ensures FormatChecks(dni, telefono, year, month, day) == Ok((true, "")) <==> FormatPass(dni, telefono, year, month, day)
    ensures Explained(FormatChecks(dni, telefono, year, month, day))
  {
    ChecksSpec(DigitsWithin(dni, 8, 8), DigitsWithin(telefono, 9, 15), InRange(year, 1900, 2024),
      InRange(month, 1, 12), InRange(day, 1, 31));
  }

  lemma MessagesNonEmpty()
    ensures DniMessage != "" && TelefonoMessage != "" && YearMessage != ""
    ensures MonthMessage != "" && DayMessage != ""
  {
  }

  /** `if not check: return False, message`, then the rest of the checks. */
  function Guard(check: Result<bool>, message: string, rest: Result<Verdict>): (r: Result<Verdict>)
    ensures check.Err? ==> r == Err(check.error)
    ensures check == Ok(false) ==> r == Ok((false, message))
    ensures check == Ok(true) ==> r == rest
  {
    match check
    case Err(e) => Err(e)
    case Ok(ok) => if ok then rest else Ok((false, message))
  }

  /** Every check passes: the required fields are there and truthy, the DNI is eight
      digits, the phone nine to fifteen digits, and year, month and day are integers in
      1900..2024, 1..12 and 1..31. */
  predicate AllChecksPass(data: Entries)
  {
    && (forall i :: 0 <= i < |RequiredFields| ==> !Missing(data, RequiredFields[i]))
    && FormatPass(Field(data, "dni"), Field(data, "telefono"), Field(data, "nacimientoYear"),
         Field(data, "nacimientoMonth"), Field(data, "nacimientoDay"))
  }

  /** The result is `(True, "")` exactly when every check passes; a `False` carries a
      non-empty message, and a missing field is reported by the first one in order. */
  lemma ValidatePacienteDataSpec(data: Entries)
    ensures ValidatePacienteData(data) == Ok((true, "")) <==> AllChecksPass(data)
    ensures ValidatePacienteData(data).Ok? && !ValidatePacienteData(data).value.0 ==>
      ValidatePacienteData(data).value.1 != ""
    ensures FirstMissing(RequiredFields, data).Some? ==>
      ValidatePacienteData(data) == Ok((false, RequiredMessage(FirstMissing(RequiredFields, data).value)))
  {
    var m := FirstMissing(RequiredFields, data);
    if m.Some? {
      assert RequiredMessage(m.value) != "";
    } else {
      FormatChecksSpec(Field(data, "dni"), Field(data, "telefono"), Field(data, "nacimientoYear"),
        Field(data, "nacimientoMonth"), Field(data, "nacimientoDay"));
    }
  }

  /** The checks stop at the first failure: with the fields present, a DNI that is not
      eight digits is reported whatever the other fields hold. */
  lemma DniCheckedFirst(data: Entries)
    requires FirstMissing(RequiredFields, data).None?
    requires DigitsWithin(Field(data, "dni"), 8, 8) == Ok(false)
    ensures ValidatePacienteData(data) == Ok((false, DniMessage))
  {
  }

  /** No check looks at the month's length: day 31 passes in February. */
  lemma NoDayPerMonthCheck(data: Entries)
    requires FirstMissing(RequiredFields, data).None?
    requires DigitsWithin(Field(data, "dni"), 8, 8) == Ok(true)
    requires DigitsWithin(Field(data, "telefono"), 9, 15) == Ok(true)
    requires Field(data, "nacimientoYear") == Int(1990)
    requires Field(data, "nacimientoMonth") == Int(2) && Field(data, "nacimientoDay") == Int(31)
    ensures ValidatePacienteData(data) == Ok((true, ""))
  {
    FormatChecksSpec(Field(data, "dni"), Field(data, "telefono"), Int(1990), Int(2), Int(31));
  }

  /** A year given as text is truthy, so it passes the required check, and then the
      comparison raises TypeError. */
  lemma YearAsTextRaises(data: Entries)
    requires FirstMissing(RequiredFields, data).None?
    requires DigitsWithin(Field(data, "dni"), 8, 8) == Ok(true)
    requires DigitsWithin(Field(data, "telefono"), 9, 15) == Ok(true)
    requires Field(data, "nacimientoYear").Str?
    ensures ValidatePacienteData(data).Err? && ValidatePacienteData(data).error.TypeError?
  {
    YearTextRaises(Field(data, "dni"), Field(data, "telefono"), Field(data, "nacimientoYear"),
      Field(data, "nacimientoMonth"), Field(data, "nacimientoDay"));
  }

  lemma YearTextRaises(dni: Value, telefono: Value, year: Value, month: Value, day: Value)
    requires DigitsWithin(dni, 8, 8) == Ok(true) && DigitsWithin(telefono, 9, 15) == Ok(true)
    requires year.Str?
    ensures FormatChecks(dni, telefono, year, month, day).Err?
    ensures FormatChecks(dni, telefono, year, month, day).error.TypeError?
  {
  }
}
