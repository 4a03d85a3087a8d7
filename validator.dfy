/** The marshmallow field validators of the backend: a date not in the future, a date
    not in the past, and the eight-digit DNI check. A validator returns nothing or raises
    ValidationError; here that is Ok(()) or Err(ValidationError(message)). */
module Validator {
  import opened Prelude
  import opened Values
  import opened Dates

  const FutureMessage: string := "La fecha no puede estar en el futuro."
  const PastMessage: string := "La fecha no puede estar en el pasado."
  const DniMessage: string := "El DNI debe tener exactamente 8 d\U{ed}gitos num\U{e9}ricos."

  /** `validate_past_date(value)`, with `date.today()` as the parameter today. */
  function ValidatePastDate(value: Date, today: Date): (r: Result<()>)
    ensures r.Err? ==> r.error == ValidationError(FutureMessage)
  {
    if Before(today, value) then Err(ValidationError(FutureMessage)) else Ok(())
  }

  /** `validate_future_date(value)`, with `date.today()` as the parameter today. */
  function ValidateFutureDate(value: Date, today: Date): (r: Result<()>)
    ensures r.Err? ==> r.error == ValidationError(PastMessage)
  {
    if Before(value, today) then Err(ValidationError(PastMessage)) else Ok(())
  }

  /** Every date passes at least one of the two checks, today passes both and is the only
      date that does, and a date fails the past check exactly when it comes after every
      date that passes it. */
  lemma DateValidatorsMeet(value: Date, today: Date)
    ensures ValidatePastDate(value, today).Ok? || ValidateFutureDate(value, today).Ok?
    ensures ValidatePastDate(value, today).Ok? && ValidateFutureDate(value, today).Ok? <==> value == today
    ensures ValidatePastDate(value, today).Err? <==>
      forall d :: ValidatePastDate(d, today).Ok? ==> Before(d, value)
  {
    BeforeOrder(value, today, value);
    if ValidatePastDate(value, today).Err? {
      forall d | ValidatePastDate(d, today).Ok? ensures Before(d, value) {
        BeforeOrder(d, today, value);
      }
    } else {
      assert ValidatePastDate(today, today).Ok? by { BeforeOrder(today, today, today); }
    }
  }

  /** The past check is closed downwards: a date before one that passes passes too. */
  lemma PastDateDownward(a: Date, b: Date, today: Date)
    requires ValidatePastDate(b, today).Ok? && Before(a, b)
    ensures ValidatePastDate(a, today).Ok?
  {
    BeforeOrder(today, a, b);
    BeforeOrder(a, b, today);
  }

  /** Where `$` matches in Python's `re`: at the end, or before a newline that ends the
      string. */
  predicate DollarAt(s: string, i: nat)
  {
    i == |s| || (i == |s| - 1 && s[i] == '\n')
  }

  /** `re.match(r'^\d{8}$', s)`: eight digits from the start, then `$`. */
  predicate MatchesEightDigits(s: string)
  {
    |s| >= 8 && AllDigits(s[..8]) && DollarAt(s, 8)
  }

  /** The match holds for exactly eight digits, and also for eight digits followed by a
      newline. */
  lemma MatchesEightDigitsSpec(s: string)
    ensures MatchesEightDigits(s) <==>
      (|s| == 8 && AllDigits(s)) || (|s| == 9 && AllDigits(s[..8]) && s[8] == '\n')
  {
    if |s| == 8 {
      assert s[..8] == s;
    }
  }

  /** `validate_dni_or_ruc(value)` as written: a falsy value is not checked; a string must
      match the pattern; any other truthy value makes `re.match` raise TypeError. */
  function ValidateDniOrRuc(value: Value): (r: Result<()>)
  {
    if !Truthy(value) then Ok(())
    else if !value.Str? then Err(TypeError("expected string or bytes-like object"))
    else if MatchesEightDigits(value.s) then Ok(())
    else Err(ValidationError(DniMessage))
  }

  /** None, '' and 0 pass unchecked; a string passes exactly when it matches. */
  lemma ValidateDniOrRucSpec(value: Value)
    ensures !Truthy(value) ==> ValidateDniOrRuc(value) == Ok(())
    ensures value.Str? && value.s != "" ==>
      (ValidateDniOrRuc(value).Ok? <==> MatchesEightDigits(value.s))
    ensures value.Str? && ValidateDniOrRuc(value).Err? ==> ValidateDniOrRuc(value) == Err(ValidationError(DniMessage))
  {
  }

  /** Because `$` also matches before a final newline, '12345678\n' is accepted though it
      is nine characters long. */
  lemma TrailingNewlineAccepted(s: string)
    requires s == "12345678\n"
    ensures |s| == 9 && ValidateDniOrRuc(Str(s)) == Ok(())
  {
    MatchesEightDigitsSpec(s);
    assert AllDigits(s[..8]);
  }

  /** The check the message describes: a non-empty string passes only when it is exactly
      eight digits (`re.fullmatch(r'\d{8}', s)`). */
  function ValidateDniStrict(value: Value): (r: Result<()>)
  {
    if !Truthy(value) then Ok(())
    else if !value.Str? then Err(TypeError("expected string or bytes-like object"))
    else if |value.s| == 8 && AllDigits(value.s) then Ok(())
    else Err(ValidationError(DniMessage))
  }

  /** The strict check accepts a non-empty string exactly when it has eight characters, all
      digits; it agrees with the written one except on the eight digits plus newline. */
  lemma ValidateDniStrictSpec(value: Value)
    ensures value.Str? && value.s != "" ==>
      (ValidateDniStrict(value).Ok? <==> |value.s| == 8 && AllDigits(value.s))
    ensures value.Str? && |value.s| != 9 ==> ValidateDniStrict(value) == ValidateDniOrRuc(value)
    ensures ValidateDniStrict(value).Ok? ==> ValidateDniOrRuc(value).Ok?
  {
    if value.Str? {
      MatchesEightDigitsSpec(value.s);
    }
  }

  /** The strict check turns the trailing newline away. */
  lemma StrictRejectsNewline(s: string)
    requires s == "12345678\n"
    ensures ValidateDniStrict(Str(s)) == Err(ValidationError(DniMessage))
  {
  }
}
