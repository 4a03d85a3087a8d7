/** A pandas DataFrame as the cleaning toolkit uses it: named columns of equal
    height whose cells are Python values or one of pandas' missing markers.
    Passes that assign or drop columns change the frame in place. */
module Frame {
  import opened Prelude

  /** The three missing markers a cell can hold: `None`, `float('nan')` and `pd.NA`. */
  datatype MissingKind = NoneValue | NaN | NA

  datatype Cell =
    | Missing(kind: MissingKind)
    | Text(s: string)
    | Int(i: int)
    | Float(x: real)
    | Flag(b: bool)

  /** `isnull()` / `notnull()` and the test `dropna` and `fillna` use. */
  predicate IsNull(c: Cell) { c.Missing? }

  /** Decimal digits of a fraction 0 <= f < 1, at most n of them, without trailing zeros. */
  function FracDigits(f: real, n: nat): (r: string)
    requires 0.0 <= f < 1.0
    ensures AllDigits(r)
    decreases n
  {
    if n == 0 || f == 0.0 then []
    else
      var d := (f * 10.0).Floor;
      [DigitChar(d)] + FracDigits(f * 10.0 - d as real, n - 1)
  }

  /** `str(x)` for a float: integral values end in ".0"; other values are written out in
      decimal (at most 17 fractional digits). */
  function FloatText(x: real): (r: string)
    ensures |r| > 0
  {
    var a := if x < 0.0 then -x else x;
    var whole := a.Floor;
    var frac := FracDigits(a - whole as real, 17);
    (if x < 0.0 then "-" else "") + NatText(whole) + "." + (if frac == [] then "0" else frac)
  }

  /** `astype(str)` of one cell. */
  function AsText(c: Cell): (r: string)
    ensures c.Text? ==> r == c.s
    ensures c == Missing(NoneValue) ==> r == "None"
    ensures c == Missing(NaN) ==> r == "nan"
    ensures c == Missing(NA) ==> r == "<NA>"
  {
    match c
    case Missing(k) => (match k case NoneValue => "None" case NaN => "nan" case NA => "<NA>")
    case Text(s) => s
    case Int(i) => IntText(i)
    case Float(x) => FloatText(x)
    case Flag(b) => if b then "True" else "False"
  }

  function ColumnText(cells: seq<Cell>): (r: seq<string>)
    ensures |r| == |cells|
    ensures forall k :: 0 <= k < |cells| ==> r[k] == AsText(cells[k])
  {
    seq(|cells|, k requires 0 <= k < |cells| => AsText(cells[k]))
  }

  predicate Distinct(names: seq<string>)
  {
    forall a, b :: 0 <= a < b < |names| ==> names[a] != names[b]
  }

  /** Columns of one height whose names, in order, are those of the map. */
  ghost predicate WellFormed(names: seq<string>, cols: map<string, seq<Cell>>, height: nat)
  {
    && Distinct(names)
    && (forall n :: n in cols <==> n in names)
    && (forall n :: n in cols ==> |cols[n]| == height)
  }

  class DataFrame {
    var names: seq<string>
    var cols: map<string, seq<Cell>>
    var height: nat

    ghost predicate Valid()
      reads this
    {
      WellFormed(names, cols, height)
    }

    constructor (names: seq<string>, cols: map<string, seq<Cell>>, height: nat)
      requires WellFormed(names, cols, height)
      ensures Valid()
      ensures this.names == names && this.cols == cols && this.height == height
    {
      this.names := names;
      this.cols := cols;
      this.height := height;
    }

    /** `name in df.columns`. */
    predicate Has(name: string)
      reads this
    {
      name in cols
    }

    /** `df[name] = cells`: replaces the column where it exists, appends it otherwise. */
    method SetColumn(name: string, cells: seq<Cell>)
      requires Valid() && |cells| == height
      modifies this
      ensures Valid() && height == old(height)
      ensures cols == old(cols)[name := cells]
      ensures names == if name in old(names) then old(names) else old(names) + [name]
    {
      if name !in names {
        names := names + [name];
      }
      cols := cols[name := cells];
    }

    /** `df.drop(columns=[name], inplace=True)` for a column that may be absent. */
    method DropColumn(name: string)
      requires Valid()
      modifies this
      ensures Valid() && height == old(height)
      ensures cols == old(cols) - {name}
      ensures names == RemoveName(old(names), name)
    {
      RemoveNameSpec(names, name);
      names := RemoveName(names, name);
      cols := cols - {name};
    }
  }

  function RemoveName(names: seq<string>, name: string): (r: seq<string>)
    ensures forall n :: n in r <==> n in names && n != name
  {
    if names == [] then []
    else if names[0] == name then RemoveName(names[1..], name)
    else [names[0]] + RemoveName(names[1..], name)
  }

  /** Removing a name that is not there changes nothing. */
  lemma {:induction false} RemoveAbsent(names: seq<string>, name: string)
    requires name !in names
    ensures RemoveName(names, name) == names
  {
    if names != [] {
      assert names[1..] + [] == names[1..];
      RemoveAbsent(names[1..], name);
      assert [names[0]] + names[1..] == names;
    }
  }

  lemma {:induction false} RemoveNameSpec(names: seq<string>, name: string)
    requires Distinct(names)
    ensures Distinct(RemoveName(names, name))
  {
    if names != [] {
      RemoveNameSpec(names[1..], name);
      var rest := RemoveName(names[1..], name);
      assert names[0] !in names[1..];
      if names[0] != name {
        var r := [names[0]] + rest;
        forall a, b | 0 <= a < b < |r| ensures r[a] != r[b] {
          if a == 0 {
            assert r[b] in rest;
          } else {
            assert r[a] == rest[a - 1] && r[b] == rest[b - 1];
          }
        }
      }
    }
  }
}
