/** The "problem patient" marker: `consolidar_marcador_problematico` turns a "(PP)" in
    the name, or any value in a `pp` column, into one boolean column, and
    `limpiar_nombre_problematico` removes parenthesised notes from the names. */
module Markers {
  import opened Prelude
  import opened Regex
  import opened Frame

  const PPMark: string := "(PP)"

  /** `str.contains(r'\(PP\)')` on one name. */
  predicate HasPPMark(s: string)
  {
    Search(Lits(PPMark), s)
  }

  /** The escaped pattern is a plain, case-sensitive substring test. */
  lemma HasPPMarkSpec(s: string)
    ensures HasPPMark(s) <==> exists i :: 0 <= i <= |s| && At(s, i, PPMark)
  {
    if HasPPMark(s) {
      var i :| 0 <= i <= |s| && MatchFrom(Lits(PPMark), s, i);
      LitsMatch(PPMark, [], s, i);
      assert Lits(PPMark) + [] == Lits(PPMark);
    }
    if exists i :: 0 <= i <= |s| && At(s, i, PPMark) {
      var i :| 0 <= i <= |s| && At(s, i, PPMark);
      LitsFoundInside(PPMark, s, i);
    }
  }

  /** The `paciente_problematico` column: `nombre_contiene_pp | pp_no_es_nulo`, where the
      second operand is all False when the frame has no `pp` column. */
  function ProblemFlags(nombre: seq<Cell>, pp: Option<seq<Cell>>): (r: seq<Cell>)
    requires pp.Some? ==> |pp.value| == |nombre|
    ensures |r| == |nombre|
  {
    seq(|nombre|, k requires 0 <= k < |nombre| =>
      Flag(HasPPMark(AsText(nombre[k])) || (pp.Some? && !IsNull(pp.value[k]))))
  }

  /** A row is flagged exactly when its name, as text, contains "(PP)" or its `pp` cell
      holds a value; a frame without `pp` flags only by name. */
  lemma ProblemFlagsSpec(nombre: seq<Cell>, pp: Option<seq<Cell>>, k: nat)
    requires pp.Some? ==> |pp.value| == |nombre|
    requires k < |nombre|
    ensures ProblemFlags(nombre, pp)[k].Flag?
    ensures ProblemFlags(nombre, pp)[k].b <==>
      (exists i :: 0 <= i <= |AsText(nombre[k])| && At(AsText(nombre[k]), i, PPMark))
      || (pp.Some? && !IsNull(pp.value[k]))
    ensures pp.None? ==> (ProblemFlags(nombre, pp)[k].b <==> HasPPMark(AsText(nombre[k])))
  {
    HasPPMarkSpec(AsText(nombre[k]));
  }

  /** `consolidar_marcador_problematico(df)`: reading `df['nombre']` raises KeyError when
      the frame has no `nombre`; otherwise the flag column is written and `pp`, when
      present, is dropped. */
  method ConsolidarMarcadorProblematico(df: DataFrame) returns (status: Result<()>)
    requires df.Valid()
    modifies df
    ensures df.Valid() && df.height == old(df.height)
    ensures status.Err? <==> "nombre" !in old(df.cols)
    ensures status.Err? ==> status.error == KeyError("nombre") && df.cols == old(df.cols) && df.names == old(df.names)
    ensures status.Ok? ==> (df.cols ==
      old(df.cols)["paciente_problematico" :=
        ProblemFlags(old(df.cols)["nombre"], if "pp" in old(df.cols) then Some(old(df.cols)["pp"]) else None)]
      - {"pp"})
    ensures status.Ok? ==> df.names == RemoveName(
      if "paciente_problematico" in old(df.names) then old(df.names) else old(df.names) + ["paciente_problematico"], "pp")
  {
    if "nombre" !in df.cols {
      return Err(KeyError("nombre"));
    }
    var pp := if "pp" in df.cols then Some(df.cols["pp"]) else None;
    var flags := ProblemFlags(df.cols["nombre"], pp);
    ghost var cols0 := df.cols;
    df.SetColumn("paciente_problematico", flags);
    ghost var names1 := df.names;
    ghost var cols1 := df.cols;
    assert cols1 == cols0["paciente_problematico" := flags];
    if "pp" in df.cols {
      df.DropColumn("pp");
      assert df.cols == cols1 - {"pp"};
    } else {
      assert "pp" !in names1;
      RemoveAbsent(names1, "pp");
      assert "pp" !in cols1;
      assert cols1 - {"pp"} == cols1;
    }
    assert df.names == RemoveName(names1, "pp");
    status := Ok(());
  }

  predicate NotClose(c: char) { c != ')' }

  /** Where `\s*\([^)]*\)` matches at i, the end of the match: the greedy spaces, an
      opening parenthesis, everything up to the first closing one, and that one. */
  function ParenAt(s: string, i: nat): (r: Option<nat>)
    requires i <= |s|
    ensures r.Some? ==> i < r.value <= |s|
  {
    var j := RunEnd(s, i, IsSpace);
    if j < |s| && s[j] == '(' then
      var k := RunEnd(s, j + 1, NotClose);
      if k < |s| then Some(k + 1) else None
    else None
  }

  /** What the pattern matches at i, ending at e, with all the choices backtracking
      could make: some whitespace, "(", characters other than ")", then ")". */
  ghost predicate ParenMatch(s: string, i: nat, e: nat)
  {
    exists j :: ParenSplit(s, i, j, e)
  }

  ghost predicate ParenSplit(s: string, i: nat, j: nat, e: nat)
  {
    && i <= j && j + 2 <= e <= |s|
    && (forall p :: i <= p < j ==> IsSpace(s[p]))
    && s[j] == '('
    && (forall p :: j < p < e - 1 ==> s[p] != ')')
    && s[e - 1] == ')'
  }

  /** The recogniser finds exactly the matches the pattern has: a match at i is unique
      and it is the one ParenAt returns. */
  lemma ParenAtSpec(s: string, i: nat, e: nat)
    requires i <= |s|
    ensures ParenAt(s, i) == Some(e) <==> ParenMatch(s, i, e)
  {
    var j := RunEnd(s, i, IsSpace);
    if ParenAt(s, i) == Some(e) {
      assert ParenSplit(s, i, j, e);
    }
    if ParenMatch(s, i, e) {
      var j' :| ParenSplit(s, i, j', e);
      assert !IsSpace('(');
      assert j' == j;
      RunEndUnique(s, j + 1, e - 1, NotClose);
    }
  }

  /** `re.sub(r'\s*\([^)]*\)', '', s[i..])`: each leftmost match is removed and the scan
      resumes after it; characters outside matches are kept. */
  function Scrub(s: string, i: nat): string
    requires i <= |s|
    decreases |s| - i
  {
    if i == |s| then []
    else match ParenAt(s, i)
      case Some(e) => Scrub(s, e)
      case None => [s[i]] + Scrub(s, i + 1)
  }

  /** No "(" is followed, anywhere later, by a ")": nothing for the pattern to match. */
  predicate NoGroup(r: string)
  {
    forall a, b :: 0 <= a < b < |r| && r[a] == '(' ==> r[b] != ')'
  }

  lemma {:induction false} ScrubNoClose(s: string, i: nat)
    requires i <= |s|
    requires forall p :: i <= p < |s| ==> s[p] != ')'
    ensures forall b :: 0 <= b < |Scrub(s, i)| ==> Scrub(s, i)[b] != ')'
    decreases |s| - i
  {
    if i < |s| {
      assert ParenAt(s, i).None?;
      ScrubNoClose(s, i + 1);
    }
  }

  /** After the substitution no parenthesised group is left. */
  lemma {:induction false} ScrubNoGroup(s: string, i: nat)
    requires i <= |s|
    ensures NoGroup(Scrub(s, i))
    decreases |s| - i
  {
    if i < |s| {
      match ParenAt(s, i)
      case Some(e) =>
        ScrubNoGroup(s, e);
      case None =>
        ScrubNoGroup(s, i + 1);
        var rest := Scrub(s, i + 1);
        if s[i] == '(' {
          assert RunEnd(s, i, IsSpace) == i;
          assert RunEnd(s, i + 1, NotClose) == |s|;
          ScrubNoClose(s, i + 1);
        }
        var r := [s[i]] + rest;
        forall a, b | 0 <= a < b < |r| && r[a] == '(' ensures r[b] != ')' {
          assert r[b] == rest[b - 1];
          if a > 0 {
            assert r[a] == rest[a - 1];
          }
        }
    }
  }

  /** A text with no group is left as it is. */
  lemma {:induction false} ScrubFixpoint(t: string, i: nat)
    requires i <= |t| && NoGroup(t)
    ensures Scrub(t, i) == t[i..]
    decreases |t| - i
  {
    if i < |t| {
      var j := RunEnd(t, i, IsSpace);
      if j < |t| && t[j] == '(' {
        var k := RunEnd(t, j + 1, NotClose);
      }
      ScrubFixpoint(t, i + 1);
      assert t[i..] == [t[i]] + t[i + 1..];
    }
  }

  lemma StripIdem(s: string)
    ensures Strip(Strip(s)) == Strip(s)
  {
    var r := Strip(s);
    if r != [] {
      assert StripLeft(r) == r;
      assert StripRight(r) == r;
    }
  }

  /** One cell of the cleaned `nombre` column: text, notes removed, then stripped. */
  function CleanName(s: string): string
  {
    Strip(Scrub(s, 0))
  }

  /** Cleaning removes every parenthesised group, so in particular every "(PP)" marker,
      and cleaning a clean name again changes nothing. */
  lemma CleanNameSpec(s: string)
    ensures NoGroup(CleanName(s))
    ensures !HasPPMark(CleanName(s))
    ensures CleanName(CleanName(s)) == CleanName(s)
  {
    var u := Scrub(s, 0);
    ScrubNoGroup(s, 0);
    var t := Strip(u);
    StripNoGroup(u);
    NoGroupNoMark(t);
    ScrubFixpoint(t, 0);
    assert t[0..] == t;
    StripIdem(u);
  }

  /** Stripping keeps a text free of groups: it only removes characters at the ends. */
  lemma StripNoGroup(u: string)
    requires NoGroup(u)
    ensures NoGroup(Strip(u))
  {
    var t := Strip(u);
    var l := |u| - |StripLeft(u)|;
    assert t == u[l..l + |t|];
    forall a, b | 0 <= a < b < |t| && t[a] == '(' ensures t[b] != ')' {
      assert t[a] == u[l + a] && t[b] == u[l + b];
    }
  }

  lemma NoGroupNoMark(t: string)
    requires NoGroup(t)
    ensures !HasPPMark(t)
  {
    HasPPMarkSpec(t);
    forall i | 0 <= i <= |t| ensures !At(t, i, PPMark) {
      if i + 4 <= |t| {
        assert t[i..i + 4][0] == t[i] && t[i..i + 4][3] == t[i + 3];
      }
    }
  }

  /** Names without parentheses are only stripped. */
  lemma PlainName(s: string)
    requires forall p :: 0 <= p < |s| ==> s[p] != '('
    ensures CleanName(s) == Strip(s)
  {
    assert NoGroup(s);
    ScrubFixpoint(s, 0);
    assert s[0..] == s;
  }

  lemma MarkedName(s: string)
    requires s == "Juan Perez (PP)"
    ensures CleanName(s) == "Juan Perez"
  {
    NameScrubbed(s);
    var u := Scrub(s, 0);
    assert u == "Juan Perez";
    assert StripLeft(u) == u;
    assert StripRight(u) == u;
  }

  lemma NameScrubbed(s: string)
    requires s == "Juan Perez (PP)"
    ensures Scrub(s, 0) == "Juan Perez"
  {
    NoOpenKept(s, 0, 10);
    RunEndUnique(s, 10, 11, IsSpace);
    RunEndUnique(s, 12, 14, NotClose);
    assert ParenAt(s, 10) == Some(15);
    assert Scrub(s, 15) == [];
    assert s[0..10] + [] == "Juan Perez";
  }

  /** A stretch without "(" that does not end in whitespace starts no match, so it is
      kept as it is. */
  lemma {:induction false} NoOpenKept(s: string, i: nat, n: nat)
    requires i <= n <= |s|
    requires forall p :: i <= p < n ==> s[p] != '('
    requires i < n ==> !IsSpace(s[n - 1])
    ensures Scrub(s, i) == s[i..n] + Scrub(s, n)
    decreases n - i
  {
    if i < n {
      NoOpenNone(s, i, n);
      NoOpenKept(s, i + 1, n);
      assert s[i..n] == [s[i]] + s[i + 1..n];
      Regroup([s[i]], s[i + 1..n], Scrub(s, n));
    }
  }

  lemma NoOpenNone(s: string, i: nat, n: nat)
    requires i < n <= |s|
    requires forall p :: i <= p < n ==> s[p] != '('
    requires !IsSpace(s[n - 1])
    ensures ParenAt(s, i) == None
  {
    RunEndBefore(s, i, n, IsSpace);
  }

  /** The cleaned `nombre` column. */
  function CleanNames(cells: seq<Cell>): (r: seq<Cell>)
    ensures |r| == |cells|
    ensures forall k :: 0 <= k < |cells| ==> r[k] == Text(CleanName(AsText(cells[k])))
  {
    seq(|cells|, k requires 0 <= k < |cells| => Text(CleanName(AsText(cells[k]))))
  }

  /** `limpiar_nombre_problematico(df)`: rewrites `nombre` when present; without it the
      frame is left as it was. */
  method LimpiarNombreProblematico(df: DataFrame)
    requires df.Valid()
    modifies df
    ensures df.Valid() && df.height == old(df.height) && df.names == old(df.names)
    ensures "nombre" !in old(df.cols) ==> df.cols == old(df.cols)
    ensures "nombre" in old(df.cols) ==> df.cols == old(df.cols)["nombre" := CleanNames(old(df.cols)["nombre"])]
  {
    if "nombre" in df.cols {
      df.SetColumn("nombre", CleanNames(df.cols["nombre"]));
    }
  }
}
