/** `_prep_text`: the normaliser every brand search runs on. The source columns of
    a row are rendered as text and joined by one space; accents are folded away,
    the text is upper-cased, every character outside `A-Z0-9+` and space becomes a
    space, runs of whitespace shrink to one space and the ends are trimmed. */
module TextPrep {
  import opened Prelude
  import opened Frame

  predicate AllAscii(s: string) { forall k :: 0 <= k < |s| ==> IsAscii(s[k]) }

  /** The ASCII characters that survive `encode("ascii", "ignore")` of the NFKD
      decomposition of one character: the character itself when it is ASCII, the
      compatibility decomposition of the Latin-1 letters and signs, and nothing for
      every other character. */
  function AccentFold(c: char): (r: string)
    ensures AllAscii(r)
    ensures IsAscii(c) ==> r == [c]
  {
    if IsAscii(c) then [c]
    else if c == '\U{a0}' || c == '\U{a8}' || c == '\U{af}' || c == '\U{b4}' || c == '\U{b8}' then " "
    else if c == '\U{aa}' then "a"
    else if c == '\U{ba}' then "o"
    else if c == '\U{b9}' then "1"
    else if c == '\U{b2}' then "2"
    else if c == '\U{b3}' then "3"
    else if c == '\U{bc}' then "14"
    else if c == '\U{bd}' then "12"
    else if c == '\U{be}' then "34"
    else if '\U{c0}' <= c <= '\U{c5}' then "A"
    else if c == '\U{c7}' then "C"
    else if '\U{c8}' <= c <= '\U{cb}' then "E"
    else if '\U{cc}' <= c <= '\U{cf}' then "I"
    else if c == '\U{d1}' then "N"
    else if '\U{d2}' <= c <= '\U{d6}' then "O"
    else if '\U{d9}' <= c <= '\U{dc}' then "U"
    else if c == '\U{dd}' then "Y"
    else if '\U{e0}' <= c <= '\U{e5}' then "a"
    else if c == '\U{e7}' then "c"
    else if '\U{e8}' <= c <= '\U{eb}' then "e"
    else if '\U{ec}' <= c <= '\U{ef}' then "i"
    else if c == '\U{f1}' then "n"
    else if '\U{f2}' <= c <= '\U{f6}' then "o"
    else if '\U{f9}' <= c <= '\U{fc}' then "u"
    else if c == '\U{fd}' || c == '\U{ff}' then "y"
    else []
  }

  /** `_strip_accents` on one string: pure ASCII out, ASCII text untouched. */
  function StripAccents(s: string): (r: string)
    ensures AllAscii(r)
    ensures AllAscii(s) ==> r == s
  {
    if s == [] then [] else AccentFold(s[0]) + StripAccents(s[1..])
  }

  /** The characters `[^A-Z0-9+ ]` does not match. */
  predicate Allowed(c: char) { IsUpper(c) || IsDigit(c) || c == '+' || c == ' ' }

  predicate AllAllowed(s: string) { forall k :: 0 <= k < |s| ==> Allowed(s[k]) }

  /** `str.replace(r"[^A-Z0-9+ ]", " ", regex=True)`. */
  function ReplaceDisallowed(s: string): (r: string)
    ensures |r| == |s| && AllAllowed(r)
    ensures forall k :: 0 <= k < |s| && Allowed(s[k]) ==> r[k] == s[k]
    ensures forall k :: 0 <= k < |s| && !Allowed(s[k]) ==> r[k] == ' '
  {
    seq(|s|, k requires 0 <= k < |s| => if Allowed(s[k]) then s[k] else ' ')
  }

  predicate NoDoubleSpace(s: string)
  {
    forall k :: 0 <= k < |s| - 1 ==> !(s[k] == ' ' && s[k + 1] == ' ')
  }

  /** The only whitespace character in s is the plain space. */
  predicate PlainSpaces(s: string)
  {
    forall k :: 0 <= k < |s| && IsSpace(s[k]) ==> s[k] == ' '
  }

  /** The characters of s that are not white space, in order. */
  function NonSpace(s: string): string
  {
    if s == [] then [] else (if IsSpace(s[0]) then [] else [s[0]]) + NonSpace(s[1..])
  }

  lemma {:induction false} NonSpaceAppend(a: string, b: string)
    ensures NonSpace(a + b) == NonSpace(a) + NonSpace(b)
  {
    if a == [] {
      assert a + b == b;
    } else {
      assert (a + b)[1..] == a[1..] + b;
      NonSpaceAppend(a[1..], b);
    }
  }

  lemma {:induction false} NonSpaceOfSpaces(s: string)
    requires AllSpace(s)
    ensures NonSpace(s) == []
  {
    if s != [] {
      assert IsSpace(s[0]);
      assert AllSpace(s[1..]) by {
        forall k | 0 <= k < |s| - 1 ensures IsSpace(s[1..][k]) { assert s[1..][k] == s[k + 1]; }
      }
      NonSpaceOfSpaces(s[1..]);
    }
  }

  /** Removing white space from both ends keeps every other character. */
  lemma StripKeeps(s: string)
    ensures NonSpace(Strip(s)) == NonSpace(s)
  {
    var a := |s| - |StripLeft(s)|;
    var r := Strip(s);
    assert s == s[..a] + r + s[a + |r|..];
    NonSpaceAppend(s[..a] + r, s[a + |r|..]);
    NonSpaceAppend(s[..a], r);
    NonSpaceOfSpaces(s[..a]);
    NonSpaceOfSpaces(s[a + |r|..]);
  }

  /** `str.replace(r"\s+", " ", regex=True)`: every maximal whitespace run becomes one
      space; the other characters are kept in order. */
  function CollapseSpaces(s: string): (r: string)
    ensures s == [] <==> r == []
    ensures s != [] ==> r[0] == if IsSpace(s[0]) then ' ' else s[0]
    ensures NonSpace(r) == NonSpace(s)
    decreases |s|
  {
    if s == [] then []
    else if IsSpace(s[0]) then
      var t := StripLeft(s);
      var r := " " + CollapseSpaces(t);
      NonSpaceAppend(" ", CollapseSpaces(t));
      assert s == s[..|s| - |t|] + t;
      NonSpaceAppend(s[..|s| - |t|], t);
      NonSpaceOfSpaces(s[..|s| - |t|]);
      r
    else
      var r := [s[0]] + CollapseSpaces(s[1..]);
      NonSpaceAppend([s[0]], CollapseSpaces(s[1..]));
      r
  }

  /** A white-space run between two words collapses to exactly one space: the words
      are neither glued together nor split further apart. */
  lemma {:induction false} CollapseSplit(a: string, w: string, b: string)
    requires a == [] || !IsSpace(a[|a| - 1])
    requires w != [] && AllSpace(w)
    requires b == [] || !IsSpace(b[0])
    ensures CollapseSpaces(a + w + b) == CollapseSpaces(a) + " " + CollapseSpaces(b)
    decreases |a|
  {
    if a == [] {
      SplitBeforeWord(w, b);
    } else if IsSpace(a[0]) {
      var t := StripLeft(a);
      StripLeftKeepsLast(a);
      CollapseSplit(t, w, b);
      SplitAfterSpace(a, t, w, b);
    } else {
      var a' := a[1..];
      if a' != [] {
        assert a'[|a'| - 1] == a[|a| - 1];
      }
      CollapseSplit(a', w, b);
      SplitAfterChar(a, w, b);
    }
  }

  /** The base case of CollapseSplit: the white space comes first. */
  lemma SplitBeforeWord(w: string, b: string)
    requires w != [] && AllSpace(w)
    requires b == [] || !IsSpace(b[0])
    ensures CollapseSpaces([] + w + b) == CollapseSpaces([]) + " " + CollapseSpaces(b)
  {
    assert [] + w + b == w + b;
    assert IsSpace((w + b)[0]);
    StripSpacesBefore(w, b);
    CollapseHead(w + b);
  }

  /** The step of CollapseSplit for text that starts with white space. */
  lemma SplitAfterSpace(a: string, t: string, w: string, b: string)
    requires a != [] && IsSpace(a[0]) && !IsSpace(a[|a| - 1]) && t == StripLeft(a)
    requires CollapseSpaces(t + w + b) == CollapseSpaces(t) + " " + CollapseSpaces(b)
    ensures CollapseSpaces(a + w + b) == CollapseSpaces(a) + " " + CollapseSpaces(b)
  {
    StripLeftAppend(a, w + b);
    Regroup(a, w, b);
    Regroup(t, w, b);
    assert (a + w + b)[0] == a[0];
    CollapseHead(a + w + b);
    CollapseHead(a);
    Regroup4(" ", CollapseSpaces(t), CollapseSpaces(b));
  }

  /** The step of CollapseSplit for text that starts with another character. */
  lemma SplitAfterChar(a: string, w: string, b: string)
    requires a != [] && !IsSpace(a[0])
    requires CollapseSpaces(a[1..] + w + b) == CollapseSpaces(a[1..]) + " " + CollapseSpaces(b)
    ensures CollapseSpaces(a + w + b) == CollapseSpaces(a) + " " + CollapseSpaces(b)
  {
    TailAppend(a, w);
    TailAppend(a + w, b);
    assert (a + w + b)[0] == a[0];
    CollapseHead(a + w + b);
    CollapseHead(a);
    Regroup4([a[0]], CollapseSpaces(a[1..]), CollapseSpaces(b));
  }

  lemma TailAppend(a: string, c: string)
    requires a != []
    ensures (a + c)[1..] == a[1..] + c
  {
  }

  lemma Regroup4(x: string, y: string, z: string)
    ensures x + (y + " " + z) == x + y + " " + z
  {
  }

  /** One unfolding of the collapse. */
  lemma CollapseHead(s: string)
    requires s != []
    ensures IsSpace(s[0]) ==> CollapseSpaces(s) == " " + CollapseSpaces(StripLeft(s))
    ensures !IsSpace(s[0]) ==> CollapseSpaces(s) == [s[0]] + CollapseSpaces(s[1..])
  {
  }

  /** One character before text keeps single plain spaces when it is not a second space. */
  lemma ConsPlain(c: char, t: string)
    requires NoDoubleSpace(t) && PlainSpaces(t)
    requires IsSpace(c) ==> c == ' '
    requires c == ' ' && t != [] ==> t[0] != ' '
    ensures NoDoubleSpace([c] + t) && PlainSpaces([c] + t)
  {
    var r := [c] + t;
    assert forall k :: 1 <= k < |r| ==> r[k] == t[k - 1];
  }

  /** The collapsed text has no two spaces in a row and no white space but the space. */
  lemma {:induction false} CollapsePlain(s: string)
    ensures NoDoubleSpace(CollapseSpaces(s)) && PlainSpaces(CollapseSpaces(s))
    decreases |s|
  {
    if s != [] {
      if IsSpace(s[0]) {
        var t := StripLeft(s);
        CollapsePlain(t);
        ConsPlain(' ', CollapseSpaces(t));
      } else {
        CollapsePlain(s[1..]);
        ConsPlain(s[0], CollapseSpaces(s[1..]));
      }
    }
  }

  lemma ConsAllowed(c: char, t: string)
    requires Allowed(c) && AllAllowed(t)
    ensures AllAllowed([c] + t)
  {
    var r := [c] + t;
    assert forall k :: 1 <= k < |r| ==> r[k] == t[k - 1];
  }

  /** Collapsing brings in only the space, so the allowed alphabet is kept. */
  lemma {:induction false} CollapseAllowed(s: string)
    requires AllAllowed(s)
    ensures AllAllowed(CollapseSpaces(s))
    decreases |s|
  {
    if s != [] {
      var t := if IsSpace(s[0]) then StripLeft(s) else s[1..];
      SliceKeeps(s, |s| - |t|, |s|);
      CollapseAllowed(t);
      ConsAllowed(if IsSpace(s[0]) then ' ' else s[0], CollapseSpaces(t));
    }
  }

  /** The collapsed text ends with a space exactly when the text ends with white space,
      and otherwise with the same character. */
  lemma {:induction false} CollapseLast(s: string)
    requires s != []
    ensures CollapseSpaces(s)[|CollapseSpaces(s)| - 1] == if IsSpace(s[|s| - 1]) then ' ' else s[|s| - 1]
    decreases |s|
  {
    var r := CollapseSpaces(s);
    if IsSpace(s[0]) {
      var t := StripLeft(s);
      if t == [] {
        assert s[..|s|] == s;
      } else {
        CollapseLast(t);
        assert t[|t| - 1] == s[|s| - 1];
      }
    } else if |s| > 1 {
      CollapseLast(s[1..]);
    }
  }

  /** Text as `_prep_text` leaves it: only `A-Z0-9+` and single inner spaces. */
  predicate IsNormalized(t: string)
  {
    && AllAllowed(t)
    && NoDoubleSpace(t)
    && (t != [] ==> t[0] != ' ' && t[|t| - 1] != ' ')
  }

  /** The replace, collapse and strip steps. */
  function Clean(s: string): string
  {
    Strip(CollapseSpaces(ReplaceDisallowed(s)))
  }

  /** The whole per-row normalisation of `_prep_text`. */
  function Normalize(s: string): string
  {
    Clean(UpperAscii(StripAccents(s)))
  }

  /** A slice of text keeps the allowed alphabet, the single spaces and the plain spaces. */
  lemma SliceKeeps(s: string, a: nat, b: nat)
    requires a <= b <= |s|
    ensures AllAllowed(s) ==> AllAllowed(s[a..b])
    ensures NoDoubleSpace(s) ==> NoDoubleSpace(s[a..b])
    ensures PlainSpaces(s) ==> PlainSpaces(s[a..b])
  {
    var t := s[a..b];
    assert forall k :: 0 <= k < |t| ==> t[k] == s[a + k];
  }

  /** Stripping text with the allowed alphabet and single spaces leaves it normalised. */
  lemma StripShape(c: string)
    requires AllAllowed(c) && NoDoubleSpace(c)
    ensures IsNormalized(Strip(c))
  {
    var l := StripLeft(c);
    SliceKeeps(c, |c| - |l|, |c|);
    var r := StripRight(l);
    SliceKeeps(l, 0, |r|);
    assert Strip(c) == r;
    assert IsSpace(' ');
  }

  /** The characters of s that survive the replace step other than the space:
      `A-Z`, `0-9` and `+`, in order. */
  function Kept(s: string): string
  {
    if s == [] then [] else (if Allowed(s[0]) && !IsSpace(s[0]) then [s[0]] else []) + Kept(s[1..])
  }

  /** The replace step turns every other character into a space, so the non-space
      characters left are exactly the kept ones. */
  lemma {:induction false} ReplaceKeeps(s: string)
    ensures NonSpace(ReplaceDisallowed(s)) == Kept(s)
  {
    if s != [] {
      var r := ReplaceDisallowed(s);
      assert r == [r[0]] + ReplaceDisallowed(s[1..]);
      NonSpaceAppend([r[0]], ReplaceDisallowed(s[1..]));
      ReplaceKeeps(s[1..]);
      assert IsSpace(' ');
    }
  }

  /** Whatever the cells held, the replace, collapse and strip steps leave text of the
      normalised shape whose letters, digits and '+' are those of the input, in order. */
  lemma CleanShape(s: string)
    ensures IsNormalized(Clean(s))
    ensures NonSpace(Clean(s)) == Kept(s)
  {
    var c := CollapseSpaces(ReplaceDisallowed(s));
    CollapsePlain(ReplaceDisallowed(s));
    CollapseAllowed(ReplaceDisallowed(s));
    StripShape(c);
    StripKeeps(c);
    ReplaceKeeps(s);
  }

  /** Text with single plain spaces is its own collapse. */
  lemma {:induction false} CollapseNormalized(t: string)
    requires NoDoubleSpace(t) && PlainSpaces(t)
    ensures CollapseSpaces(t) == t
    decreases |t|
  {
    if t != [] {
      var rest := t[1..];
      SliceKeeps(t, 1, |t|);
      CollapseNormalized(rest);
      if IsSpace(t[0]) {
        if rest != [] {
          assert t[1] == rest[0] && t[0] == ' ';
          assert !IsSpace(t[1]);
        }
        StripLeftOne(t);
      }
    }
  }

  /** Text already in normalised shape is left unchanged by the replace, collapse and
      strip steps. */
  lemma CleanFixpoint(t: string)
    requires IsNormalized(t)
    ensures Clean(t) == t
  {
    assert ReplaceDisallowed(t) == t;
    assert PlainSpaces(t);
    CollapseNormalized(t);
    StripLeftNone(t);
    StripRightNone(t);
  }

  /** Upper-casing and accent folding are identities on normalised text. */
  lemma NormalizedIsPlain(t: string)
    requires IsNormalized(t)
    ensures StripAccents(t) == t && UpperAscii(t) == t
  {
    assert forall k :: 0 <= k < |t| ==> Allowed(t[k]);
    assert AllAscii(t);
    assert forall k :: 0 <= k < |t| ==> UpperAscii(t)[k] == t[k];
  }

  /** Every row text `_prep_text` produces is normalised, re-running the replace,
      collapse and strip steps on it changes nothing, and so does normalising it again;
      its letters, digits and '+' are those of the folded, upper-cased input, in order. */
  lemma NormalizeSpec(s: string)
    ensures IsNormalized(Normalize(s))
    ensures Clean(Normalize(s)) == Normalize(s)
    ensures Normalize(Normalize(s)) == Normalize(s)
    ensures NonSpace(Normalize(s)) == Kept(UpperAscii(StripAccents(s)))
  {
    var t := Normalize(s);
    CleanShape(UpperAscii(StripAccents(s)));
    CleanFixpoint(t);
    NormalizedIsPlain(t);
  }

  /** Which source columns a call names: `isinstance(cols_fuente, str)` wraps one name. */
  datatype ColumnSpec = One(name: string) | Many(names: seq<string>)

  function Requested(spec: ColumnSpec): seq<string>
  {
    match spec
    case One(n) => [n]
    case Many(ns) => ns
  }

  /** `[c for c in cols_fuente if c in df.columns]`. */
  function Present(names: seq<string>, cols: map<string, seq<Cell>>): (r: seq<string>)
    ensures |r| <= |names|
    ensures forall n :: n in r <==> n in names && n in cols
  {
    if names == [] then []
    else if names[0] in cols then [names[0]] + Present(names[1..], cols)
    else Present(names[1..], cols)
  }

  /** The cells of one row in the chosen columns, rendered by `astype(str)`. */
  function RowCells(cols: map<string, seq<Cell>>, height: nat, names: seq<string>, row: nat): (r: seq<string>)
    requires forall n :: n in names ==> n in cols && |cols[n]| == height
    requires row < height
    ensures |r| == |names|
    ensures forall j :: 0 <= j < |names| ==> r[j] == AsText(cols[names[j]][row])
  {
    seq(|names|, j requires 0 <= j < |names| => AsText(cols[names[j]][row]))
  }

  /** The normalised text of one row. */
  function RowText(cols: map<string, seq<Cell>>, height: nat, names: seq<string>, row: nat): (r: string)
    requires forall n :: n in names ==> n in cols && |cols[n]| == height
    requires row < height
    ensures IsNormalized(r)
  {
    NormalizeSpec(Join(" ", RowCells(cols, height, names, row)));
    Normalize(Join(" ", RowCells(cols, height, names, row)))
  }

  /** The normalised text of every row, over columns that all exist. */
  function RowTexts(cols: map<string, seq<Cell>>, height: nat, names: seq<string>): (r: seq<string>)
    requires forall n :: n in names ==> n in cols && |cols[n]| == height
    ensures |r| == height
    ensures forall i :: 0 <= i < height ==> r[i] == Normalize(Join(" ", RowCells(cols, height, names, i)))
    ensures forall i :: 0 <= i < height ==> IsNormalized(r[i])
  {
    seq(height, i requires 0 <= i < height => RowText(cols, height, names, i))
  }

  /** `_prep_text(df, cols_fuente)`, on the frame's columns. */
  function PrepText(cols: map<string, seq<Cell>>, height: nat, spec: ColumnSpec): (r: Result<seq<string>>)
    requires forall n :: n in cols ==> |cols[n]| == height
    ensures r.Err? <==> Present(Requested(spec), cols) == []
    ensures r.Err? ==> r.error.ValueError?
    ensures r.Ok? ==> |r.value| == height
    ensures r.Ok? ==> forall i :: 0 <= i < height ==> IsNormalized(r.value[i])
  {
    var names := Present(Requested(spec), cols);
    if names == [] then Err(ValueError("Ninguna de las columnas fuente existe en el DataFrame."))
    else Ok(RowTexts(cols, height, names))
  }

  /** Naming one column is the same as naming a list holding only it, and names that
      are not columns of the frame are dropped without changing the text. */
  lemma PrepTextSpec(cols: map<string, seq<Cell>>, height: nat, n: string, names: seq<string>)
    requires forall c :: c in cols ==> |cols[c]| == height
    ensures PrepText(cols, height, One(n)) == PrepText(cols, height, Many([n]))
    ensures n !in cols ==> PrepText(cols, height, Many([n] + names)) == PrepText(cols, height, Many(names))
  {
    if n !in cols {
      assert ([n] + names)[1..] == names;
    }
  }

  /** Each row's text is the normalised, space-joined rendering of its cells. */
  lemma PrepTextRow(cols: map<string, seq<Cell>>, height: nat, spec: ColumnSpec, i: nat)
    requires forall c :: c in cols ==> |cols[c]| == height
    requires i < height && Present(Requested(spec), cols) != []
    ensures PrepText(cols, height, spec).Ok?
    ensures PrepText(cols, height, spec).value[i]
         == Normalize(Join(" ", RowCells(cols, height, Present(Requested(spec), cols), i)))
  {
  }

  /** Plain upper-case ASCII text that is already normalised is its own normal form. */
  lemma NormalizeUpper(s: string)
    requires AllAscii(s) && IsNormalized(UpperAscii(s))
    ensures Normalize(s) == UpperAscii(s)
  {
    CleanFixpoint(UpperAscii(s));
  }

  lemma NoneToken()
    ensures Normalize("None") == "NONE"
  {
    var u := UpperAscii("None");
    assert u[0] == 'N' && u[1] == 'O' && u[2] == 'N' && u[3] == 'E';
    assert u == "NONE";
    NormalizeUpper("None");
  }

  lemma NanToken()
    ensures Normalize("nan") == "NAN"
  {
    var u := UpperAscii("nan");
    assert u[0] == 'N' && u[1] == 'A' && u[2] == 'N';
    assert u == "NAN";
    NormalizeUpper("nan");
  }

  lemma NaReplaced()
    ensures ReplaceDisallowed(UpperAscii(StripAccents("<NA>"))) == " NA "
  {
    assert AllAscii("<NA>");
    var u := UpperAscii("<NA>");
    assert u[0] == '<' && u[1] == 'N' && u[2] == 'A' && u[3] == '>';
    assert u == "<NA>";
    var t := ReplaceDisallowed(u);
    assert t[0] == ' ' && t[1] == 'N' && t[2] == 'A' && t[3] == ' ';
  }

  lemma NaCollapsed()
    ensures CollapseSpaces(" NA ") == " NA "
  {
    var t := " NA ";
    assert t[1..] == "NA ";
    StripLeftOne(t);
    CollapseNormalized("NA ");
  }

  lemma NaStripped()
    ensures Strip(" NA ") == "NA"
  {
    var c := " NA ";
    assert c[1..] == "NA ";
    StripLeftOne(c);
    assert "NA "[..2] == "NA";
    StripRightOne("NA ");
  }

  lemma NaToken()
    ensures Normalize("<NA>") == "NA"
  {
    NaReplaced();
    NaCollapsed();
    NaStripped();
  }

  /** A missing cell is rendered before joining, so it contributes a token rather than
      nothing: `None` gives "NONE", NaN gives "NAN" and `pd.NA` gives "NA". */
  lemma MissingCellsAreTokens()
    ensures Normalize(AsText(Missing(NoneValue))) == "NONE"
    ensures Normalize(AsText(Missing(NaN))) == "NAN"
    ensures Normalize(AsText(Missing(NA))) == "NA"
  {
    NoneToken();
    NanToken();
    NaToken();
  }
}
