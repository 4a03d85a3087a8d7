/** `Paciente._to_camel_case` of the patients' routes: every key of a dict is split at
    '_' and rebuilt as its first piece followed by `str.title()` of each later piece. */
module CamelCase {
  import opened Prelude
  import opened Values

  /** `str.title()` from a position whose previous character was (prev) or was not a
      letter: a letter after a letter is lowered, any other letter raised. Case exists
      only for the ASCII letters here. */
  function TitleFrom(s: string, prev: bool): (r: string)
    ensures |r| == |s|
    ensures |s| > 0 ==> r[0] == if prev then LowerChar(s[0]) else UpperChar(s[0])
    ensures forall k :: 0 < k < |s| ==> r[k] == if IsLetter(s[k - 1]) then LowerChar(s[k]) else UpperChar(s[k])
    decreases |s|
  {
    if s == [] then []
    else [if prev then LowerChar(s[0]) else UpperChar(s[0])] + TitleFrom(s[1..], IsLetter(s[0]))
  }

  function Title(s: string): (r: string)
    ensures |r| == |s|
    ensures |s| > 0 ==> r[0] == UpperChar(s[0])
    ensures forall k :: 0 < k < |s| ==> r[k] == if IsLetter(s[k - 1]) then LowerChar(s[k]) else UpperChar(s[k])
  {
    TitleFrom(s, false)
  }

  /** Changing case keeps letters letters and everything else as it is. */
  lemma CaseKeepsKind(c: char)
    ensures IsLetter(UpperChar(c)) <==> IsLetter(c)
    ensures IsLetter(LowerChar(c)) <==> IsLetter(c)
    ensures !IsLetter(c) ==> UpperChar(c) == c && LowerChar(c) == c
    ensures LowerChar(UpperChar(c)) == LowerChar(c) && UpperChar(LowerChar(c)) == UpperChar(c)
    ensures UpperChar(UpperChar(c)) == UpperChar(c) && LowerChar(LowerChar(c)) == LowerChar(c)
  {
  }

  /** Title-casing twice is title-casing once. */
  lemma TitleIdempotent(s: string)
    ensures Title(Title(s)) == Title(s)
  {
    var t := Title(s);
    forall k | 0 <= k < |s| ensures Title(t)[k] == t[k] {
      CaseKeepsKind(s[k]);
      if k > 0 {
        CaseKeepsKind(s[k - 1]);
        if k == 1 {
          assert t[0] == UpperChar(s[0]);
        } else {
          assert t[k - 1] == if IsLetter(s[k - 2]) then LowerChar(s[k - 1]) else UpperChar(s[k - 1]);
        }
        assert IsLetter(t[k - 1]) <==> IsLetter(s[k - 1]);
      }
    }
  }

  /** Title-casing never produces an underscore from another character. */
  lemma TitleNoUnderscore(s: string)
    requires '_' !in s
    ensures '_' !in Title(s)
  {
    forall k | 0 <= k < |s| ensures Title(s)[k] != '_' {
      assert s[k] != '_';
      CaseKeepsKind(s[k]);
      if k == 0 {
        assert Title(s)[0] == UpperChar(s[0]);
      } else {
        assert Title(s)[k] == if IsLetter(s[k - 1]) then LowerChar(s[k]) else UpperChar(s[k]);
      }
    }
  }

  /** The later pieces, each title-cased, one after the other. */
  function TitledTail(parts: seq<string>): string
  {
    if parts == [] then [] else Title(parts[0]) + TitledTail(parts[1..])
  }

  /** The camelCase form of one key. */
  function CamelKey(key: string): string
  {
    var parts := Split(key, '_');
    parts[0] + TitledTail(parts[1..])
  }

  /** No converted key contains an underscore. */
  lemma CamelKeyNoUnderscore(key: string)
    ensures '_' !in CamelKey(key)
  {
    var parts := Split(key, '_');
    TailNoUnderscore(parts[1..]);
  }

  lemma {:induction false} TailNoUnderscore(parts: seq<string>)
    requires forall k :: 0 <= k < |parts| ==> '_' !in parts[k]
    ensures '_' !in TitledTail(parts)
    decreases |parts|
  {
    if parts != [] {
      TitleNoUnderscore(parts[0]);
      TailNoUnderscore(parts[1..]);
    }
  }

  /** A key without underscores is kept as it is. */
  lemma CamelKeyPlain(key: string)
    requires '_' !in key
    ensures CamelKey(key) == key
  {
    SplitJoin([key], '_');
    assert Join("_", [key]) == key;
  }

  /** A key `a_b` with plain pieces becomes a followed by b title-cased. */
  lemma CamelKeyTwo(key: string, a: string, b: string)
    requires key == a + "_" + b && '_' !in a && '_' !in b
    ensures CamelKey(key) == a + Title(b)
  {
    SplitJoin([a, b], '_');
    assert Join("_", [a, b]) == key;
    assert TitledTail([b]) == Title(b) + [];
    assert Title(b) + [] == Title(b);
  }

  /** A key that splits into exactly `parts` becomes its first piece and the title-cased
      rest ('a__b' splits into 'a', '' and 'b', so the doubled underscore vanishes). */
  lemma CamelKeyOfParts(key: string, parts: seq<string>)
    requires |parts| > 0 && forall k :: 0 <= k < |parts| ==> '_' !in parts[k]
    requires key == Join("_", parts)
    ensures CamelKey(key) == parts[0] + TitledTail(parts[1..])
  {
    SplitJoin(parts, '_');
  }

  /** `_to_camel_case(data)`: the entries go in order into a fresh dict under their
      converted keys, so a later entry whose key converts to the same text overwrites
      the value but keeps the place of the first. */
  function CamelDict(d: Entries): Entries
    decreases |d|
  {
    if d == [] then []
    else Set(CamelDict(d[..|d| - 1]), CamelKey(d[|d| - 1].0), d[|d| - 1].1)
  }

  /** The converted dict has distinct keys, none with an underscore, one for each distinct
      converted input key; reading a key gives the value of the last entry converting
      to it. */
  lemma {:induction false} CamelDictSpec(d: Entries)
    ensures DistinctKeys(CamelDict(d))
    ensures forall key :: Get(CamelDict(d), key) == LastMapped(d, CamelKey, key)
    ensures forall j :: 0 <= j < |CamelDict(d)| ==> '_' !in CamelDict(d)[j].0
    decreases |d|
  {
    if d != [] {
      var init := d[..|d| - 1];
      var last := d[|d| - 1];
      CamelDictSpec(init);
      var c := CamelDict(init);
      SetSpec(c, CamelKey(last.0), last.1);
      CamelKeyNoUnderscore(last.0);
      CamelStepPlain(c, CamelKey(last.0), last.1);
    }
  }

  /** Assigning a key without an underscore keeps the dict free of underscores. */
  lemma CamelStepPlain(c: Entries, key: string, v: Value)
    requires forall j :: 0 <= j < |c| ==> '_' !in c[j].0
    requires '_' !in key
    ensures forall j :: 0 <= j < |Set(c, key, v)| ==> '_' !in Set(c, key, v)[j].0
  {
    var r := Set(c, key, v);
    SetKeys(c, key, v);
    forall j | 0 <= j < |r| ensures '_' !in r[j].0 {
      assert r[j].0 == Keys(r)[j];
      if j < |c| {
        assert Keys(c)[j] == c[j].0;
      }
    }
  }

  /** When no two keys convert to the same text, every entry is kept, in order, under its
      converted key. */
  lemma {:induction false} CamelDictNoCollision(d: Entries)
    requires forall a, b :: 0 <= a < b < |d| ==> CamelKey(d[a].0) != CamelKey(d[b].0)
    ensures |CamelDict(d)| == |d|
    ensures forall j :: 0 <= j < |d| ==> CamelDict(d)[j] == (CamelKey(d[j].0), d[j].1)
    decreases |d|
  {
    if d != [] {
      var init := d[..|d| - 1];
      var last := d[|d| - 1];
      assert forall a, b :: 0 <= a < b < |init| ==> CamelKey(init[a].0) != CamelKey(init[b].0) by {
        forall a, b | 0 <= a < b < |init| ensures CamelKey(init[a].0) != CamelKey(init[b].0) {
          assert init[a] == d[a] && init[b] == d[b];
        }
      }
      CamelDictNoCollision(init);
      var c := CamelDict(init);
      CamelStepAppends(d, c, CamelKey(last.0), last.1);
    }
  }

  /** One more entry whose converted key is new goes at the end. */
  lemma CamelStepAppends(d: Entries, c: Entries, key: string, v: Value)
    requires d != [] && key == CamelKey(d[|d| - 1].0) && v == d[|d| - 1].1
    requires forall a :: 0 <= a < |d| - 1 ==> CamelKey(d[a].0) != key
    requires |c| == |d| - 1
    requires forall j :: 0 <= j < |c| ==> c[j] == (CamelKey(d[j].0), d[j].1)
    ensures |Set(c, key, v)| == |d|
    ensures forall j :: 0 <= j < |d| ==> Set(c, key, v)[j] == (CamelKey(d[j].0), d[j].1)
  {
    assert key !in Keys(c) by {
      forall j | 0 <= j < |c| ensures Keys(c)[j] != key {
        assert c[j].0 == CamelKey(d[j].0);
      }
    }
    SetAppends(c, key, v);
  }

  /** The example of the docstring, and the two ways keys lose information. */
  lemma NombreCompleto(key: string)
    requires key == "nombre_completo"
    ensures CamelKey(key) == "nombreCompleto"
  {
    var b := key[7..];
    assert key == "nombre" + "_" + b;
    CamelKeyTwo(key, "nombre", b);
    TitleLowerTail(b);
    assert UpperChar(b[0]) == 'C';
  }

  lemma InnerCapitalsLowered(key: string)
    requires key == "id_DNI"
    ensures CamelKey(key) == "idDni"
  {
    CamelKeyTwo(key, "id", "DNI");
    TitleOf("DNI");
  }

  lemma DoubledUnderscore(key: string)
    requires key == "a__b"
    ensures CamelKey(key) == "aB"
  {
    CamelKeyOfParts(key, ["a", "", "b"]);
    assert TitledTail(["", "b"]) == Title("") + TitledTail(["b"]);
    assert TitledTail(["b"]) == Title("b") + TitledTail([]);
  }

  /** On a word of letters, `title()` raises the first and lowers the rest. */
  lemma TitleOf(w: string)
    requires |w| > 0 && forall k :: 0 <= k < |w| ==> IsLetter(w[k])
    ensures Title(w) == [UpperChar(w[0])] + seq(|w| - 1, k requires 0 <= k < |w| - 1 => LowerChar(w[k + 1]))
  {
    var r := [UpperChar(w[0])] + seq(|w| - 1, k requires 0 <= k < |w| - 1 => LowerChar(w[k + 1]));
    forall k | 0 < k < |w| ensures Title(w)[k] == r[k] {
      assert IsLetter(w[k - 1]);
    }
  }

  /** A word of lower-case letters is title-cased by raising its first letter. */
  lemma TitleLowerTail(w: string)
    requires |w| > 0 && forall k :: 0 <= k < |w| ==> IsLower(w[k])
    ensures Title(w) == [UpperChar(w[0])] + w[1..]
  {
    var r := [UpperChar(w[0])] + w[1..];
    forall k | 0 < k < |w| ensures Title(w)[k] == r[k] {
      assert IsLetter(w[k - 1]);
    }
  }
  /** The converse reading: every capital letter becomes '_' and its lower-case form. */
  function SnakeCase(s: string): string
    decreases |s|
  {
    if s == [] then [] else (if IsUpper(s[0]) then ['_', LowerChar(s[0])] else [s[0]]) + SnakeCase(s[1..])
  }

  lemma {:induction false} SnakeConcat(a: string, b: string)
    ensures SnakeCase(a + b) == SnakeCase(a) + SnakeCase(b)
    decreases |a|
  {
    if a != [] {
      assert (a + b)[1..] == a[1..] + b;
      SnakeConcat(a[1..], b);
    } else {
      assert a + b == b;
    }
  }

  /** A non-empty run of lower-case letters. */
  predicate Word(w: string)
  {
    |w| > 0 && forall k :: 0 <= k < |w| ==> IsLower(w[k])
  }

  /** A snake_case key: lower-case words joined by single underscores. */
  predicate IsSnake(key: string)
  {
    var parts := Split(key, '_');
    forall k :: 0 <= k < |parts| ==> Word(parts[k])
  }

  lemma SnakeOne(w: string)
    requires Word(w)
    ensures IsSnake(w)
  {
    SplitJoin([w], '_');
    assert Join("_", [w]) == w;
  }

  lemma SnakeTwo(a: string, b: string)
    requires Word(a) && Word(b)
    ensures IsSnake(a + "_" + b)
  {
    SplitJoin([a, b], '_');
    assert Join("_", [a, b]) == a + "_" + b;
  }

  lemma {:induction false} SnakeOfLower(w: string)
    requires forall k :: 0 <= k < |w| ==> IsLower(w[k])
    ensures SnakeCase(w) == w
    decreases |w|
  {
    if w != [] {
      SnakeOfLower(w[1..]);
    }
  }

  /** Each piece with an underscore in front, one after the other. */
  function Underscored(parts: seq<string>): string
  {
    if parts == [] then [] else "_" + parts[0] + Underscored(parts[1..])
  }

  lemma {:induction false} SnakeOfTail(parts: seq<string>)
    requires forall k :: 0 <= k < |parts| ==> Word(parts[k])
    ensures SnakeCase(TitledTail(parts)) == Underscored(parts)
    decreases |parts|
  {
    if parts != [] {
      SnakeOfTitle(parts[0]);
      SnakeConcat(Title(parts[0]), TitledTail(parts[1..]));
      SnakeOfTail(parts[1..]);
    }
  }

  /** A title-cased word reads back as '_' and the word. */
  lemma SnakeOfTitle(w: string)
    requires Word(w)
    ensures SnakeCase(Title(w)) == "_" + w
  {
    SnakeOfTitleParts(w);
    UnderscoreCons(w);
  }

  lemma SnakeOfTitleParts(w: string)
    requires Word(w)
    ensures SnakeCase(Title(w)) == ['_', w[0]] + w[1..]
  {
    var u, t := UpperChar(w[0]), w[1..];
    assert forall k :: 0 <= k < |t| ==> IsLower(t[k]);
    TitleLowerTail(w);
    assert Title(w) == [u] + t;
    SnakeConcat([u], t);
    SnakeOfLower(t);
    SnakeOfUpper(w[0]);
  }

  lemma UnderscoreCons(w: string)
    requires |w| > 0
    ensures ['_', w[0]] + w[1..] == "_" + w
  {
    assert w == [w[0]] + w[1..];
  }

  lemma SnakeOfUpper(c: char)
    requires IsLower(c)
    ensures SnakeCase([UpperChar(c)]) == ['_', c]
  {
    var u := UpperChar(c);
    assert LowerChar(u) == c;
    assert [u][1..] == [];
  }

  lemma {:induction false} JoinUnderscored(parts: seq<string>)
    requires |parts| > 0
    ensures Join("_", parts) == parts[0] + Underscored(parts[1..])
    decreases |parts|
  {
    if |parts| > 1 {
      JoinUnderscored(parts[1..]);
      assert parts[1..][1..] == parts[2..];
    }
  }

  /** SnakeCase undoes the conversion of a snake_case key. */
  lemma SnakeRoundTrip(key: string)
    requires IsSnake(key)
    ensures SnakeCase(CamelKey(key)) == key
  {
    var parts := Split(key, '_');
    SnakeConcat(parts[0], TitledTail(parts[1..]));
    SnakeOfLower(parts[0]);
    SnakeOfTail(parts[1..]);
    JoinUnderscored(parts);
    JoinSplit(key, '_');
  }

  /** So two snake_case keys never convert to the same text, and a snake_case key converts
      to a key without underscores only if that key reads back as it. */
  lemma CamelInjective(a: string, b: string)
    requires IsSnake(a) && CamelKey(a) == CamelKey(b)
    ensures IsSnake(b) ==> a == b
    ensures '_' !in b ==> a == SnakeCase(b)
  {
    SnakeRoundTrip(a);
    if IsSnake(b) {
      SnakeRoundTrip(b);
    }
    if '_' !in b {
      CamelKeyPlain(b);
    }
  }

  /** No two keys of `d` convert to the same text. */
  predicate NoCollision(d: Entries)
  {
    forall a, b :: 0 <= a < b < |d| ==> CamelKey(d[a].0) != CamelKey(d[b].0)
  }

  /** Without collisions, each value is read back under its key's converted form. */
  lemma CamelDictGet(d: Entries, j: nat)
    requires NoCollision(d) && j < |d|
    ensures Get(CamelDict(d), CamelKey(d[j].0)) == Some(d[j].1)
  {
    CamelDictSpec(d);
    CamelDictNoCollision(d);
    GetEntry(CamelDict(d), j);
  }
  /** Keys that are snake_case, or are free of underscores and do not read back as another
      key of the dict, never collide. */
  lemma NoCollisionOf(d: Entries)
    requires DistinctKeys(d)
    requires forall j :: 0 <= j < |d| ==> IsSnake(d[j].0) || ('_' !in d[j].0 && SnakeCase(d[j].0) !in Keys(d))
    ensures NoCollision(d)
  {
    forall a, b | 0 <= a < b < |d| ensures CamelKey(d[a].0) != CamelKey(d[b].0) {
      var ka, kb := d[a].0, d[b].0;
      assert Keys(d)[a] == ka && Keys(d)[b] == kb;
      if IsSnake(ka) {
        SnakeRoundTrip(ka);
      } else {
        CamelKeyPlain(ka);
      }
      if IsSnake(kb) {
        SnakeRoundTrip(kb);
      } else {
        CamelKeyPlain(kb);
      }
    }
  }

  /** A key with one underscore between two lower-case words is snake_case. */
  lemma SnakeAt(key: string, i: nat)
    requires 0 < i < |key| && key[i] == '_' && Word(key[..i]) && Word(key[i + 1..])
    ensures IsSnake(key)
  {
    SnakeTwo(key[..i], key[i + 1..]);
    assert key == key[..i] + "_" + key[i + 1..];
  }
  /** A dict whose keys are distinct and snake_case keeps every entry, in order, under its
      converted key, and SnakeCase gives each original key back. */
  lemma CamelDictSnake(d: Entries)
    requires DistinctKeys(d)
    requires forall j :: 0 <= j < |d| ==> IsSnake(d[j].0)
    ensures |CamelDict(d)| == |d|
    ensures forall j :: 0 <= j < |d| ==> CamelDict(d)[j] == (CamelKey(d[j].0), d[j].1)
    ensures forall j :: 0 <= j < |d| ==> SnakeCase(CamelDict(d)[j].0) == d[j].0
  {
    NoCollisionOf(d);
    CamelDictNoCollision(d);
    forall j | 0 <= j < |d| ensures SnakeCase(CamelKey(d[j].0)) == d[j].0 {
      SnakeRoundTrip(d[j].0);
    }
  }
}
