/** The fragment of Python's `re` that the brand and catalogue patterns use,
    as a small pattern language with the search semantics of `re.search`
    (which is what `Series.str.contains(pat, regex=True)` asks). An
    alternation such as `\b(?:A|B)\b` is written as a sequence of branches,
    `\bA\b` and `\bB\b`; for a search this is the same language. */
module Regex {
  import opened Prelude

  datatype Atom =
    | Lit(c: char)        // a literal character
    | Opt(c: char)        // `c?`
    | Class(cs: string)   // `[...]`, or a group of single-character alternatives
    | Space               // `\s`
    | OptSpace            // `\s?`
    | Spaces              // `\s*`
    | Bound               // `\b`

  type Pattern = seq<Atom>

  /** `\b` at position i: the characters on either side differ in being word characters. */
  predicate IsBoundary(s: string, i: nat)
    requires i <= |s|
  {
    (i > 0 && IsWordChar(s[i - 1])) != (i < |s| && IsWordChar(s[i]))
  }

  /** p can match some prefix of s[i..] (backtracking explores every choice). */
  predicate MatchFrom(p: Pattern, s: string, i: nat)
    requires i <= |s|
    decreases |p|, |s| - i
  {
    if p == [] then true
    else match p[0]
      case Lit(c) => i < |s| && s[i] == c && MatchFrom(p[1..], s, i + 1)
      case Opt(c) => (i < |s| && s[i] == c && MatchFrom(p[1..], s, i + 1)) || MatchFrom(p[1..], s, i)
      case Class(cs) => i < |s| && s[i] in cs && MatchFrom(p[1..], s, i + 1)
      case Space => i < |s| && IsSpace(s[i]) && MatchFrom(p[1..], s, i + 1)
      case OptSpace => (i < |s| && IsSpace(s[i]) && MatchFrom(p[1..], s, i + 1)) || MatchFrom(p[1..], s, i)
      case Spaces => MatchFrom(p[1..], s, i) || (i < |s| && IsSpace(s[i]) && MatchFrom(p, s, i + 1))
      case Bound => IsBoundary(s, i) && MatchFrom(p[1..], s, i)
  }

  /** `re.search(p, s) is not None`. */
  predicate Search(p: Pattern, s: string)
  {
    exists i :: 0 <= i <= |s| && MatchFrom(p, s, i)
  }

  /** A pattern given as alternatives matches when one of them does. */
  predicate SearchAny(branches: seq<Pattern>, s: string)
  {
    exists b :: b in branches && Search(b, s)
  }

  /** The literal characters of w, in order. */
  function Lits(w: string): (p: Pattern)
    ensures |p| == |w|
    ensures forall k :: 0 <= k < |w| ==> p[k] == Lit(w[k])
  {
    seq(|w|, k requires 0 <= k < |w| => Lit(w[k]))
  }

  /** `\bw\b`. */
  function Word(w: string): Pattern
  {
    [Bound] + Lits(w) + [Bound]
  }

  predicate IsToken(w: string)
  {
    |w| > 0 && forall k :: 0 <= k < |w| ==> IsWordChar(w[k])
  }

  /** w occurs in s at i. */
  predicate At(s: string, i: nat, w: string)
  {
    i + |w| <= |s| && s[i..i + |w|] == w
  }

  /** The end of the longest run of characters satisfying inRun that starts at i: where
      a greedy `[...]*` or `\s*` stops. */
  function RunEnd(s: string, i: nat, inRun: char -> bool): (j: nat)
    requires i <= |s|
    ensures i <= j <= |s|
    ensures forall k :: i <= k < j ==> inRun(s[k])
    ensures j == |s| || !inRun(s[j])
    decreases |s| - i
  {
    if i < |s| && inRun(s[i]) then RunEnd(s, i + 1, inRun) else i
  }

  /** A run that stops where the characters stop satisfying inRun is the longest one. */
  lemma RunEndUnique(s: string, i: nat, j: nat, inRun: char -> bool)
    requires i <= j <= |s|
    requires forall k :: i <= k < j ==> inRun(s[k])
    requires j == |s| || !inRun(s[j])
    ensures j == RunEnd(s, i, inRun)
  {
  }

  /** A run stops before a character outside it. */
  lemma {:induction false} RunEndBefore(s: string, i: nat, n: nat, inRun: char -> bool)
    requires i < n <= |s| && !inRun(s[n - 1])
    ensures RunEnd(s, i, inRun) < n
    decreases |s| - i
  {
    if inRun(s[i]) {
      assert i != n - 1;
      RunEndBefore(s, i + 1, n, inRun);
    }
  }

  /** The upper-case word w occurs in s at j under `(?i)`. */
  predicate AtCI(s: string, j: nat, w: string)
  {
    j + |w| <= |s| && forall k :: 0 <= k < |w| ==> UpperChar(s[j + k]) == w[k]
  }

  /** `re.search` over a recogniser: the leftmost start at or after i where `at` finds a
      match, with what it found there. */
  function Leftmost<R>(s: string, i: nat, at: (string, nat) -> Option<R>): (r: Option<(nat, R)>)
    requires i <= |s|
    ensures r.Some? ==> i <= r.value.0 <= |s| && at(s, r.value.0) == Some(r.value.1)
    ensures r.Some? ==> forall a :: i <= a < r.value.0 ==> at(s, a).None?
    ensures r.None? ==> forall a :: i <= a <= |s| ==> at(s, a).None?
    decreases |s| - i
  {
    match at(s, i)
    case Some(x) => Some((i, x))
    case None => if i == |s| then None else Leftmost(s, i + 1, at)
  }

  /** The search result is the first start where the recogniser succeeds. */
  lemma LeftmostIs<R>(s: string, a: nat, x: R, at: (string, nat) -> Option<R>)
    requires a <= |s| && at(s, a) == Some(x)
    requires forall a' :: 0 <= a' < a ==> at(s, a').None?
    ensures Leftmost(s, 0, at) == Some((a, x))
  {
    assert Leftmost(s, 0, at).Some?;
  }

  /** The leftmost start is the third position when the first two fail. */
  lemma LeftmostThird<R>(s: string, x: R, at: (string, nat) -> Option<R>)
    requires 2 <= |s| && at(s, 0).None? && at(s, 1).None? && at(s, 2) == Some(x)
    ensures Leftmost(s, 0, at) == Some((2, x))
  {
    LeftmostIs(s, 2, x, at);
  }

  /** A run of literals matches exactly the same characters, then the rest goes on. */
  lemma {:induction false} LitsMatch(w: string, rest: Pattern, s: string, i: nat)
    requires i <= |s|
    ensures MatchFrom(Lits(w) + rest, s, i) <==> At(s, i, w) && MatchFrom(rest, s, i + |w|)
    decreases |w|
  {
    if w == [] {
      assert Lits(w) + rest == rest;
    } else {
      var p := Lits(w) + rest;
      assert Lits(w)[1..] == Lits(w[1..]);
      assert p[0] == Lit(w[0]) && p[1..] == Lits(w[1..]) + rest;
      if i < |s| && s[i] == w[0] {
        LitsMatch(w[1..], rest, s, i + 1);
        if At(s, i + 1, w[1..]) {
          assert s[i..i + |w|] == [s[i]] + s[i + 1..i + 1 + |w[1..]|];
        }
        if At(s, i, w) {
          assert s[i + 1..i + 1 + |w[1..]|] == s[i..i + |w|][1..];
        }
      }
    }
  }

  /** `\bw\b` for a token w matches at i exactly when w occurs there between two non-word
      neighbours (or the ends of the text). */
  lemma WordMatch(w: string, s: string, i: nat)
    requires i <= |s| && IsToken(w)
    ensures MatchFrom(Word(w), s, i) <==>
      At(s, i, w) && (i == 0 || !IsWordChar(s[i - 1])) && (i + |w| == |s| || !IsWordChar(s[i + |w|]))
  {
    var p := Word(w);
    assert p[0] == Bound && p[1..] == Lits(w) + [Bound];
    LitsMatch(w, [Bound], s, i);
    assert [Bound][1..] == [];
    if At(s, i, w) {
      assert s[i] == s[i..i + |w|][0] == w[0];
      assert s[i + |w| - 1] == s[i..i + |w|][|w| - 1] == w[|w| - 1];
    }
  }

  /** An atom that always consumes exactly one character. */
  predicate OneChar(a: Atom) { a.Lit? || a.Class? || a.Space? }

  /** Literals followed by one-character atoms consume one character each. */
  lemma OneCharLits(w: string, extra: Pattern)
    requires forall k :: 0 <= k < |extra| ==> OneChar(extra[k])
    ensures forall k :: 0 <= k < |Lits(w) + extra| ==> OneChar((Lits(w) + extra)[k])
  {
  }

  /** A prefix of one-character atoms matches exactly as many characters, then the rest
      of the pattern goes on from there. */
  lemma {:induction false} OneCharPrefix(prefix: Pattern, rest: Pattern, s: string, i: nat)
    requires i <= |s| && forall k :: 0 <= k < |prefix| ==> OneChar(prefix[k])
    requires MatchFrom(prefix + rest, s, i)
    ensures i + |prefix| <= |s| && MatchFrom(rest, s, i + |prefix|)
    decreases |prefix|
  {
    if prefix == [] {
      assert prefix + rest == rest;
    } else {
      var p := prefix + rest;
      assert p[0] == prefix[0] && p[1..] == prefix[1..] + rest;
      OneCharPrefix(prefix[1..], rest, s, i + 1);
    }
  }

  /** w occurs at i in s between two non-word neighbours (or the ends of the text). */
  predicate WholeWordAt(s: string, i: nat, w: string)
  {
    At(s, i, w) && (i == 0 || !IsWordChar(s[i - 1])) && (i + |w| == |s| || !IsWordChar(s[i + |w|]))
  }

  /** `\bw\b` for a token w is found exactly where w occurs as a whole word. */
  lemma WordSearch(w: string, s: string)
    requires IsToken(w)
    ensures Search(Word(w), s) <==> exists i :: 0 <= i <= |s| && WholeWordAt(s, i, w)
  {
    forall i | 0 <= i <= |s|
      ensures MatchFrom(Word(w), s, i) <==> WholeWordAt(s, i, w)
    {
      WordMatch(w, s, i);
    }
  }

  /** Searching is matching at some position. */
  lemma SearchAt(p: Pattern, s: string, i: nat)
    requires i <= |s| && MatchFrom(p, s, i)
    ensures Search(p, s)
  {
  }

  /** A pattern of literals only (no `\b`) is found wherever its text occurs, inside
      a longer token too. */
  lemma LitsFoundInside(w: string, s: string, i: nat)
    requires At(s, i, w)
    ensures Search(Lits(w), s)
  {
    LitsMatch(w, [], s, i);
    assert Lits(w) + [] == Lits(w);
    SearchAt(Lits(w), s, i);
  }

  /** In a text made of one token, `\b` holds only at the two ends. */
  lemma TokenBoundary(w: string, i: nat)
    requires IsToken(w) && i <= |w|
    ensures IsBoundary(w, i) <==> i == 0 || i == |w|
  {
  }

  /** `\bw\b` is found in a one-token text exactly when the text is w. */
  lemma WordInToken(w: string, t: string)
    requires IsToken(w) && IsToken(t)
    ensures Search(Word(w), t) <==> t == w
  {
    if Search(Word(w), t) {
      var i :| 0 <= i <= |t| && MatchFrom(Word(w), t, i);
      WordMatch(w, t, i);
      assert i == 0;
      assert |w| == |t|;
      assert t[0..|w|] == w;
    }
    if t == w {
      WordMatch(w, t, 0);
      assert t[0..|w|] == t;
      SearchAt(Word(w), t, 0);
    }
  }
}
