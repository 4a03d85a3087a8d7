/** `extraer_producto_principal`: the brand named first, in priority order, in the
    normalised text of each row; "OTRO" when no brand pattern matches. */
module Classifier {
  import opened Prelude
  import opened Regex
  import opened Frame
  import opened TextPrep
  import opened FirstMatch

  /** A brand pattern (as its alternatives) and the brand it assigns. */
  type Rule = (seq<Pattern>, string)

  const Default: string := "OTRO"

  /** `\b...\b` around a pattern. */
  function Bounded(p: Pattern): Pattern { [Bound] + p + [Bound] }

  /** `\bw\b` and `\bwc?\b`. */
  function W(w: string): Pattern { Word(w) }
  function WOpt(w: string, c: char): Pattern { Bounded(Lits(w) + [Opt(c)]) }

  /** The 28 patterns of `patrones`, in the order of the list. */
  const Patrones: seq<Rule> := [
    ([W("BOTOX"), W("VISTABEL")], "BOTOX"),
    ([W("DYSPORT"), WOpt("ABOBOTULIN", 'A'), WOpt("ABOBOTOX", 'A'), Bounded(W("ABOBO"))], "DYSPORT"),
    ([W("XEOMIN"), WOpt("INCOBOTULIN", 'A'), WOpt("INCOBOTOX", 'A')], "XEOMIN"),
    ([Bounded([Lit('J'), Class("EI")] + Lits("UVEAU")), WOpt("PRABOTULIN", 'A'), WOpt("PRABOTOX", 'A')], "JEUVEAU"),
    ([W("NABOTA")], "NABOTA"),
    ([W("NEURONOX")], "NEURONOX"),
    ([W("BOTULAX")], "BOTULAX"),
    ([W("REVANESSE TOX"), W("LETYBO")], "LETYBO"),
    ([W("RADIESSE"), W("RADIESE"), W("RADESSE")], "RADIESSE"),
    ([W("SCULPTRA"), W("PLLA")], "SCULPTRA"),
    ([W("ELLANSE"), W("ELLANCE")], "ELLANSE"),
    ([W("HARMONYCA"), Bounded(Lits("HARMON") + [Class("YI")] + Lits("CA")), W("H ARMONYCA"), W("HA RMONYCA")], "HARMONYCA"),
    ([W("JUVEDERM"), Bounded([Lit('J'), Class("UV")] + Lits("EDERM")), W("VOLUMA"), W("VOLIFT"), W("VOLBELLA"),
      W("VOLITE"), W("VOLUX")], "JUVEDERM"),
    ([W("RESTYLANE"), W("LYFT"), W("REFYNE"), W("DEFYNE"), W("KYSSE"),
      Bounded(Lits("SKINBOOSTER") + [Opt('S'), Lit(' ')] + Lits("RESTYLAN") + [Opt('E')])], "RESTYLANE"),
    ([W("BELOTERO"), W("INTENSE"), W("BALANCE"), W("SOFT"), W("VOLUME")], "BELOTERO"),
    ([W("TEOSYAL"), W("TEOXANE"), Bounded(Lits("RHA") + [Opt(' '), Class("1234")])], "TEOSYAL"),
    ([W("STYLAGE")], "STYLAGE"),
    ([W("PRINCESS"), W("SAYPHA"), W("CROMA")], "CROMA/SAYPHA"),
    ([W("REVANESSE"), W("VERSA")], "REVANESSE"),
    ([W("NEAUVIA")], "NEAUVIA"),
    ([W("YVOIRE")], "YVOIRE"),
    ([Bounded(Lits("ALI") + [Opt('A')] + Lits("XIN"))], "ALIAXIN"),
    ([Bounded(Lits("ART") + [Opt(' ')] + Lits("FILLER")), W("ARTFILLER"), W("FILORGA")], "ART FILLER"),
    ([W("PROFHILO")], "PROFHILO"),
    ([W("SUNEKOS")], "SUNEKOS"),
    ([W("NCTF"), W("MESOESTETIC"), Bounded(Lits("MESOESTETIC") + [Opt(' ')] + Lits("NCTF"))], "NCTF"),
    ([Bounded(Lits("PB") + [Opt(' ')] + Lits("SERUM")), W("PBSERUM")], "PB SERUM"),
    ([W("TIZO")], "TIZO")
  ]

  /** `txt.str.contains(pat, regex=True)` for one row. */
  predicate RuleMatches(branches: seq<Pattern>, t: string)
  {
    SearchAny(branches, t)
  }

  /** No brand is the default label, so a row keeps "OTRO" only when nothing matched. */
  lemma BrandsAreNotDefault()
    ensures |Patrones| == 28
    ensures forall j :: 0 <= j < |Patrones| ==> Patrones[j].1 != Default
  {
  }

  /** The brand `extraer_producto_principal` gives one row's text. */
  function Brand(t: string): string
  {
    Fold(Patrones, RuleMatches, t, Default)
  }

  /** A row gets the brand of the first pattern, in list order, that matches its text,
      and "OTRO" exactly when no pattern matches. */
  lemma BrandSpec(t: string)
    ensures Brand(t) == Default <==> NoHit(Patrones, RuleMatches, t)
    ensures forall k :: IsFirstHit(Patrones, RuleMatches, t, k) ==> Brand(t) == Patrones[k].1
  {
    BrandsAreNotDefault();
    FoldFirst(Patrones, RuleMatches, t, Default);
  }

  /** The loop of `extraer_producto_principal` over the row texts: `out` starts as
      "OTRO" everywhere and each pattern, in order, fills the rows it matches that
      still hold "OTRO". */
  method ClassifyRows(txt: seq<string>) returns (out: seq<string>)
    ensures |out| == |txt|
    ensures forall i :: 0 <= i < |txt| ==> out[i] == Brand(txt[i])
    ensures forall i :: 0 <= i < |txt| ==> (out[i] == Default <==> NoHit(Patrones, RuleMatches, txt[i]))
    ensures forall i, k :: 0 <= i < |txt| && IsFirstHit(Patrones, RuleMatches, txt[i], k) ==> out[i] == Patrones[k].1
  {
    out := ApplyRules(Patrones, RuleMatches, txt, Default);
    forall i | 0 <= i < |txt| {
      BrandSpec(txt[i]);
    }
  }

  /** `extraer_producto_principal(df, cols_fuente, col_salida)`: the brand column is
      written (replacing a column of that name) unless no source column exists, in
      which case `_prep_text` raises ValueError and the frame is left as it was. */
  method ExtraerProductoPrincipal(df: DataFrame, spec: ColumnSpec, colSalida: string := "producto_principal")
    returns (status: Result<()>)
    requires df.Valid()
    modifies df
    ensures df.Valid() && df.height == old(df.height)
    ensures status.Err? <==> PrepText(old(df.cols), old(df.height), spec).Err?
    ensures status.Err? ==> status.error.ValueError? && df.cols == old(df.cols) && df.names == old(df.names)
    ensures status.Ok? ==> colSalida in df.cols
    ensures status.Ok? ==> df.cols == old(df.cols)[colSalida := df.cols[colSalida]]
    ensures status.Ok? ==> df.names == if colSalida in old(df.names) then old(df.names) else old(df.names) + [colSalida]
    ensures status.Ok? ==> forall i :: 0 <= i < df.height ==>
      df.cols[colSalida][i] == Text(Brand(PrepText(old(df.cols), old(df.height), spec).value[i]))
  {
    var txt := PrepText(df.cols, df.height, spec);
    if txt.Err? {
      return Err(txt.error);
    }
    var out := ClassifyRows(txt.value);
    var cells := seq(|out|, i requires 0 <= i < |out| => Text(out[i]));
    df.SetColumn(colSalida, cells);
    status := Ok(());
  }

  /** The first pattern already decides: a text that opens with the token BOTOX is
      classified BOTOX whatever brand follows it, so a note naming BOTOX and TIZO is
      BOTOX. */
  lemma BotoxFirst(t: string)
    requires |t| >= 5 && t[..5] == "BOTOX" && (|t| == 5 || !IsWordChar(t[5]))
    ensures Brand(t) == "BOTOX"
  {
    var w := "BOTOX";
    assert Patrones[0].0[0] == Word(w);
    WordMatch(w, t, 0);
    assert t[0..5] == w;
    SearchAt(Word(w), t, 0);
    assert IsFirstHit(Patrones, RuleMatches, t, 0);
    BrandSpec(t);
  }

  lemma BotoxThenTizo(t: string)
    requires t == "BOTOX TIZO"
    ensures Brand(t) == "BOTOX"
  {
    BotoxFirst(t);
  }
}
