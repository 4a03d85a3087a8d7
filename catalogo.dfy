/** The rule catalogue of `src/catalogo.py`: the canonical service names, the order
    in which services win over each other, the brand table (each brand with its
    service and its patterns), the generic service keywords and the default brand of
    some services. It is data only; the lemmas state that the tables fit together. */
module Catalogo {
  import opened Prelude
  import opened Regex

  /** The service categories. */
  datatype Servicio = Toxina | RellenoHA | Bioestimulador | Mesoterapia | Enzimas | Consulta | Producto

  /** The canonical name of each service, the value stored for it. */
  function Nombre(s: Servicio): string
  {
    match s
    case Toxina => "Toxina Botulinica"
    case RellenoHA => "Relleno Acido Hialuronico"
    case Bioestimulador => "Bioestimulador de Colageno"
    case Mesoterapia => "Mesoterapia Skinbooster"
    case Enzimas => "Enzimas Recombinantes"
    case Consulta => "Consulta Medica"
    case Producto => "Venta de Producto Dermocosmetico"
  }

  /** `LISTA_DE_PRIORIDAD_SERVICIOS`: a service earlier in the list wins. */
  const Prioridad: seq<Servicio> := [Toxina, RellenoHA, Bioestimulador, Enzimas, Mesoterapia, Consulta, Producto]

  /** One value of the brand table. */
  datatype Marca = Marca(servicio: Servicio, patrones: seq<Pattern>)

  /** `\b...\b` around a pattern. */
  function Bounded(p: Pattern): Pattern { [Bound] + p + [Bound] }

  /** `a\s?b`. */
  function Gap(a: string, b: string): Pattern { Lits(a) + [OptSpace] + Lits(b) }

  /** `\bRADIESSE?\b`. */
  const Radiesse: Pattern := [Bound] + Lits("RADIESS") + [Opt('E'), Bound]

  /** `GRIMORIO_DE_MARCAS`, as its entries in the order of the literal. */
  const Marcas: seq<(string, Marca)> := [
    ("BOTOX", Marca(Toxina, PatronesBotox)),
    ("JUVEDERM", Marca(RellenoHA, PatronesJuvederm)),
    ("ART FILLER", Marca(RellenoHA, PatronesArtFiller)),
    ("CROMA", Marca(RellenoHA, PatronesCroma)),
    ("HARMONYCA", Marca(Bioestimulador, PatronesHarmonyca)),
    ("RADIESSE", Marca(Bioestimulador, PatronesRadiesse)),
    ("ELLANSE", Marca(Bioestimulador, PatronesEllanse)),
    ("NCTF", Marca(Mesoterapia, PatronesNctf)),
    ("JALUPRO", Marca(Mesoterapia, PatronesJalupro)),
    ("PB SERUM", Marca(Enzimas, PatronesPbSerum)),
    ("TIZO", Marca(Producto, PatronesTizo)),
    ("ISDIN", Marca(Producto, PatronesIsdin)),
    ("SVR", Marca(Producto, PatronesSvr)),
    ("HYDRAMAX", Marca(Producto, PatronesHydramax)),
    ("PHYTO", Marca(Producto, PatronesPhyto)),
    ("SKINLAB", Marca(Producto, PatronesSkinlab)),
    ("EYE REFRESH", Marca(Producto, PatronesEyeRefresh)),
    ("B3", Marca(Producto, PatronesB3)),
    ("MICROPEEL", Marca(Producto, PatronesMicropeel)),
    ("TML", Marca(Producto, PatronesTml))
  ]

  // The pattern list of each brand.
  const PatronesBotox: seq<Pattern> := [Word("BOTOX")]
  const PatronesJuvederm: seq<Pattern> := [Word("JUVEDERM"), Word("VOLUMA"), Word("VOLIFT"),
    Word("VOLBELLA"), Word("VOLITE"), Word("VOLUX")]
  const PatronesArtFiller: seq<Pattern> := [Bounded(Gap("ART", "FILLER")), Word("FILORGA")]
  const PatronesCroma: seq<Pattern> := [Word("CROMA"), Word("SAYPHA")]
  const PatronesHarmonyca: seq<Pattern> := [Word("HARMONYCA")]
  const PatronesRadiesse: seq<Pattern> := [Radiesse, Word("RADIESE")]
  const PatronesEllanse: seq<Pattern> := [Word("ELLANSE")]
  const PatronesNctf: seq<Pattern> := [Word("NCTF")]
  const PatronesJalupro: seq<Pattern> := [Word("JALUPRO")]
  const PatronesPbSerum: seq<Pattern> := [Bounded(Gap("PB", "SERUM"))]
  const PatronesTizo: seq<Pattern> := [Word("TIZO"), Bounded(Gap("TIZO", "2")), Bounded(Gap("TIZO", "3")),
    Bounded(Gap("TIZO", "AM")), Bounded(Gap("TIZO", "TINTED")), Bounded(Gap("TIZO", "STICK")),
    Bounded(Gap("TIZO", "LIPS")), [Bound] + Gap("TIZO", "MOISTURIZ")]
  const PatronesIsdin: seq<Pattern> := [Word("ISDIN"), Gap("AGE", "REPAIR"), Lits("FOTOPROTECTOR"),
    Gap("OIL", "CONTROL"), Lits("COMPACT"), Gap("HYALURONIC", "CONCENTRATE")]
  const PatronesSvr: seq<Pattern> := [Word("SVR"), Lits("SEBIACLEAR"), Lits("VIT") + [Opt('.'), OptSpace, Lit('C')],
    Gap("SUN", "SECURE"), Lits("EXTREME"), Lits("CONTORNO") + [OptSpace, Lit('D'), Opt('E'), OptSpace] + Lits("OJO") + [Opt('S')],
    Lits("JABON"), Lits("SENSIFINE")]
  const PatronesHydramax: seq<Pattern> := [Lits("HYDRAMAX"), Gap("HIDRA", "MAX"), Gap("AMPOULE", "HYDRA")]
  const PatronesPhyto: seq<Pattern> := [Gap("PHYTO", "SPOT")]
  const PatronesSkinlab: seq<Pattern> := [Lits("SKINLAB")]
  const PatronesEyeRefresh: seq<Pattern> := [Gap("EYE", "REFRESH"), Gap("CLEAN", "EYE"),
    Gap("EYE", "C") + [OptSpace] + Lits("PERFECTION")]
  const PatronesB3: seq<Pattern> := [Word("B3"), Gap("SERUM", "B3")]
  const PatronesMicropeel: seq<Pattern> := [Lits("MICROPEEL"), Gap("MICRO", "PEELING")]
  const PatronesTml: seq<Pattern> := [Word("TML")]

  /** `GRIMORIO_DE_SERVICIOS`: keyword patterns and the service each one assigns. */
  const Servicios: seq<(Pattern, Servicio)> := [
    ([Bound, Lit('A'), Opt('.'), Spaces] + Lits("HIALURONICO") + [Bound], RellenoHA),
    (Word("BIOESTIMULADOR"), Bioestimulador),
    (Word("ENZIMAS"), Enzimas),
    (Word("CONSULTA"), Consulta),
    (Word("PRODUCTO"), Producto)
  ]

  /** `MAPA_GENERICOS_POR_SERVICIO`: the brand assumed for a service named without one. */
  const Genericos: map<Servicio, string> := map[RellenoHA := "JUVEDERM", Bioestimulador := "RADIESSE", Mesoterapia := "NCTF"]

  /** `GRIMORIO_DE_MARCAS[key]`: a dict literal keeps the last entry written for a key. */
  function MarcaDe(entries: seq<(string, Marca)>, key: string): (r: Option<Marca>)
    ensures r.None? <==> forall k :: 0 <= k < |entries| ==> entries[k].0 != key
    ensures r.Some? ==> exists k :: 0 <= k < |entries| && entries[k] == (key, r.value)
    decreases |entries|
  {
    if entries == [] then None
    else if entries[|entries| - 1].0 == key then Some(entries[|entries| - 1].1)
    else MarcaDe(entries[..|entries| - 1], key)
  }

  predicate DistinctKeys<K(==), V>(entries: seq<(K, V)>)
  {
    forall a, b :: 0 <= a < b < |entries| ==> entries[a].0 != entries[b].0
  }

  /** With no key written twice, a lookup finds the one entry of that key. */
  lemma MarcaDeEntry(entries: seq<(string, Marca)>, k: nat)
    requires DistinctKeys(entries) && k < |entries|
    ensures MarcaDe(entries, entries[k].0) == Some(entries[k].1)
  {
    var r := MarcaDe(entries, entries[k].0);
    var j :| 0 <= j < |entries| && entries[j] == (entries[k].0, r.value);
    assert j == k;
  }

  /** The position of a service in the priority list. */
  function Rank(s: Servicio): (r: nat)
    ensures r < |Prioridad| && Prioridad[r] == s
  {
    match s
    case Toxina => 0
    case RellenoHA => 1
    case Bioestimulador => 2
    case Enzimas => 3
    case Mesoterapia => 4
    case Consulta => 5
    case Producto => 6
  }

  /** The service that wins among those a transaction mentions: the first of the priority
      list that occurs in `found`. */
  function ServicioPrincipal(found: set<Servicio>): Option<Servicio>
  {
    PrincipalFrom(found, 0)
  }

  function PrincipalFrom(found: set<Servicio>, i: nat): Option<Servicio>
    requires i <= |Prioridad|
    decreases |Prioridad| - i
  {
    if i == |Prioridad| then None
    else if Prioridad[i] in found then Some(Prioridad[i])
    else PrincipalFrom(found, i + 1)
  }

  /** Position j holds the first service of the list, from i on, that is mentioned. */
  predicate FirstFound(found: set<Servicio>, i: nat, j: int)
  {
    i <= j < |Prioridad| && Prioridad[j] in found && forall j' :: i <= j' < j ==> Prioridad[j'] !in found
  }

  /** From position i on, the winner is the first service mentioned, and there is none
      exactly when none of the rest of the list is mentioned. */
  lemma {:induction false} PrincipalFromSpec(found: set<Servicio>, i: nat)
    requires i <= |Prioridad|
    ensures PrincipalFrom(found, i).None? <==> forall j :: i <= j < |Prioridad| ==> Prioridad[j] !in found
    ensures PrincipalFrom(found, i).Some? ==> exists j :: FirstFound(found, i, j) && PrincipalFrom(found, i) == Some(Prioridad[j])
    decreases |Prioridad| - i
  {
    if i < |Prioridad| && Prioridad[i] !in found {
      PrincipalFromSpec(found, i + 1);
    }
  }

  /** The winner is a mentioned service ranked no later than any other mentioned one;
      there is a winner whenever something is mentioned. */
  lemma ServicioPrincipalSpec(found: set<Servicio>)
    ensures ServicioPrincipal(found).None? <==> found == {}
    ensures ServicioPrincipal(found).Some? ==> ServicioPrincipal(found).value in found
    ensures forall s :: s in found && ServicioPrincipal(found).Some? ==>
      Rank(ServicioPrincipal(found).value) <= Rank(s)
  {
    PrioridadDistinct();
    PrincipalFromSpec(found, 0);
    if found != {} {
      var s :| s in found;
      assert Prioridad[Rank(s)] == s;
    }
    if ServicioPrincipal(found).Some? {
      var j :| FirstFound(found, 0, j) && ServicioPrincipal(found) == Some(Prioridad[j]);
      assert Rank(Prioridad[j]) == j;
    }
  }

  /** The priority list holds the seven services once each, and their canonical names
      are distinct. */
  lemma PrioridadDistinct()
    ensures |Prioridad| == 7
    ensures forall a, b :: 0 <= a < b < |Prioridad| ==> Prioridad[a] != Prioridad[b]
    ensures forall s: Servicio :: s in Prioridad
    ensures forall s, t: Servicio :: s != t ==> Nombre(s) != Nombre(t)
  {
    forall s: Servicio ensures s in Prioridad {
      assert Prioridad[Rank(s)] == s;
    }
    forall s, t: Servicio | s != t ensures Nombre(s) != Nombre(t) {
      NombreDiffers(s, t);
    }
  }

  /** Two canonical names differ in their length or in their first character. */
  lemma NombreDiffers(s: Servicio, t: Servicio)
    requires s != t
    ensures |Nombre(s)| != |Nombre(t)| || Nombre(s)[0] != Nombre(t)[0]
  {
  }

  /** Toxina comes first, so it wins whenever it is mentioned: a note naming BOTOX and
      TIZO has Toxina as its service. */
  lemma ToxinaWins(found: set<Servicio>)
    requires Toxina in found
    ensures ServicioPrincipal(found) == Some(Toxina)
  {
  }

  /** The brand table: twenty brands, no brand written twice, each with a non-empty
      pattern list (and, being typed, exactly one service). */
  lemma MarcasWellFormed()
    ensures |Marcas| == 20
    ensures DistinctKeys(Marcas)
    ensures forall k :: 0 <= k < |Marcas| ==> |Marcas[k].1.patrones| > 0
  {
  }

  /** The five keyword rules assign five different services. */
  lemma ServiciosWellFormed()
    ensures |Servicios| == 5
    ensures forall a, b :: 0 <= a < b < |Servicios| ==> Servicios[a].1 != Servicios[b].1
  {
  }

  /** Each default brand is a brand of the table whose own service is the service it
      stands for. */
  lemma GenericosConsistent()
    ensures forall s :: s in Genericos ==> MarcaDe(Marcas, Genericos[s]).Some? && MarcaDe(Marcas, Genericos[s]).value.servicio == s
  {
    forall s | s in Genericos
      ensures MarcaDe(Marcas, Genericos[s]).Some? && MarcaDe(Marcas, Genericos[s]).value.servicio == s
    {
      if s == RellenoHA {
        GenericoEntry(s, 1);
      } else if s == Bioestimulador {
        GenericoEntry(s, 5);
      } else {
        GenericoEntry(s, 7);
      }
    }
  }

  /** Only the filler, biostimulator and mesotherapy services have a default brand. */
  lemma GenericosKeys()
    ensures Genericos.Keys == {RellenoHA, Bioestimulador, Mesoterapia}
    ensures Toxina !in Genericos && Producto !in Genericos && Enzimas !in Genericos && Consulta !in Genericos
  {
  }

  /** The default brand of service s is entry k of the brand table, whose service is s. */
  lemma GenericoEntry(s: Servicio, k: nat)
    requires s in Genericos && k < |Marcas| && Marcas[k].0 == Genericos[s] && Marcas[k].1.servicio == s
    ensures MarcaDe(Marcas, Genericos[s]) == Some(Marcas[k].1)
    ensures MarcaDe(Marcas, Genericos[s]).value.servicio == s
  {
    MarcasWellFormed();
    MarcaDeEntry(Marcas, k);
  }

  /** `\bw c?\b` is `\bw\b` or `\bwc\b`. */
  lemma OptLastMatch(w: string, c: char, s: string, i: nat)
    requires i <= |s|
    ensures MatchFrom([Bound] + Lits(w) + [Opt(c), Bound], s, i) <==>
      MatchFrom(Word(w), s, i) || MatchFrom(Word(w + [c]), s, i)
  {
    var p := [Bound] + Lits(w) + [Opt(c), Bound];
    assert p[0] == Bound && p[1..] == Lits(w) + [Opt(c), Bound];
    assert Word(w)[0] == Bound && Word(w)[1..] == Lits(w) + [Bound];
    assert Word(w + [c])[0] == Bound && Word(w + [c])[1..] == Lits(w + [c]) + [Bound];
    LitsMatch(w, [Opt(c), Bound], s, i);
    LitsMatch(w, [Bound], s, i);
    LitsMatch(w + [c], [Bound], s, i);
    var tail: Pattern := [Opt(c), Bound];
    assert tail[1..] == [Bound];
    if i + |w| < |s| {
      AtExtend(s, i, w, c);
    }
  }

  /** w followed by c occurs at i exactly when w does and c comes next. */
  lemma AtExtend(s: string, i: nat, w: string, c: char)
    requires i + |w| < |s|
    ensures At(s, i, w + [c]) <==> At(s, i, w) && s[i + |w|] == c
  {
    assert s[i..i + |w| + 1] == s[i..i + |w|] + [s[i + |w|]];
    if At(s, i, w + [c]) {
      assert s[i..i + |w|] == (w + [c])[..|w|] == w;
      assert s[i + |w|] == (w + [c])[|w|] == c;
    }
  }

  /** `\bRADIESSE?\b` accepts the one-word texts RADIESS and RADIESSE and no other, so
      it does not accept RADIES. */
  lemma RadiesseAccepts(t: string)
    requires IsToken(t)
    ensures Search(Radiesse, t) <==> t == "RADIESS" || t == "RADIESSE"
  {
    if Search(Radiesse, t) {
      var i :| 0 <= i <= |t| && MatchFrom(Radiesse, t, i);
      OptLastMatch("RADIESS", 'E', t, i);
      assert "RADIESS" + ['E'] == "RADIESSE";
      WordInToken("RADIESS", t);
      WordInToken("RADIESSE", t);
    }
    if t == "RADIESS" || t == "RADIESSE" {
      OptLastMatch("RADIESS", 'E', t, 0);
      assert "RADIESS" + ['E'] == "RADIESSE";
      WordMatch("RADIESS", t, 0);
      WordMatch("RADIESSE", t, 0);
      assert t[0..|t|] == t;
      SearchAt(Radiesse, t, 0);
    }
  }

  /** With its second pattern `\bRADIESE\b`, the RADIESSE brand takes the one-word texts
      RADIESS, RADIESSE and RADIESE. */
  lemma RadiesseBrand(t: string)
    requires IsToken(t)
    ensures SearchAny(PatronesRadiesse, t) <==> t == "RADIESS" || t == "RADIESSE" || t == "RADIESE"
  {
    var ps := PatronesRadiesse;
    assert ps == [Radiesse, Word("RADIESE")];
    RadiesseAccepts(t);
    WordInToken("RADIESE", t);
  }

  /** Patterns written without `\b` match inside longer words: a text containing COMPACT
      anywhere (COMPACTO, say) names ISDIN, and one containing EXTREME or JABON names SVR,
      while `\bSVR\b` needs SVR as a word of its own. */
  lemma UnboundedInside(s: string, i: nat)
    requires At(s, i, "COMPACT") || At(s, i, "EXTREME") || At(s, i, "JABON")
    ensures At(s, i, "COMPACT") ==> SearchAny(PatronesIsdin, s)
    ensures At(s, i, "EXTREME") || At(s, i, "JABON") ==> SearchAny(PatronesSvr, s)
  {
    if At(s, i, "COMPACT") {
      assert PatronesIsdin[4] == Lits("COMPACT");
      LitsFoundInside("COMPACT", s, i);
    }
    if At(s, i, "EXTREME") {
      assert PatronesSvr[4] == Lits("EXTREME");
      LitsFoundInside("EXTREME", s, i);
    }
    if At(s, i, "JABON") {
      assert PatronesSvr[6] == Lits("JABON");
      LitsFoundInside("JABON", s, i);
    }
  }

  lemma SvrIsAWord(t: string)
    requires IsToken(t)
    ensures Search(PatronesSvr[0], t) <==> t == "SVR"
  {
    WordInToken("SVR", t);
  }

  /** A note naming BOTOX and TIZO matches both brands; its service is Toxina. */
  lemma BotoxAndTizo(t: string)
    requires t == "BOTOX TIZO"
    ensures SearchAny(PatronesBotox, t) && SearchAny(PatronesTizo, t)
    ensures ServicioPrincipal({Marcas[0].1.servicio, Marcas[10].1.servicio}) == Some(Toxina)
  {
    assert PatronesBotox[0] == Word("BOTOX");
    assert PatronesTizo[0] == Word("TIZO");
    WordAt("BOTOX", t, 0);
    WordAt("TIZO", t, 6);
    ToxinaWins({Marcas[0].1.servicio, Marcas[10].1.servicio});
  }

  /** A token found between non-word neighbours is found by `\bw\b`. */
  lemma WordAt(w: string, s: string, i: nat)
    requires IsToken(w) && At(s, i, w)
    requires i == 0 || !IsWordChar(s[i - 1])
    requires i + |w| == |s| || !IsWordChar(s[i + |w|])
    ensures Search(Word(w), s)
  {
    WordMatch(w, s, i);
    SearchAt(Word(w), s, i);
  }
}
