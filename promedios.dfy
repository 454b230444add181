/** The average calculator: a student's published grades in a subject are
    sorted into four categories by their type label, each category is
    averaged, and the final average is the mean of the four category averages
    when all four exist. */
module PromedioCalculator {
  import opened Cadenas
  import opened Modelo
  import opened Estadistica

  datatype Categoria = Actividades | Practicas | Parciales | ExamenFinal

  /** The five averages a student sees for a subject; `None` is a category
      without grades (or a final average that cannot be computed yet). */
  datatype Promedios = Promedios(
    actividades: Option<real>, practicas: Option<real>, parciales: Option<real>,
    examenFinal: Option<real>, promedioFinal: Option<real>)

  /** The label as compared: surrounding spaces removed, lower case. */
  function Normalizar(tipo: string): (r: string)
    ensures |r| <= |tipo|
  {
    Lower(Strip(tipo))
  }

  // The literal lists of the classifier (accented forms written as code points).
  const Exposicion := "exposici\U{F3}n"
  const Practica := "pr\U{E1}ctica"
  const NombresActividad: seq<string> :=
    ["exposicion", Exposicion, "tarea", "trabajo_grupal", "trabajo grupal", "quiz", "laboratorio", "proyecto"]
  const NombresActividadGenericos: seq<string> := ["actividad", "actividades"]
  const Participacion := "participacion"
  const ParticipacionAcento := "participaci\U{F3}n"
  const NombresPractica: seq<string> := ["practica", Practica, "practicas", "pr\U{E1}cticas"]
  const NombresParcial: seq<string> := ["parcial", "parciales", "examen_parcial", "examen parcial"]
  const NombresFinal: seq<string> := ["examen_final", "examen final", "final"]
  const ClavesActividad: seq<string> :=
    ["actividad", "tarea", "quiz", "exposicion", Exposicion, "trabajo", "proyecto", "laboratorio"]
  const ClavesPractica: seq<string> := ["practica", Practica]
  const ClavesParcial: seq<string> := ["parcial"]
  const ClavesFinal: seq<string> := ["final", "examen"]

  /** `any(k in t for k in ks[i..])`, written index by index so that it can be
      evaluated on literal strings. */
  predicate ContieneAlguna(t: string, ks: seq<string>, i: nat)
    decreases |ks| - i
  {
    i < |ks| && (Contains(t, ks[i]) || ContieneAlguna(t, ks, i + 1))
  }

  lemma {:induction false} ContieneAlgunaMeans(t: string, ks: seq<string>, i: nat)
    ensures ContieneAlguna(t, ks, i) <==> exists k | i <= k < |ks| :: Contains(t, ks[k])
    decreases |ks| - i
  {
    if i < |ks| {
      ContieneAlgunaMeans(t, ks, i + 1);
    }
  }

  /** The category of a grade type, in the order the classifier tries its
      rules: exact names first, then "participacion" anywhere, then the
      keyword search; `None` drops the grade from every average. */
  function ClasificarNormalizado(t: string): Option<Categoria>
  {
    if t in NombresActividad then Some(Actividades)
    else if t in NombresActividadGenericos then Some(Actividades)
    else if Contains(t, Participacion) || Contains(t, ParticipacionAcento) then Some(Actividades)
    else if t in NombresPractica then Some(Practicas)
    else if t in NombresParcial then Some(Parciales)
    else if t in NombresFinal then Some(ExamenFinal)
    else PorClavesOriginales(t)
  }

  /** The keyword search of the last `else`. */
  function PorClavesOriginales(t: string): Option<Categoria>
  {
    if ContieneAlguna(t, ClavesActividad, 0) then Some(Actividades)
    else if ContieneAlguna(t, ClavesPractica, 0) then Some(Practicas)
    else if ContieneAlguna(t, ClavesParcial, 0) then Some(Parciales)
    else if ContieneAlguna(t, ClavesFinal, 0) then Some(ExamenFinal)
    else None
  }

  function Clasificar(tipo: string): Option<Categoria>
  {
    ClasificarNormalizado(Normalizar(tipo))
  }

  /** The keyword search alone, with the participation words counted among the
      activity keywords. */
  function PorPalabrasClave(t: string): Option<Categoria>
  {
    if ContieneAlguna(t, ClavesActividad + [Participacion, ParticipacionAcento], 0) then Some(Actividades)
    else if ContieneAlguna(t, ClavesPractica, 0) then Some(Practicas)
    else if ContieneAlguna(t, ClavesParcial, 0) then Some(Parciales)
    else if ContieneAlguna(t, ClavesFinal, 0) then Some(ExamenFinal)
    else None
  }

  /** Every letter of a keyword that occurs in a label occurs in the label. */
  lemma ContieneLetra(t: string, p: string, c: char)
    requires Contains(t, p) && c in p
    ensures c in t
  {
    ContainsMeans(t, p);
    var m :| OccursAt(t, p, m);
    var i :| 0 <= i < |p| && p[i] == c;
    assert t[m..m + |p|][i] == p[i];
    assert t[m + i] == c;
  }

  /** A keyword with a letter the label lacks does not occur in it. */
  lemma NoContieneSinLetra(t: string, p: string, c: char)
    requires c in p && c !in t
    ensures !Contains(t, p)
  {
    if Contains(t, p) {
      ContieneLetra(t, p, c);
    }
  }

  /** A label without the letters o, q, v, e and n holds no activity keyword. */
  lemma SinClavesActividad(t: string)
    requires 'o' !in t && 'q' !in t && 'v' !in t && 'e' !in t && 'n' !in t
    ensures !ContieneAlguna(t, ClavesActividad + [Participacion, ParticipacionAcento], 0)
  {
    var todas := ClavesActividad + [Participacion, ParticipacionAcento];
    ContieneAlgunaMeans(t, todas, 0);
    forall k | 0 <= k < |todas| ensures !Contains(t, todas[k]) {
      var c := if k == 0 then 'v' else if k == 1 then 'e' else if k == 2 then 'q' else if k == 9 then 'n' else 'o';
      NoContieneSinLetra(t, todas[k], c);
    }
  }

  /** A label without the letters t, o and q holds no activity or practice keyword. */
  lemma SinClavesActividadNiPractica(t: string)
    requires 't' !in t && 'o' !in t && 'q' !in t
    ensures !ContieneAlguna(t, ClavesActividad + [Participacion, ParticipacionAcento], 0)
    ensures !ContieneAlguna(t, ClavesPractica, 0)
  {
    var todas := ClavesActividad + [Participacion, ParticipacionAcento];
    ContieneAlgunaMeans(t, todas, 0);
    forall k | 0 <= k < |todas| ensures !Contains(t, todas[k]) {
      var c := if k == 2 then 'q' else if k in {3, 4, 6, 7} then 'o' else 't';
      NoContieneSinLetra(t, todas[k], c);
    }
    ContieneAlgunaMeans(t, ClavesPractica, 0);
    forall k | 0 <= k < |ClavesPractica| ensures !Contains(t, ClavesPractica[k]) {
      NoContieneSinLetra(t, ClavesPractica[k], 't');
    }
  }

  /** `p` occurs in `t` at `m`, so `t` holds the keyword list's `k`-th entry. */
  lemma ContieneClave(t: string, ks: seq<string>, k: nat, m: nat)
    requires k < |ks| && OccursAt(t, ks[k], m)
    ensures ContieneAlguna(t, ks, 0)
  {
    ContainsMeans(t, ks[k]);
    ContieneAlgunaMeans(t, ks, 0);
  }

  /** Every exact activity name holds one of the activity keywords. */
  lemma NombresActividadPorClaves(t: string)
    requires t in NombresActividad || t in NombresActividadGenericos
    ensures PorPalabrasClave(t) == Some(Actividades)
  {
    var todas := ClavesActividad + [Participacion, ParticipacionAcento];
    var k: nat;
    if t == "exposicion" || t == Exposicion { k := if t == Exposicion then 4 else 3; }
    else if t == "tarea" { k := 1; }
    else if t == "trabajo_grupal" || t == "trabajo grupal" { k := 5; }
    else if t == "quiz" { k := 2; }
    else if t == "laboratorio" { k := 7; }
    else if t == "proyecto" { k := 6; }
    else { k := 0; }
    assert Contains(t, todas[k]) by {
      ContainsMeans(t, todas[k]);
      assert OccursAt(t, todas[k], 0);
    }
    ContieneAlgunaMeans(t, todas, 0);
  }

  /** Every exact practice name holds a practice keyword and no activity keyword. */
  lemma NombresPracticaPorClaves(t: string)
    requires t in NombresPractica
    ensures PorPalabrasClave(t) == Some(Practicas)
  {
    SinClavesActividad(t);
    ContieneClave(t, ClavesPractica, if t == "practica" || t == "practicas" then 0 else 1, 0);
  }

  /** A label holding "parcial" and no activity or practice keyword is a midterm. */
  lemma ParcialPorClave(t: string, m: nat)
    requires 't' !in t && 'o' !in t && 'q' !in t
    requires m + 7 <= |t| && t[m..m + 7] == "parcial"
    ensures PorPalabrasClave(t) == Some(Parciales)
  {
    SinClavesActividadNiPractica(t);
    ContieneClave(t, ClavesParcial, 0, m);
  }

  /** Every exact midterm name holds "parcial" and no earlier keyword. */
  lemma NombresParcialPorClaves(t: string)
    requires t in NombresParcial
    ensures PorPalabrasClave(t) == Some(Parciales)
  {
    if t == "parcial" {
      ParcialPorClave(t, 0);
    } else if t == "parciales" {
      ParcialesPorClave();
    } else if t == "examen_parcial" {
      ExamenParcialPorClave("examen_parcial");
    } else {
      ExamenParcialPorClave("examen parcial");
    }
  }

  lemma ParcialesPorClave()
    ensures PorPalabrasClave("parciales") == Some(Parciales)
  {
    var t := "parciales";
    assert t[0..7] == "parcial";
    ParcialPorClave(t, 0);
  }

  /** Both spellings of "examen parcial" hold "parcial" after the separator. */
  lemma ExamenParcialPorClave(t: string)
    requires t == "examen_parcial" || t == "examen parcial"
    ensures PorPalabrasClave(t) == Some(Parciales)
  {
    assert t[7..14] == "parcial";
    ParcialPorClave(t, 7);
  }

  /** A label holding "final" and none of the earlier keywords is a final exam. */
  lemma FinalPorClave(t: string, m: nat)
    requires 't' !in t && 'o' !in t && 'q' !in t && 'p' !in t
    requires m + 5 <= |t| && t[m..m + 5] == "final"
    ensures PorPalabrasClave(t) == Some(ExamenFinal)
  {
    SinClavesActividadNiPractica(t);
    NoContieneSinLetra(t, "parcial", 'p');
    ContieneAlgunaMeans(t, ClavesParcial, 0);
    ContieneClave(t, ClavesFinal, 0, m);
  }

  /** Every exact final-exam name holds "final" and no earlier keyword. */
  lemma NombresFinalPorClaves(t: string)
    requires t in NombresFinal
    ensures PorPalabrasClave(t) == Some(ExamenFinal)
  {
    if t == "final" {
      FinalPorClave(t, 0);
    } else {
      ExamenFinalPorClave(t);
    }
  }

  /** Both spellings of "examen final" hold "final" after the separator. */
  lemma ExamenFinalPorClave(t: string)
    requires t == "examen_final" || t == "examen final"
    ensures PorPalabrasClave(t) == Some(ExamenFinal)
  {
    assert t[7..12] == "final";
    FinalPorClave(t, 7);
  }

  /** The exact-name rules only shortcut the keyword search: every name they
      list is classified the same way by its keywords, so the whole classifier
      is the keyword search with the participation words as activity keywords. */
  lemma ClasificarEsPorPalabrasClave(t: string)
    ensures ClasificarNormalizado(t) == PorPalabrasClave(t)
  {
    var todas := ClavesActividad + [Participacion, ParticipacionAcento];
    if t in NombresActividad || t in NombresActividadGenericos {
      NombresActividadPorClaves(t);
    } else if Contains(t, Participacion) || Contains(t, ParticipacionAcento) {
      ContieneAlgunaMeans(t, todas, 0);
      assert todas[8] == Participacion && todas[9] == ParticipacionAcento;
    } else if t in NombresPractica {
      NombresPracticaPorClaves(t);
    } else if t in NombresParcial {
      NombresParcialPorClaves(t);
    } else if t in NombresFinal {
      NombresFinalPorClaves(t);
    } else {
      ContieneAlgunaMeans(t, todas, 0);
      ContieneAlgunaMeans(t, ClavesActividad, 0);
      forall k | 0 <= k < |todas| && Contains(t, todas[k])
        ensures exists k' | 0 <= k' < |ClavesActividad| :: Contains(t, ClavesActividad[k'])
      {
        assert todas[k] == ClavesActividad[k];
      }
      forall k | 0 <= k < |ClavesActividad| && Contains(t, ClavesActividad[k])
        ensures exists k' | 0 <= k' < |todas| :: Contains(t, todas[k'])
      {
        assert todas[k] == ClavesActividad[k];
      }
    }
  }

  /** A numbered midterm label matches no exact name and is a midterm by its
      "parcial" keyword. */
  lemma EjemploExamenParcial2()
    ensures ClasificarNormalizado("examen parcial 2") == Some(Parciales)
  {
    var t := "examen parcial 2";
    assert t[7..14] == "parcial";
    ParcialPorClave(t, 7);
    ClasificarEsPorPalabrasClave(t);
  }

  /** A bare "examen" is a final exam by the "examen" keyword. */
  lemma EjemploExamen()
    ensures ClasificarNormalizado("examen") == Some(ExamenFinal)
  {
    var t := "examen";
    SinClavesActividadNiPractica(t);
    NoContieneSinLetra(t, "parcial", 'p');
    ContieneAlgunaMeans(t, ClavesParcial, 0);
    assert t[0..6] == ClavesFinal[1];
    ContieneClave(t, ClavesFinal, 1, 0);
    ClasificarEsPorPalabrasClave(t);
  }

  /** Normalizing twice is normalizing once. */
  lemma NormalizarIdempotente(t: string)
    ensures Normalizar(Normalizar(t)) == Normalizar(t)
  {
    StripLower(Strip(t));
    StripIdempotent(t);
    LowerFacts(Strip(t));
  }

  /** The category ignores letter case and surrounding spaces. */
  lemma ClasificarIgnoraFormato(t: string)
    ensures Clasificar(Lower(t)) == Clasificar(t)
    ensures Clasificar(Upper(t)) == Clasificar(t)
    ensures Clasificar(Strip(t)) == Clasificar(t)
  {
    StripLower(t);
    StripUpper(t);
    LowerFacts(Strip(t));
    StripIdempotent(t);
  }

  // ---------------------------------------------------------------------
  // Averages.

  /** The scores of the grades of category `c`, in order. */
  function Categorizadas(ns: seq<Nota>, c: Categoria): (r: seq<real>)
    ensures |r| <= |ns|
  {
    if ns == [] then []
    else
      var n := ns[|ns| - 1];
      Categorizadas(ns[..|ns| - 1], c) + (if Clasificar(n.tipoNota) == Some(c) then [n.calificacion] else [])
  }

  /** The grades no rule classifies. */
  function SinCategoria(ns: seq<Nota>): (r: seq<Nota>)
    ensures |r| <= |ns|
  {
    Filter(ns, SinClasificar)
  }

  predicate SinClasificar(n: Nota)
  {
    Clasificar(n.tipoNota).None?
  }

  /** `promedio_tipo`: the mean of a category, `None` when it is empty. */
  function PromedioTipo(xs: seq<real>): (r: Option<real>)
    ensures r.None? <==> xs == []
    ensures r.Some? ==> Min(xs) <= r.value <= Max(xs)
  {
    if xs == [] then None
    else
      MeanBetween(xs);
      Some(Mean(xs))
  }

  /** The final average: the plain mean of the four category averages, and
      only when all four exist. */
  function PromedioFinal(a: Option<real>, p: Option<real>, q: Option<real>, e: Option<real>): (r: Option<real>)
    ensures r.Some? <==> a.Some? && p.Some? && q.Some? && e.Some?
    ensures r.Some? ==> r.value * 4.0 == a.value + p.value + q.value + e.value
  {
    if a.Some? && p.Some? && q.Some? && e.Some? then
      Some((a.value + p.value + q.value + e.value) / 4.0)
    else None
  }

  /** The averages of a list of grades, all taken as published. */
  function PromediosDe(ns: seq<Nota>): Promedios
  {
    var a := PromedioTipo(Categorizadas(ns, Actividades));
    var p := PromedioTipo(Categorizadas(ns, Practicas));
    var q := PromedioTipo(Categorizadas(ns, Parciales));
    var e := PromedioTipo(Categorizadas(ns, ExamenFinal));
    Promedios(a, p, q, e, PromedioFinal(a, p, q, e))
  }

  /** `calcular_promedios_alumno`: the averages of a student's published
      grades in a subject. */
  function PromediosAlumno(notas: seq<Nota>, alumnoId: int, asignaturaId: int): Promedios
  {
    PromediosDe(NotasPublicadas(notas, alumnoId, asignaturaId))
  }

  lemma CategorizadasPush(ns: seq<Nota>, n: Nota, c: Categoria)
    ensures Categorizadas(ns + [n], c) ==
              Categorizadas(ns, c) + (if Clasificar(n.tipoNota) == Some(c) then [n.calificacion] else [])
  {
    assert (ns + [n])[..|ns|] == ns;
  }

  /** Every grade lands in exactly one category or in none: the categories
      and the unclassified grades partition the list. */
  lemma {:induction false} CategoriasParticion(ns: seq<Nota>)
    ensures |Categorizadas(ns, Actividades)| + |Categorizadas(ns, Practicas)|
            + |Categorizadas(ns, Parciales)| + |Categorizadas(ns, ExamenFinal)|
            + |SinCategoria(ns)| == |ns|
  {
    if ns != [] {
      var ns' := ns[..|ns| - 1];
      var n := ns[|ns| - 1];
      assert ns == ns' + [n];
      CategoriasParticion(ns');
      FilterPush(ns', n, SinClasificar);
      var cat := Clasificar(n.tipoNota);
      forall c: Categoria ensures |Categorizadas(ns, c)| == |Categorizadas(ns', c)| + (if cat == Some(c) then 1 else 0) {
        CategorizadasPush(ns', n, c);
      }
      assert |SinCategoria(ns)| == |SinCategoria(ns')| + (if cat.None? then 1 else 0);
    }
  }

  /** Every score of a category comes from a grade of that category. */
  lemma {:induction false} CategorizadasDe(ns: seq<Nota>, c: Categoria, x: real)
    requires x in Categorizadas(ns, c)
    ensures exists k | 0 <= k < |ns| :: ns[k].calificacion == x && Clasificar(ns[k].tipoNota) == Some(c)
  {
    var ns' := ns[..|ns| - 1];
    if x in Categorizadas(ns', c) {
      CategorizadasDe(ns', c, x);
      var k :| 0 <= k < |ns'| && ns'[k].calificacion == x && Clasificar(ns'[k].tipoNota) == Some(c);
      assert ns[k] == ns'[k];
    } else {
      assert ns[|ns| - 1].calificacion == x;
    }
  }

  lemma CategorizadasEnRango(ns: seq<Nota>, c: Categoria, lo: real, hi: real)
    requires forall k | 0 <= k < |ns| :: lo <= ns[k].calificacion <= hi
    ensures forall k | 0 <= k < |Categorizadas(ns, c)| :: lo <= Categorizadas(ns, c)[k] <= hi
  {
    forall k | 0 <= k < |Categorizadas(ns, c)| ensures lo <= Categorizadas(ns, c)[k] <= hi {
      CategorizadasDe(ns, c, Categorizadas(ns, c)[k]);
    }
  }

  lemma PromedioTipoEnRango(ns: seq<Nota>, c: Categoria, lo: real, hi: real)
    requires forall k | 0 <= k < |ns| :: lo <= ns[k].calificacion <= hi
    ensures var r := PromedioTipo(Categorizadas(ns, c)); r.Some? ==> lo <= r.value <= hi
  {
    var xs := Categorizadas(ns, c);
    if xs != [] {
      CategorizadasEnRango(ns, c, lo, hi);
      MeanInRange(xs, lo, hi);
    }
  }

  /** The mean of four values in a range is in that range. */
  lemma PromedioFinalEnRango(a: Option<real>, p: Option<real>, q: Option<real>, e: Option<real>, lo: real, hi: real)
    requires a.Some? ==> lo <= a.value <= hi
    requires p.Some? ==> lo <= p.value <= hi
    requires q.Some? ==> lo <= q.value <= hi
    requires e.Some? ==> lo <= e.value <= hi
    ensures var r := PromedioFinal(a, p, q, e); r.Some? ==> lo <= r.value <= hi
  {
  }

  /** Grades in a range (0 to 20 on registration) give every average in that
      range. */
  lemma PromediosEnRango(ns: seq<Nota>, lo: real, hi: real)
    requires forall k | 0 <= k < |ns| :: lo <= ns[k].calificacion <= hi
    ensures var r := PromediosDe(ns);
            && (r.actividades.Some? ==> lo <= r.actividades.value <= hi)
            && (r.practicas.Some? ==> lo <= r.practicas.value <= hi)
            && (r.parciales.Some? ==> lo <= r.parciales.value <= hi)
            && (r.examenFinal.Some? ==> lo <= r.examenFinal.value <= hi)
            && (r.promedioFinal.Some? ==> lo <= r.promedioFinal.value <= hi)
  {
    PromedioTipoEnRango(ns, Actividades, lo, hi);
    PromedioTipoEnRango(ns, Practicas, lo, hi);
    PromedioTipoEnRango(ns, Parciales, lo, hi);
    PromedioTipoEnRango(ns, ExamenFinal, lo, hi);
    var r := PromediosDe(ns);
    PromedioFinalEnRango(r.actividades, r.practicas, r.parciales, r.examenFinal, lo, hi);
  }

  /** The final average exists exactly when every category has a grade. */
  lemma PromedioFinalExiste(ns: seq<Nota>)
    ensures PromediosDe(ns).promedioFinal.Some? <==>
              && Categorizadas(ns, Actividades) != [] && Categorizadas(ns, Practicas) != []
              && Categorizadas(ns, Parciales) != [] && Categorizadas(ns, ExamenFinal) != []
  {
  }

  /** A grade the student cannot see (a draft, or another student's or
      subject's) does not change the student's averages. */
  lemma NotaAjenaNoCuenta(notas: seq<Nota>, n: Nota, alumnoId: int, asignaturaId: int)
    requires !n.publicada || n.alumnoId != alumnoId || n.asignaturaId != asignaturaId
    ensures PromediosAlumno(notas + [n], alumnoId, asignaturaId) == PromediosAlumno(notas, alumnoId, asignaturaId)
  {
    FilterPush(notas, n, (m: Nota) => m.alumnoId == alumnoId && m.asignaturaId == asignaturaId && m.publicada);
  }

  /** A published grade whose type no rule recognizes is ignored. */
  lemma NotaSinCategoriaNoCuenta(ns: seq<Nota>, n: Nota)
    requires Clasificar(n.tipoNota).None?
    ensures PromediosDe(ns + [n]) == PromediosDe(ns)
  {
    forall c: Categoria ensures Categorizadas(ns + [n], c) == Categorizadas(ns, c) {
      CategorizadasPush(ns, n, c);
    }
  }

  /** One more grade extends exactly the category it is classified into. */
  lemma CategorizadasPaso(ns: seq<Nota>, i: nat, cat: Option<Categoria>)
    requires i < |ns| && cat == Clasificar(ns[i].tipoNota)
    ensures forall c: Categoria :: Categorizadas(ns[..i + 1], c) ==
              Categorizadas(ns[..i], c) + (if cat == Some(c) then [ns[i].calificacion] else [])
  {
    assert ns[..i + 1] == ns[..i] + [ns[i]];
    forall c: Categoria ensures Categorizadas(ns[..i + 1], c) ==
              Categorizadas(ns[..i], c) + (if cat == Some(c) then [ns[i].calificacion] else []) {
      CategorizadasPush(ns[..i], ns[i], c);
    }
  }

  /** The loop filling `tipos_notas`: each grade's score is appended to the
      list of the category its type is classified into. */
  method AgruparPorTipo(notas: seq<Nota>) returns (actividades: seq<real>, practicas: seq<real>, parciales: seq<real>, examenFinal: seq<real>)
    ensures actividades == Categorizadas(notas, Actividades)
    ensures practicas == Categorizadas(notas, Practicas)
    ensures parciales == Categorizadas(notas, Parciales)
    ensures examenFinal == Categorizadas(notas, ExamenFinal)
  {
    actividades, practicas, parciales, examenFinal := [], [], [], [];
    var i := 0;
    while i < |notas|
      invariant 0 <= i <= |notas|
      invariant actividades == Categorizadas(notas[..i], Actividades)
      invariant practicas == Categorizadas(notas[..i], Practicas)
      invariant parciales == Categorizadas(notas[..i], Parciales)
      invariant examenFinal == Categorizadas(notas[..i], ExamenFinal)
    {
      var nota := notas[i];
      var cat := Clasificar(nota.tipoNota);
      CategorizadasPaso(notas, i, cat);
      match cat {
        case Some(Actividades) => actividades := actividades + [nota.calificacion];
        case Some(Practicas) => practicas := practicas + [nota.calificacion];
        case Some(Parciales) => parciales := parciales + [nota.calificacion];
        case Some(ExamenFinal) => examenFinal := examenFinal + [nota.calificacion];
        case None =>
      }
      i := i + 1;
    }
    assert notas[..i] == notas;
  }

  /** `calcular_promedios_alumno`: one pass over the published grades sorts the
      scores into the four categories, then each category is averaged. */
  method CalcularPromediosAlumno(db: Escuela, alumnoId: int, asignaturaId: int) returns (r: Promedios)
    ensures r == PromediosAlumno(db.notas, alumnoId, asignaturaId)
  {
    var notas := NotasPublicadas(db.notas, alumnoId, asignaturaId);
    var actividades, practicas, parciales, examenFinal := AgruparPorTipo(notas);
    var a := PromedioTipo(actividades);
    var p := PromedioTipo(practicas);
    var q := PromedioTipo(parciales);
    var e := PromedioTipo(examenFinal);
    r := Promedios(a, p, q, e, PromedioFinal(a, p, q, e));
  }

  /** The enrollments of one subject, in table order. */
  function MatriculasDeAsignatura(ms: seq<Matricula>, asignaturaId: int): seq<Matricula>
  {
    Filter(ms, (m: Matricula) => m.asignaturaId == asignaturaId)
  }

  /** A student appears among a subject's enrollments iff enrolled in it. */
  lemma MatriculadosSon(ms: seq<Matricula>, asignaturaId: int)
    ensures var xs := MatriculasDeAsignatura(ms, asignaturaId);
            forall a :: (exists k | 0 <= k < |xs| :: xs[k].alumnoId == a) <==> Matricula(a, asignaturaId) in ms
  {
    var xs := MatriculasDeAsignatura(ms, asignaturaId);
    forall a ensures (exists k | 0 <= k < |xs| :: xs[k].alumnoId == a) <==> Matricula(a, asignaturaId) in ms {
      if Matricula(a, asignaturaId) in ms {
        var j :| 0 <= j < |ms| && ms[j] == Matricula(a, asignaturaId);
        var k :| 0 <= k < |xs| && xs[k] == ms[j];
      }
    }
  }

  /** `calcular_promedios_asignatura`: the averages of every student enrolled
      in the subject, keyed by student. */
  method CalcularPromediosAsignatura(db: Escuela, asignaturaId: int) returns (r: map<int, Promedios>)
    ensures forall a :: a in r <==> Matricula(a, asignaturaId) in db.matriculas
    ensures forall a | a in r :: r[a] == PromediosAlumno(db.notas, a, asignaturaId)
  {
    var matriculados := MatriculasDeAsignatura(db.matriculas, asignaturaId);
    r := map[];
    var i := 0;
    while i < |matriculados|
      invariant 0 <= i <= |matriculados|
      invariant forall a :: a in r <==> exists k | 0 <= k < i :: matriculados[k].alumnoId == a
      invariant forall a | a in r :: r[a] == PromediosAlumno(db.notas, a, asignaturaId)
    {
      var alumnoId := matriculados[i].alumnoId;
      var promedios := CalcularPromediosAlumno(db, alumnoId, asignaturaId);
      r := r[alumnoId := promedios];
      i := i + 1;
    }
    MatriculadosSon(db.matriculas, asignaturaId);
  }
}
