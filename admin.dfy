/** The administrator's router: the pass rule, promotion to the next cycle,
    enrollment and the guarded deletions. */
module AdminRoutes {
  import opened Cadenas
  import opened Modelo
  import opened Estadistica
  import opened Ciclos
  import opened Instantanea
  import opened TablaMatriculas
  import CiclosEjemplos

  /** `PASSING_GRADE` with its default value. */
  const PassingGrade: int := 11

  // ---------------------------------------------------------------------
  // The pass rule.

  /** `alumno_aprobo_asignatura`: the best published grade reaches the pass mark. */
  predicate Aprobo(notas: seq<Nota>, alumnoId: int, asignaturaId: int)
  {
    var ps := Scores(NotasPublicadas(notas, alumnoId, asignaturaId));
    ps != [] && Max(ps) >= PassingGrade as real
  }

  /** A subject is passed exactly when one published grade of the student in
      it reaches the pass mark; drafts never count. */
  lemma AproboIff(notas: seq<Nota>, alumnoId: int, asignaturaId: int)
    ensures Aprobo(notas, alumnoId, asignaturaId) <==>
              exists k | 0 <= k < |notas| ::
                && notas[k].alumnoId == alumnoId && notas[k].asignaturaId == asignaturaId
                && notas[k].publicada && notas[k].calificacion >= PassingGrade as real
  {
    var ns := NotasPublicadas(notas, alumnoId, asignaturaId);
    var ps := Scores(ns);
    if Aprobo(notas, alumnoId, asignaturaId) {
      var j :| 0 <= j < |ps| && ps[j] == Max(ps);
      var k :| 0 <= k < |notas| && notas[k] == ns[j];
      assert notas[k].calificacion >= PassingGrade as real;
    }
    if exists k | 0 <= k < |notas| ::
         && notas[k].alumnoId == alumnoId && notas[k].asignaturaId == asignaturaId
         && notas[k].publicada && notas[k].calificacion >= PassingGrade as real
    {
      var k :| 0 <= k < |notas| && notas[k].alumnoId == alumnoId && notas[k].asignaturaId == asignaturaId
               && notas[k].publicada && notas[k].calificacion >= PassingGrade as real;
      assert notas[k] in ns;
      var j :| 0 <= j < |ns| && ns[j] == notas[k];
      assert ps[j] <= Max(ps);
    }
  }

  // ---------------------------------------------------------------------
  // Promotion to the next cycle.

  /** The subjects of a cycle (`filter(Asignatura.ciclo == ciclo)`). */
  function AsignaturasDelCiclo(asignaturas: seq<Asignatura>, ciclo: string): seq<Asignatura>
  {
    Filter(asignaturas, (s: Asignatura) => s.ciclo == ciclo)
  }

  /** The first current subject the student has not passed, if any. */
  function PrimeraReprobada(notas: seq<Nota>, alumnoId: int, actuales: seq<Asignatura>): Option<nat>
  {
    Find(actuales, (s: Asignatura) => !Aprobo(notas, alumnoId, s.id), 0)
  }

  const SinAsignaturasActuales := "No se encontraron asignaturas del ciclo actual para evaluar."

  function MensajeReprobada(s: Asignatura): string
  {
    "No aprob\U{F3} la asignatura: " + s.nombre + " (id=" + IntToString(s.id) + ")."
  }

  function MensajeRegistrado(siguiente: string, disponibles: nat): string
  {
    "Registrado en el siguiente ciclo (" + siguiente + "). " +
    (if disponibles > 0
     then "Existen " + NatToString(disponibles) + " asignaturas disponibles en ese ciclo. "
     else "No hay asignaturas definidas para ese ciclo. ") +
    "Se ha generado el historial acad\U{E9}mico."
  }

  /** Whether the student moves on, and to which cycle; the error is the
      message reported when they do not. */
  function DecisionPromocion(al: Alumno, asignaturas: seq<Asignatura>, matriculas: seq<Matricula>, notas: seq<Nota>): Result<string, string>
  {
    match NextCycle(al.ciclo)
    case Err(e) => Err(e)
    case Ok(siguiente) =>
      var actuales := AsignaturasActuales(al, asignaturas, matriculas);
      if actuales == [] then Err(SinAsignaturasActuales)
      else match PrimeraReprobada(notas, al.id, actuales)
        case Some(i) => Err(MensajeReprobada(actuales[i]))
        case None => Ok(siguiente)
  }

  /** A student moves on exactly when their cycle label has a successor, they
      are enrolled in at least one subject of their current cycle, and they
      passed every such subject; they move to the successor label. */
  lemma DecisionPromocionOk(al: Alumno, asignaturas: seq<Asignatura>, matriculas: seq<Matricula>, notas: seq<Nota>)
    ensures var actuales := AsignaturasActuales(al, asignaturas, matriculas);
            DecisionPromocion(al, asignaturas, matriculas, notas).Ok? <==>
              && NextCycle(al.ciclo).Ok?
              && actuales != []
              && forall k | 0 <= k < |actuales| :: Aprobo(notas, al.id, actuales[k].id)
    ensures DecisionPromocion(al, asignaturas, matriculas, notas).Ok? ==>
              DecisionPromocion(al, asignaturas, matriculas, notas).value == NextCycle(al.ciclo).value
  {
  }

  /** The history record promotion writes: the old cycle, one entry per
      current subject, and "Cultura" on the move from "I" to "II". */
  function HistorialPromocion(al: Alumno, actuales: seq<Asignatura>, notas: seq<Nota>, siguiente: string, ahora: int): Historial
  {
    Historial(al.id, al.ciclo,
      Entradas(notas, al.id, actuales) + (if al.ciclo == "I" && siguiente == "II" then [Cultura(ahora)] else []))
  }

  /** The "Cultura" condition is the same as the old cycle being "I": the
      successor of "I" is always "II". */
  lemma CulturaSiCicloI(ciclo: string)
    ensures (ciclo == "I" && NextCycle(ciclo) == Ok("II")) <==> ciclo == "I"
  {
    if ciclo == "I" {
      CiclosEjemplos.EjemploRomanoI();
    }
  }

  /** The snapshot written on promotion to the label's successor holds one
      entry per current subject, labelled with the old cycle, and gains the
      "Cultura" entry exactly when the old cycle is "I". */
  lemma HistorialPromocionCultura(al: Alumno, actuales: seq<Asignatura>, notas: seq<Nota>, ahora: int)
    requires NextCycle(al.ciclo).Ok?
    ensures var h := HistorialPromocion(al, actuales, notas, NextCycle(al.ciclo).value, ahora);
            && h.alumnoId == al.id && h.ciclo == al.ciclo
            && |h.asignaturas| == |actuales| + (if al.ciclo == "I" then 1 else 0)
            && (forall k | 0 <= k < |actuales| :: h.asignaturas[k].nombre == actuales[k].nombre)
            && (al.ciclo == "I" ==> h.asignaturas[|actuales|] == Cultura(ahora))
  {
    CulturaSiCicloI(al.ciclo);
  }

  /** What `matricular_alumno_en_siguiente_ciclo` reports.  `matriculado` is
      always false: the student is registered in the next cycle, not enrolled
      in its subjects. */
  datatype ResultadoPromocion = ResultadoPromocion(
    alumnoId: int, nombre: string, matriculado: bool, registrado: bool,
    mensaje: string, asignaturasSiguienteIds: seq<int>)

  /** The loop over the current subjects that stops at the first one not
      passed. */
  method BuscarReprobada(notas: seq<Nota>, alumnoId: int, actuales: seq<Asignatura>) returns (f: Option<nat>)
    ensures f == PrimeraReprobada(notas, alumnoId, actuales)
  {
    var i := 0;
    while i < |actuales|
      invariant 0 <= i <= |actuales|
      invariant Find(actuales, (s: Asignatura) => !Aprobo(notas, alumnoId, s.id), 0)
                == Find(actuales, (s: Asignatura) => !Aprobo(notas, alumnoId, s.id), i)
    {
      if !Aprobo(notas, alumnoId, actuales[i].id) {
        return Some(i);
      }
      i := i + 1;
    }
    return None;
  }

  /** The checks of `matricular_alumno_en_siguiente_ciclo`, in their order:
      a successor label, at least one current subject, every one passed. */
  method DecidirPromocion(al: Alumno, asignaturas: seq<Asignatura>, matriculas: seq<Matricula>, notas: seq<Nota>)
    returns (d: Result<string, string>, actuales: seq<Asignatura>)
    ensures d == DecisionPromocion(al, asignaturas, matriculas, notas)
    ensures actuales == AsignaturasActuales(al, asignaturas, matriculas)
  {
    actuales := AsignaturasActuales(al, asignaturas, matriculas);
    var siguiente := NextCycle(al.ciclo);
    if siguiente.Err? {
      return Err(siguiente.error), actuales;
    }
    if actuales == [] {
      return Err(SinAsignaturasActuales), actuales;
    }
    var reprobada := BuscarReprobada(notas, al.id, actuales);
    if reprobada.Some? {
      return Err(MensajeReprobada(actuales[reprobada.value])), actuales;
    }
    return Ok(siguiente.value), actuales;
  }

  /** The writes of a promotion: the history snapshot of the old cycle, and
      the student's new cycle label; returns the ids of the new cycle's
      subjects. */
  method RegistrarPromocion(db: Escuela, k: nat, siguiente: string, actuales: seq<Asignatura>, ahora: int)
    returns (ids: seq<int>)
    requires db.Valid() && k < |db.alumnos|
    modifies db
    ensures db.Valid()
    ensures var al := old(db.alumnos[k]);
            && db.alumnos == old(db.alumnos)[k := al.(ciclo := siguiente)]
            && db.historiales == old(db.historiales) + [HistorialPromocion(al, actuales, old(db.notas), siguiente, ahora)]
    ensures ids == Mapear(AsignaturasDelCiclo(db.asignaturas, siguiente), AsignaturaId)
    ensures db.usuarios == old(db.usuarios) && db.docentes == old(db.docentes)
    ensures db.asignaturas == old(db.asignaturas) && db.notas == old(db.notas) && db.matriculas == old(db.matriculas)
  {
    var al := db.alumnos[k];
    ghost var h := HistorialPromocion(al, actuales, db.notas, siguiente, ahora);
    var entradas := CopiarAsignaturas(db, al.id, actuales);
    if al.ciclo == "I" && siguiente == "II" {
      entradas := entradas + [Cultura(ahora)];
    } else {
      assert entradas == h.asignaturas;
    }
    assert Historial(al.id, al.ciclo, entradas) == h;
    db.historiales := db.historiales + [Historial(al.id, al.ciclo, entradas)];
    ids := Mapear(AsignaturasDelCiclo(db.asignaturas, siguiente), AsignaturaId);
    UniqueKeyUpdate(db.alumnos, k, al.(ciclo := siguiente), AlumnoId);
    db.alumnos := db.alumnos[k := al.(ciclo := siguiente)];
  }

  /** `matricular_alumno_en_siguiente_ciclo` for the student in row `k`. */
  method MatricularEnSiguienteCiclo(db: Escuela, k: nat, ahora: int) returns (r: ResultadoPromocion)
    requires db.Valid() && k < |db.alumnos|
    modifies db
    ensures db.Valid()
    ensures var al := old(db.alumnos[k]);
            var d := DecisionPromocion(al, old(db.asignaturas), old(db.matriculas), old(db.notas));
            && r.alumnoId == al.id && r.nombre == al.nombreCompleto && !r.matriculado
            && r.registrado == d.Ok?
            && (d.Err? ==>
                  && r.mensaje == d.error && r.asignaturasSiguienteIds == []
                  && db.alumnos == old(db.alumnos) && db.historiales == old(db.historiales))
            && (d.Ok? ==>
                  var actuales := AsignaturasActuales(al, old(db.asignaturas), old(db.matriculas));
                  var ids := Mapear(AsignaturasDelCiclo(old(db.asignaturas), d.value), AsignaturaId);
                  && db.alumnos == old(db.alumnos)[k := al.(ciclo := d.value)]
                  && db.historiales == old(db.historiales) + [HistorialPromocion(al, actuales, old(db.notas), d.value, ahora)]
                  && r.asignaturasSiguienteIds == ids
                  && r.mensaje == MensajeRegistrado(d.value, |ids|))
    ensures db.usuarios == old(db.usuarios) && db.docentes == old(db.docentes)
    ensures db.asignaturas == old(db.asignaturas) && db.notas == old(db.notas) && db.matriculas == old(db.matriculas)
  {
    var al := db.alumnos[k];
    r := ResultadoPromocion(al.id, al.nombreCompleto, false, false, "", []);
    var d, actuales := DecidirPromocion(al, db.asignaturas, db.matriculas, db.notas);
    if d.Err? {
      r := r.(mensaje := d.error);
      return;
    }
    var ids := RegistrarPromocion(db, k, d.value, actuales, ahora);
    r := r.(registrado := true, asignaturasSiguienteIds := ids, mensaje := MensajeRegistrado(d.value, |ids|));
  }

  /** The report of one promotion attempt decided `d`: the refusal message,
      or the new cycle's message and subject ids once the student is
      registered. */
  function ReporteDe(al: Alumno, d: Result<string, string>, asignaturas: seq<Asignatura>): ResultadoPromocion
  {
    if d.Err? then ResultadoPromocion(al.id, al.nombreCompleto, false, false, d.error, [])
    else
      var ids := Mapear(AsignaturasDelCiclo(asignaturas, d.value), AsignaturaId);
      ResultadoPromocion(al.id, al.nombreCompleto, false, true, MensajeRegistrado(d.value, |ids|), ids)
  }

  /** The student after an attempt decided `d`: moved to the decided cycle, or
      unchanged when the decision is refused. */
  function PromovidoDe(al: Alumno, d: Result<string, string>): Alumno
  {
    if d.Ok? then al.(ciclo := d.value) else al
  }

  /** The history rows an attempt decided `d` writes: the snapshot of the
      closed cycle when the student moves on, none otherwise. */
  function HistorialesEscritos(al: Alumno, d: Result<string, string>, asignaturas: seq<Asignatura>,
                               matriculas: seq<Matricula>, notas: seq<Nota>, ahora: int): seq<Historial>
  {
    if d.Ok? then [HistorialPromocion(al, AsignaturasActuales(al, asignaturas, matriculas), notas, d.value, ahora)] else []
  }

  /** `matricular_alumno_en_siguiente_ciclo` summarised by the three functions
      above, for the student's own decision. */
  method PromoverUno(db: Escuela, k: nat, ahora: int) returns (r: ResultadoPromocion)
    requires db.Valid() && k < |db.alumnos|
    modifies db
    ensures db.Valid()
    ensures var al := old(db.alumnos[k]);
            var d := DecisionPromocion(al, old(db.asignaturas), old(db.matriculas), old(db.notas));
            && r == ReporteDe(al, d, old(db.asignaturas))
            && db.alumnos == old(db.alumnos)[k := PromovidoDe(al, d)]
            && db.historiales == old(db.historiales) + HistorialesEscritos(al, d, old(db.asignaturas), old(db.matriculas), old(db.notas), ahora)
    ensures db.usuarios == old(db.usuarios) && db.docentes == old(db.docentes)
    ensures db.asignaturas == old(db.asignaturas) && db.notas == old(db.notas) && db.matriculas == old(db.matriculas)
  {
    r := MatricularEnSiguienteCiclo(db, k, ahora);
  }

  /** `admin_matricula_automatica_alumno`: promotion of the student with key
      `alumnoId`, or 404. */
  method MatriculaAutomaticaAlumno(db: Escuela, alumnoId: int, ahora: int) returns (r: Result<ResultadoPromocion, Error>)
    requires db.Valid()
    modifies db
    ensures db.Valid()
    ensures BuscarAlumno(old(db.alumnos), alumnoId).None? ==>
              r == Err(NoEncontrado("Alumno no encontrado")) && db.alumnos == old(db.alumnos)
              && db.historiales == old(db.historiales)
    ensures BuscarAlumno(old(db.alumnos), alumnoId).Some? ==>
              var k := BuscarAlumno(old(db.alumnos), alumnoId).value;
              var al := old(db.alumnos)[k];
              var d := DecisionPromocion(al, old(db.asignaturas), old(db.matriculas), old(db.notas));
              && r == Ok(ReporteDe(al, d, old(db.asignaturas)))
              && db.alumnos == old(db.alumnos)[k := PromovidoDe(al, d)]
              && db.historiales == old(db.historiales) + HistorialesEscritos(al, d, old(db.asignaturas), old(db.matriculas), old(db.notas), ahora)
    ensures db.usuarios == old(db.usuarios) && db.docentes == old(db.docentes)
    ensures db.asignaturas == old(db.asignaturas) && db.notas == old(db.notas) && db.matriculas == old(db.matriculas)
  {
    var k := BuscarAlumno(db.alumnos, alumnoId);
    if k.None? {
      return Err(NoEncontrado("Alumno no encontrado"));
    }
    var res := PromoverUno(db, k.value, ahora);
    return Ok(res);
  }

  /** Each student's own decision, in table order. */
  function Decisiones(als: seq<Alumno>, asignaturas: seq<Asignatura>, matriculas: seq<Matricula>, notas: seq<Nota>): (ds: seq<Result<string, string>>)
    ensures |ds| == |als|
  {
    Mapear(als, (al: Alumno) => DecisionPromocion(al, asignaturas, matriculas, notas))
  }

  /** Every student of a run is decided on their own rows. */
  lemma DecisionDeCada(als: seq<Alumno>, asignaturas: seq<Asignatura>, matriculas: seq<Matricula>, notas: seq<Nota>, j: nat)
    requires j < |als|
    ensures Decisiones(als, asignaturas, matriculas, notas)[j] == DecisionPromocion(als[j], asignaturas, matriculas, notas)
  {
    MapearEn(als, (al: Alumno) => DecisionPromocion(al, asignaturas, matriculas, notas), j);
  }

  /** The reports of a run over `als` decided `ds`, in table order. */
  function ReportesPromocion(als: seq<Alumno>, ds: seq<Result<string, string>>, asignaturas: seq<Asignatura>): (r: seq<ResultadoPromocion>)
    requires |ds| == |als|
    ensures |r| == |als|
  {
    if als == [] then []
    else ReportesPromocion(als[..|als| - 1], ds[..|als| - 1], asignaturas) + [ReporteDe(als[|als| - 1], ds[|als| - 1], asignaturas)]
  }

  /** The student rows after a run over `als` decided `ds`. */
  function PromovidosTodos(als: seq<Alumno>, ds: seq<Result<string, string>>): (r: seq<Alumno>)
    requires |ds| == |als|
    ensures |r| == |als|
  {
    if als == [] then []
    else PromovidosTodos(als[..|als| - 1], ds[..|als| - 1]) + [PromovidoDe(als[|als| - 1], ds[|als| - 1])]
  }

  /** The history rows a run over `als` decided `ds` writes, in table order. */
  function HistorialesPromocion(als: seq<Alumno>, ds: seq<Result<string, string>>, asignaturas: seq<Asignatura>,
                                matriculas: seq<Matricula>, notas: seq<Nota>, ahora: int): seq<Historial>
    requires |ds| == |als|
  {
    if als == [] then []
    else HistorialesPromocion(als[..|als| - 1], ds[..|als| - 1], asignaturas, matriculas, notas, ahora)
         + HistorialesEscritos(als[|als| - 1], ds[|als| - 1], asignaturas, matriculas, notas, ahora)
  }

  /** Student `j` of a run is reported and moved on exactly as an attempt of
      their own would be. */
  lemma {:induction false} PromocionPorAlumno(als: seq<Alumno>, ds: seq<Result<string, string>>, asignaturas: seq<Asignatura>, j: nat)
    requires |ds| == |als| && j < |als|
    ensures ReportesPromocion(als, ds, asignaturas)[j] == ReporteDe(als[j], ds[j], asignaturas)
    ensures PromovidosTodos(als, ds)[j] == PromovidoDe(als[j], ds[j])
    decreases |als|
  {
    var n := |als| - 1;
    if j < n {
      PromocionPorAlumno(als[..n], ds[..n], asignaturas, j);
      assert als[..n][j] == als[j] && ds[..n][j] == ds[j];
    }
  }

  /** A run writes at most one history row per student, and the snapshot of
      every student who moves on is among them. */
  lemma {:induction false} HistorialDeCadaPromovido(als: seq<Alumno>, ds: seq<Result<string, string>>, asignaturas: seq<Asignatura>,
                                                    matriculas: seq<Matricula>, notas: seq<Nota>, ahora: int, j: nat)
    requires |ds| == |als| && j < |als|
    ensures |HistorialesPromocion(als, ds, asignaturas, matriculas, notas, ahora)| <= |als|
    ensures ds[j].Ok? ==>
              HistorialPromocion(als[j], AsignaturasActuales(als[j], asignaturas, matriculas), notas, ds[j].value, ahora)
                in HistorialesPromocion(als, ds, asignaturas, matriculas, notas, ahora)
    decreases |als|
  {
    var n := |als| - 1;
    if n > 0 {
      HistorialDeCadaPromovido(als[..n], ds[..n], asignaturas, matriculas, notas, ahora, if j < n then j else 0);
    }
    if j < n {
      assert als[..n][j] == als[j] && ds[..n][j] == ds[j];
    }
  }

  lemma ReportesPaso(als: seq<Alumno>, ds: seq<Result<string, string>>, asignaturas: seq<Asignatura>, k: nat)
    requires |ds| == |als| && k < |als|
    ensures ReportesPromocion(als[..k + 1], ds[..k + 1], asignaturas)
            == ReportesPromocion(als[..k], ds[..k], asignaturas) + [ReporteDe(als[k], ds[k], asignaturas)]
  {
    assert als[..k + 1][..k] == als[..k] && ds[..k + 1][..k] == ds[..k];
  }

  lemma PromovidosPaso(als: seq<Alumno>, ds: seq<Result<string, string>>, k: nat)
    requires |ds| == |als| && k < |als|
    ensures PromovidosTodos(als[..k + 1], ds[..k + 1]) == PromovidosTodos(als[..k], ds[..k]) + [PromovidoDe(als[k], ds[k])]
  {
    assert als[..k + 1][..k] == als[..k] && ds[..k + 1][..k] == ds[..k];
  }

  lemma HistorialesPaso(als: seq<Alumno>, ds: seq<Result<string, string>>, asignaturas: seq<Asignatura>,
                        matriculas: seq<Matricula>, notas: seq<Nota>, ahora: int, k: nat)
    requires |ds| == |als| && k < |als|
    ensures HistorialesPromocion(als[..k + 1], ds[..k + 1], asignaturas, matriculas, notas, ahora)
            == HistorialesPromocion(als[..k], ds[..k], asignaturas, matriculas, notas, ahora)
               + HistorialesEscritos(als[k], ds[k], asignaturas, matriculas, notas, ahora)
  {
    assert als[..k + 1][..k] == als[..k] && ds[..k + 1][..k] == ds[..k];
  }

  lemma Asociar<T>(a: seq<T>, b: seq<T>, c: seq<T>)
    ensures a + b + c == a + (b + c)
  {
  }

  lemma PrefijoCompleto<T>(xs: seq<T>, k: nat)
    requires k == |xs|
    ensures xs[..k] == xs
  {
  }

  /** Replacing the row just after a prefix extends the prefix by that row. */
  lemma ReemplazarSiguiente<T>(ps: seq<T>, xs: seq<T>, y: T)
    requires xs != []
    ensures (ps + xs)[|ps| := y] == ps + [y] + xs[1..]
  {
  }

  /** `admin_matricula_automatica_todos`: one promotion attempt per student, in
      table order.  Each student is judged on their own grades and enrollments,
      which no other attempt changes, so each moves on at most one cycle. */
  method MatriculaAutomaticaTodos(db: Escuela, ahora: int) returns (reporte: seq<ResultadoPromocion>)
    requires db.Valid()
    modifies db
    ensures db.Valid()
    ensures var ds := Decisiones(old(db.alumnos), old(db.asignaturas), old(db.matriculas), old(db.notas));
            && reporte == ReportesPromocion(old(db.alumnos), ds, old(db.asignaturas))
            && db.alumnos == PromovidosTodos(old(db.alumnos), ds)
            && db.historiales == old(db.historiales) + HistorialesPromocion(old(db.alumnos), ds, old(db.asignaturas), old(db.matriculas), old(db.notas), ahora)
    ensures db.usuarios == old(db.usuarios) && db.docentes == old(db.docentes)
    ensures db.asignaturas == old(db.asignaturas) && db.notas == old(db.notas) && db.matriculas == old(db.matriculas)
  {
    ghost var alumnos, asignaturas, matriculas, notas := db.alumnos, db.asignaturas, db.matriculas, db.notas;
    ghost var ds := Decisiones(alumnos, asignaturas, matriculas, notas);
    reporte := [];
    var k := 0;
    while k < |db.alumnos|
      invariant db.Valid()
      invariant 0 <= k <= |alumnos|
      invariant db.usuarios == old(db.usuarios) && db.docentes == old(db.docentes)
      invariant db.asignaturas == asignaturas && db.notas == notas && db.matriculas == matriculas
      invariant reporte == ReportesPromocion(alumnos[..k], ds[..k], asignaturas)
      invariant db.alumnos == PromovidosTodos(alumnos[..k], ds[..k]) + alumnos[k..]
      invariant db.historiales == old(db.historiales) + HistorialesPromocion(alumnos[..k], ds[..k], asignaturas, matriculas, notas, ahora)
    {
      ghost var hechos := PromovidosTodos(alumnos[..k], ds[..k]);
      ghost var escritos := HistorialesPromocion(alumnos[..k], ds[..k], asignaturas, matriculas, notas, ahora);
      assert db.alumnos[k] == alumnos[k];
      DecisionDeCada(alumnos, asignaturas, matriculas, notas, k);
      var res := PromoverUno(db, k, ahora);
      Asociar(old(db.historiales), escritos, HistorialesEscritos(alumnos[k], ds[k], asignaturas, matriculas, notas, ahora));
      ReportesPaso(alumnos, ds, asignaturas, k);
      PromovidosPaso(alumnos, ds, k);
      HistorialesPaso(alumnos, ds, asignaturas, matriculas, notas, ahora, k);
      ReemplazarSiguiente(hechos, alumnos[k..], PromovidoDe(alumnos[k], ds[k]));
      assert alumnos[k..][1..] == alumnos[k + 1..];
      reporte := reporte + [res];
      k := k + 1;
    }
    PrefijoCompleto(alumnos, k);
    PrefijoCompleto(ds, k);
  }

  // ---------------------------------------------------------------------
  // Enrollment.

  /** The pairs enrolling one student in each of `ss`. */
  function ParesAlumno(alumnoId: int, ss: seq<Asignatura>): (r: seq<Matricula>)
    ensures |r| == |ss| && forall k | 0 <= k < |ss| :: r[k] == Matricula(alumnoId, ss[k].id)
  {
    seq(|ss|, k requires 0 <= k < |ss| => Matricula(alumnoId, ss[k].id))
  }

  /** The pairs enrolling each of `als` in one subject. */
  function ParesAsignatura(als: seq<Alumno>, asignaturaId: int): (r: seq<Matricula>)
    ensures |r| == |als| && forall k | 0 <= k < |als| :: r[k] == Matricula(als[k].id, asignaturaId)
  {
    seq(|als|, k requires 0 <= k < |als| => Matricula(als[k].id, asignaturaId))
  }

  /** The student's pairs are exactly the pairs of that student with one of
      the subjects. */
  lemma ParesAlumnoSon(alumnoId: int, ss: seq<Asignatura>)
    ensures forall p: Matricula :: p in ParesAlumno(alumnoId, ss) <==>
              p.alumnoId == alumnoId && exists s | s in ss :: s.id == p.asignaturaId
  {
    var r := ParesAlumno(alumnoId, ss);
    forall p: Matricula | p.alumnoId == alumnoId && exists s | s in ss :: s.id == p.asignaturaId
      ensures p in r
    {
      var s :| s in ss && s.id == p.asignaturaId;
      var k :| 0 <= k < |ss| && ss[k] == s;
      assert r[k] == p;
    }
  }

  /** The subject's pairs are exactly the pairs of one of the students with
      that subject. */
  lemma ParesAsignaturaSon(als: seq<Alumno>, asignaturaId: int)
    ensures forall p: Matricula :: p in ParesAsignatura(als, asignaturaId) <==>
              p.asignaturaId == asignaturaId && exists a | a in als :: a.id == p.alumnoId
  {
    var r := ParesAsignatura(als, asignaturaId);
    forall p: Matricula | p.asignaturaId == asignaturaId && exists a | a in als :: a.id == p.alumnoId
      ensures p in r
    {
      var a :| a in als && a.id == p.alumnoId;
      var k :| 0 <= k < |als| && als[k] == a;
      assert r[k] == p;
    }
  }

  /** The students of a cycle (`filter(Alumno.ciclo == ciclo)`). */
  function AlumnosDelCiclo(alumnos: seq<Alumno>, ciclo: string): seq<Alumno>
  {
    Filter(alumnos, (a: Alumno) => a.ciclo == ciclo)
  }

  /** The enrollment loop shared by `matricular_alumno` and
      `crear_asignatura`: each pair is looked up in the table as it stands
      and inserted when absent; the inserted pairs are reported in order. */
  method InsertarMatriculas(db: Escuela, nuevas: seq<Matricula>) returns (creadas: seq<Matricula>)
    requires db.Valid()
    requires forall k | 0 <= k < |nuevas| :: ExisteAsignatura(db.asignaturas, nuevas[k].asignaturaId)
    modifies db
    ensures db.Valid()
    ensures db.matriculas == Insertar(old(db.matriculas), nuevas)
    ensures creadas == db.matriculas[|old(db.matriculas)|..]
    ensures db.usuarios == old(db.usuarios) && db.alumnos == old(db.alumnos) && db.docentes == old(db.docentes)
    ensures db.asignaturas == old(db.asignaturas) && db.notas == old(db.notas) && db.historiales == old(db.historiales)
  {
    var tabla := db.matriculas;
    creadas := [];
    var i := 0;
    while i < |nuevas|
      invariant 0 <= i <= |nuevas|
      invariant tabla == Insertar(db.matriculas, nuevas[..i])
      invariant creadas == tabla[|db.matriculas|..]
    {
      var m := nuevas[i];
      assert nuevas[..i + 1] == nuevas[..i] + [m];
      if m !in tabla {
        tabla := tabla + [m];
        creadas := creadas + [m];
      }
      i := i + 1;
    }
    assert nuevas[..i] == nuevas;
    InsertarNoDup(db.matriculas, nuevas);
    forall k | 0 <= k < |tabla| ensures ExisteAsignatura(db.asignaturas, tabla[k].asignaturaId) {
      assert tabla[k] in Pares(tabla);
      if tabla[k] !in Pares(db.matriculas) {
        var j :| 0 <= j < |nuevas| && nuevas[j] == tabla[k];
      }
    }
    db.matriculas := tabla;
  }

  /** What `matricular_alumno` reports. */
  datatype ResultadoMatricula = ResultadoMatricula(mensaje: string, alumno: string, ciclo: string, matriculas: seq<Matricula>)

  function MensajeMatriculado(n: nat, ciclo: string): string
  {
    "Alumno matriculado autom\U{E1}ticamente en " + NatToString(n) + " asignaturas del " + ciclo
  }

  /** `matricular_alumno`: enroll the student with key `alumnoId` in every
      subject of their cycle and give their user the temporary password hash
      `hashTemporal`.  Re-running it enrolls nothing new (InsertarIdempotente). */
  method MatricularAlumno(db: Escuela, alumnoId: int, hashTemporal: string) returns (r: Result<ResultadoMatricula, Error>)
    requires db.Valid()
    modifies db
    ensures db.Valid()
    ensures BuscarAlumno(old(db.alumnos), alumnoId).None? ==>
              r == Err(NoEncontrado("Alumno no encontrado"))
              && db.matriculas == old(db.matriculas) && db.usuarios == old(db.usuarios)
    ensures BuscarAlumno(old(db.alumnos), alumnoId).Some? ==>
              var al := old(db.alumnos)[BuscarAlumno(old(db.alumnos), alumnoId).value];
              var ss := AsignaturasDelCiclo(old(db.asignaturas), al.ciclo);
              var nuevas := ParesAlumno(al.id, ss);
              && (ss == [] ==>
                    && r == Err(NoEncontrado("No se encontraron asignaturas para el " + al.ciclo))
                    && db.matriculas == old(db.matriculas) && db.usuarios == old(db.usuarios))
              && (ss != [] ==>
                    && r.Ok?
                    && db.matriculas == Insertar(old(db.matriculas), nuevas)
                    && r.value.matriculas == db.matriculas[|old(db.matriculas)|..]
                    && |r.value.matriculas| == |Pares(nuevas) - Pares(old(db.matriculas))|
                    && r.value == ResultadoMatricula(MensajeMatriculado(|r.value.matriculas|, al.ciclo),
                                                     al.nombreCompleto, al.ciclo, r.value.matriculas)
                    && db.usuarios == ConHash(old(db.usuarios), al.usuarioId, hashTemporal))
    ensures db.alumnos == old(db.alumnos) && db.docentes == old(db.docentes)
    ensures db.asignaturas == old(db.asignaturas) && db.notas == old(db.notas) && db.historiales == old(db.historiales)
  {
    var k := BuscarAlumno(db.alumnos, alumnoId);
    if k.None? {
      return Err(NoEncontrado("Alumno no encontrado"));
    }
    var al := db.alumnos[k.value];
    var ss := AsignaturasDelCiclo(db.asignaturas, al.ciclo);
    if ss == [] {
      return Err(NoEncontrado("No se encontraron asignaturas para el " + al.ciclo));
    }
    var nuevas := ParesAlumno(al.id, ss);
    forall j | 0 <= j < |nuevas| ensures ExisteAsignatura(db.asignaturas, nuevas[j].asignaturaId) {
      assert ss[j] in db.asignaturas;
    }
    InsertarCuenta(db.matriculas, nuevas);
    var creadas := InsertarMatriculas(db, nuevas);
    ConHashUnico(db.usuarios, al.usuarioId, hashTemporal);
    db.usuarios := ConHash(db.usuarios, al.usuarioId, hashTemporal);
    return Ok(ResultadoMatricula(MensajeMatriculado(|creadas|, al.ciclo), al.nombreCompleto, al.ciclo, creadas));
  }

  /** A new subject's key is in no enrollment yet, so every student of its
      cycle is enrolled: the reported count is the size of the cycle. */
  lemma MatriculasDeAsignaturaNueva(ms: seq<Matricula>, als: seq<Alumno>, asignaturaId: int)
    requires NoDup(ms) && UniqueKey(als, AlumnoId)
    requires forall k | 0 <= k < |ms| :: ms[k].asignaturaId != asignaturaId
    ensures |Insertar(ms, ParesAsignatura(als, asignaturaId))| - |ms| == |als|
  {
    var nuevas := ParesAsignatura(als, asignaturaId);
    InsertarCuenta(ms, nuevas);
    assert Pares(nuevas) - Pares(ms) == Pares(nuevas);
    assert NoDup(nuevas) by {
      forall i, j | 0 <= i < j < |nuevas| ensures nuevas[i] != nuevas[j] {
        assert AlumnoId(als[i]) != AlumnoId(als[j]);
      }
    }
    NoDupCard(nuevas);
  }

  /** What `crear_asignatura` reports. */
  datatype ResultadoAsignatura = ResultadoAsignatura(asignatura: Asignatura, docente: Docente, matriculas: seq<Matricula>, mensaje: string)

  function MensajeAsignaturaCreada(n: nat): string
  {
    "Asignatura creada y " + NatToString(n) + " alumnos matriculados autom\U{E1}ticamente"
  }

  /** `crear_asignatura`: add the subject under a fresh key and enroll every
      student of its cycle in it. */
  method CrearAsignatura(db: Escuela, nombre: string, ciclo: string, docenteId: int) returns (r: Result<ResultadoAsignatura, Error>)
    requires db.Valid()
    modifies db
    ensures db.Valid()
    ensures BuscarDocente(old(db.docentes), docenteId).None? ==>
              r == Err(NoEncontrado("Docente no encontrado"))
              && db.asignaturas == old(db.asignaturas) && db.matriculas == old(db.matriculas)
    ensures BuscarDocente(old(db.docentes), docenteId).Some? ==>
              var s := Asignatura(NextId(Mapear(old(db.asignaturas), AsignaturaId)), nombre, ciclo, docenteId);
              var als := AlumnosDelCiclo(old(db.alumnos), ciclo);
              && r.Ok? && r.value.asignatura == s
              && r.value.docente == old(db.docentes)[BuscarDocente(old(db.docentes), docenteId).value]
              && db.asignaturas == old(db.asignaturas) + [s]
              && db.matriculas == Insertar(old(db.matriculas), ParesAsignatura(als, s.id))
              && r.value.matriculas == db.matriculas[|old(db.matriculas)|..]
              && |r.value.matriculas| == |als|
              && r.value.mensaje == MensajeAsignaturaCreada(|als|)
    ensures db.usuarios == old(db.usuarios) && db.alumnos == old(db.alumnos) && db.docentes == old(db.docentes)
    ensures db.notas == old(db.notas) && db.historiales == old(db.historiales)
  {
    var k := BuscarDocente(db.docentes, docenteId);
    if k.None? {
      return Err(NoEncontrado("Docente no encontrado"));
    }
    var id := NextId(Mapear(db.asignaturas, AsignaturaId));
    var s := Asignatura(id, nombre, ciclo, docenteId);
    forall i | 0 <= i < |db.asignaturas| ensures db.asignaturas[i].id < id {
      MapearEn(db.asignaturas, AsignaturaId, i);
    }
    forall j | 0 <= j < |db.matriculas| ensures db.matriculas[j].asignaturaId != id {
      assert ExisteAsignatura(db.asignaturas, db.matriculas[j].asignaturaId);
    }
    var als := AlumnosDelCiclo(db.alumnos, ciclo);
    FilterUniqueKey(db.alumnos, (a: Alumno) => a.ciclo == ciclo, AlumnoId);
    MatriculasDeAsignaturaNueva(db.matriculas, als, id);
    AsignaturaNuevaValida(db, s);
    db.asignaturas := db.asignaturas + [s];
    var nuevas := ParesAsignatura(als, id);
    forall j | 0 <= j < |nuevas| ensures ExisteAsignatura(db.asignaturas, nuevas[j].asignaturaId) {
      assert db.asignaturas[|db.asignaturas| - 1].id == id;
    }
    var creadas := InsertarMatriculas(db, nuevas);
    return Ok(ResultadoAsignatura(s, db.docentes[k.value], creadas, MensajeAsignaturaCreada(|creadas|)));
  }

  /** Adding a subject with a fresh key and an existing teacher keeps the
      tables consistent. */
  lemma AsignaturaNuevaValida(db: Escuela, s: Asignatura)
    requires db.Valid()
    requires forall j | 0 <= j < |db.asignaturas| :: db.asignaturas[j].id < s.id
    requires ExisteDocente(db.docentes, s.docenteId)
    ensures var ss := db.asignaturas + [s];
            && UniqueKey(ss, AsignaturaId)
            && (forall k | 0 <= k < |db.matriculas| :: ExisteAsignatura(ss, db.matriculas[k].asignaturaId))
            && (forall k | 0 <= k < |db.notas| :: ExisteAsignatura(ss, db.notas[k].asignaturaId))
            && (forall k | 0 <= k < |ss| :: ExisteDocente(db.docentes, ss[k].docenteId))
  {
    var ss := db.asignaturas + [s];
    forall k | 0 <= k < |db.matriculas| ensures ExisteAsignatura(ss, db.matriculas[k].asignaturaId) {
      var j :| 0 <= j < |db.asignaturas| && db.asignaturas[j].id == db.matriculas[k].asignaturaId;
      assert ss[j] == db.asignaturas[j];
    }
    forall k | 0 <= k < |db.notas| ensures ExisteAsignatura(ss, db.notas[k].asignaturaId) {
      var j :| 0 <= j < |db.asignaturas| && db.asignaturas[j].id == db.notas[k].asignaturaId;
      assert ss[j] == db.asignaturas[j];
    }
  }

  // ---------------------------------------------------------------------
  // Guarded deletions.

  /** The teacher table without the rows of key `id`; every other row stays. */
  function SinDocente(docentes: seq<Docente>, id: int): (r: seq<Docente>)
    ensures forall k | 0 <= k < |r| :: r[k].id != id && r[k] in docentes
    ensures forall d | d in docentes && d.id != id :: d in r
  {
    var r := Filter(docentes, (d: Docente) => d.id != id);
    assert forall d | d in docentes && d.id != id :: d in r by {
      forall d | d in docentes && d.id != id ensures d in r {
        var j :| 0 <= j < |docentes| && docentes[j] == d;
      }
    }
    r
  }

  /** The user table without the rows of key `id`; every other row stays. */
  function SinUsuario(usuarios: seq<Usuario>, id: int): (r: seq<Usuario>)
    ensures forall k | 0 <= k < |r| :: r[k].id != id && r[k] in usuarios
    ensures forall u | u in usuarios && u.id != id :: u in r
  {
    var r := Filter(usuarios, (u: Usuario) => u.id != id);
    assert forall u | u in usuarios && u.id != id :: u in r by {
      forall u | u in usuarios && u.id != id ensures u in r {
        var j :| 0 <= j < |usuarios| && usuarios[j] == u;
      }
    }
    r
  }

  const DocenteConAsignaturas := "No se puede eliminar el docente porque tiene asignaturas asignadas"

  /** `eliminar_docente`: 404 for an unknown key, 400 while the teacher has a
      subject; otherwise the teacher and their user account are removed. */
  method EliminarDocente(db: Escuela, docenteId: int) returns (r: Result<string, Error>)
    requires db.Valid()
    modifies db
    ensures db.Valid()
    ensures BuscarDocente(old(db.docentes), docenteId).None? ==>
              r == Err(NoEncontrado("Docente no encontrado"))
    ensures BuscarDocente(old(db.docentes), docenteId).Some? && AsignaturasDeDocente(old(db.asignaturas), docenteId) != [] ==>
              r == Err(SolicitudInvalida(DocenteConAsignaturas))
    ensures r.Err? ==> db.docentes == old(db.docentes) && db.usuarios == old(db.usuarios)
    ensures r.Ok? <==> BuscarDocente(old(db.docentes), docenteId).Some? && AsignaturasDeDocente(old(db.asignaturas), docenteId) == []
    ensures r.Ok? ==>
              var d := old(db.docentes)[BuscarDocente(old(db.docentes), docenteId).value];
              && r.value == "Docente eliminado correctamente"
              && db.docentes == SinDocente(old(db.docentes), docenteId)
              && db.usuarios == SinUsuario(old(db.usuarios), d.usuarioId)
    ensures db.alumnos == old(db.alumnos) && db.asignaturas == old(db.asignaturas) && db.matriculas == old(db.matriculas)
    ensures db.notas == old(db.notas) && db.historiales == old(db.historiales)
  {
    var k := BuscarDocente(db.docentes, docenteId);
    if k.None? {
      return Err(NoEncontrado("Docente no encontrado"));
    }
    if AsignaturasDeDocente(db.asignaturas, docenteId) != [] {
      return Err(SolicitudInvalida(DocenteConAsignaturas));
    }
    var d := db.docentes[k.value];
    forall j | 0 <= j < |db.asignaturas| ensures ExisteDocente(SinDocente(db.docentes, docenteId), db.asignaturas[j].docenteId) {
      assert db.asignaturas[j] !in AsignaturasDeDocente(db.asignaturas, docenteId);
      var i :| 0 <= i < |db.docentes| && db.docentes[i].id == db.asignaturas[j].docenteId;
      assert db.docentes[i] in SinDocente(db.docentes, docenteId);
    }
    FilterUniqueKey(db.docentes, (x: Docente) => x.id != docenteId, DocenteId);
    FilterUniqueKey(db.usuarios, (u: Usuario) => u.id != d.usuarioId, UsuarioId);
    db.usuarios := SinUsuario(db.usuarios, d.usuarioId);
    db.docentes := SinDocente(db.docentes, docenteId);
    return Ok("Docente eliminado correctamente");
  }

  /** The grades of a subject (`filter(Nota.asignatura_id == id)`). */
  function NotasDeAsignatura(notas: seq<Nota>, asignaturaId: int): seq<Nota>
  {
    Filter(notas, (n: Nota) => n.asignaturaId == asignaturaId)
  }

  /** The enrollments in a subject. */
  function MatriculasDeAsignatura(ms: seq<Matricula>, asignaturaId: int): seq<Matricula>
  {
    Filter(ms, (m: Matricula) => m.asignaturaId == asignaturaId)
  }

  /** The subject table without the rows of key `id`; every other row stays. */
  function SinAsignatura(asignaturas: seq<Asignatura>, id: int): (r: seq<Asignatura>)
    ensures forall k | 0 <= k < |r| :: r[k].id != id && r[k] in asignaturas
    ensures forall s | s in asignaturas && s.id != id :: s in r
  {
    var r := Filter(asignaturas, (s: Asignatura) => s.id != id);
    assert forall s | s in asignaturas && s.id != id :: s in r by {
      forall s | s in asignaturas && s.id != id ensures s in r {
        var j :| 0 <= j < |asignaturas| && asignaturas[j] == s;
      }
    }
    r
  }

  function MensajeConNotas(n: nat): string
  {
    "No se puede eliminar la asignatura porque tiene " + NatToString(n) +
    " nota(s) registrada(s). Elimine las notas primero."
  }

  function MensajeConMatriculas(n: nat): string
  {
    "No se puede eliminar la asignatura porque tiene " + NatToString(n) +
    " matr\U{ED}cula(s) activa(s). Elimine las matr\U{ED}culas primero."
  }

  /** A subject no grade and no enrollment refers to can go without leaving
      a dangling reference. */
  lemma SinAsignaturaValida(db: Escuela, id: int)
    requires db.Valid()
    requires NotasDeAsignatura(db.notas, id) == [] && MatriculasDeAsignatura(db.matriculas, id) == []
    ensures var ss := SinAsignatura(db.asignaturas, id);
            && UniqueKey(ss, AsignaturaId)
            && (forall k | 0 <= k < |db.matriculas| :: ExisteAsignatura(ss, db.matriculas[k].asignaturaId))
            && (forall k | 0 <= k < |db.notas| :: ExisteAsignatura(ss, db.notas[k].asignaturaId))
            && (forall k | 0 <= k < |ss| :: ExisteDocente(db.docentes, ss[k].docenteId))
  {
    var ss := SinAsignatura(db.asignaturas, id);
    FilterUniqueKey(db.asignaturas, (s: Asignatura) => s.id != id, AsignaturaId);
    forall k | 0 <= k < |db.matriculas| ensures ExisteAsignatura(ss, db.matriculas[k].asignaturaId) {
      assert db.matriculas[k] !in MatriculasDeAsignatura(db.matriculas, id);
      var i :| 0 <= i < |db.asignaturas| && db.asignaturas[i].id == db.matriculas[k].asignaturaId;
      assert db.asignaturas[i] in ss;
    }
    forall k | 0 <= k < |db.notas| ensures ExisteAsignatura(ss, db.notas[k].asignaturaId) {
      assert db.notas[k] !in NotasDeAsignatura(db.notas, id);
      var i :| 0 <= i < |db.asignaturas| && db.asignaturas[i].id == db.notas[k].asignaturaId;
      assert db.asignaturas[i] in ss;
    }
    forall k | 0 <= k < |ss| ensures ExisteDocente(db.docentes, ss[k].docenteId) {
      var i :| 0 <= i < |db.asignaturas| && db.asignaturas[i] == ss[k];
    }
  }

  /** `eliminar_asignatura`: 404 for an unknown key; 400 while the subject has
      grades, then 400 while it has enrollments; otherwise it is removed. */
  method EliminarAsignatura(db: Escuela, asignaturaId: int) returns (r: Result<string, Error>)
    requires db.Valid()
    modifies db
    ensures db.Valid()
    ensures var existe := BuscarAsignatura(old(db.asignaturas), asignaturaId).Some?;
            var notas := NotasDeAsignatura(old(db.notas), asignaturaId);
            var ms := MatriculasDeAsignatura(old(db.matriculas), asignaturaId);
            && (!existe ==> r == Err(NoEncontrado("Asignatura no encontrada")))
            && (existe && notas != [] ==> r == Err(SolicitudInvalida(MensajeConNotas(|notas|))))
            && (existe && notas == [] && ms != [] ==> r == Err(SolicitudInvalida(MensajeConMatriculas(|ms|))))
            && (r.Ok? <==> existe && notas == [] && ms == [])
    ensures r.Err? ==> db.asignaturas == old(db.asignaturas)
    ensures r.Ok? ==> r.value == "Asignatura eliminada correctamente"
                      && db.asignaturas == SinAsignatura(old(db.asignaturas), asignaturaId)
    ensures db.usuarios == old(db.usuarios) && db.alumnos == old(db.alumnos) && db.docentes == old(db.docentes)
    ensures db.notas == old(db.notas) && db.matriculas == old(db.matriculas) && db.historiales == old(db.historiales)
  {
    if BuscarAsignatura(db.asignaturas, asignaturaId).None? {
      return Err(NoEncontrado("Asignatura no encontrada"));
    }
    var notas := NotasDeAsignatura(db.notas, asignaturaId);
    if |notas| > 0 {
      return Err(SolicitudInvalida(MensajeConNotas(|notas|)));
    }
    var ms := MatriculasDeAsignatura(db.matriculas, asignaturaId);
    if ms != [] {
      return Err(SolicitudInvalida(MensajeConMatriculas(|ms|)));
    }
    SinAsignaturaValida(db, asignaturaId);
    db.asignaturas := SinAsignatura(db.asignaturas, asignaturaId);
    return Ok("Asignatura eliminada correctamente");
  }

  /** `eliminar_matricula`: 404 when the pair is not enrolled; otherwise
      exactly that pair, one row, is removed. */
  method EliminarMatricula(db: Escuela, alumnoId: int, asignaturaId: int) returns (r: Result<string, Error>)
    requires db.Valid()
    modifies db
    ensures db.Valid()
    ensures var m := Matricula(alumnoId, asignaturaId);
            && (m !in old(db.matriculas) ==>
                  r == Err(NoEncontrado("Matr\U{ED}cula no encontrada")) && db.matriculas == old(db.matriculas))
            && (m in old(db.matriculas) ==>
                  && r == Ok("Matr\U{ED}cula eliminada correctamente")
                  && db.matriculas == Quitar(old(db.matriculas), m)
                  && Pares(db.matriculas) == Pares(old(db.matriculas)) - {m}
                  && |db.matriculas| == |old(db.matriculas)| - 1)
    ensures db.usuarios == old(db.usuarios) && db.alumnos == old(db.alumnos) && db.docentes == old(db.docentes)
    ensures db.asignaturas == old(db.asignaturas) && db.notas == old(db.notas) && db.historiales == old(db.historiales)
  {
    var m := Matricula(alumnoId, asignaturaId);
    if m !in db.matriculas {
      return Err(NoEncontrado("Matr\U{ED}cula no encontrada"));
    }
    QuitarUno(db.matriculas, m);
    db.matriculas := Quitar(db.matriculas, m);
    return Ok("Matr\U{ED}cula eliminada correctamente");
  }
}
