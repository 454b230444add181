/** The academic-history router: the student's own history (generated on
    first request from the previous cycle's subjects), the history of any
    student for an admin or for that student, and the admin's snapshot of a
    student's current cycle. */
module HistorialRoutes {
  import opened Modelo
  import opened Ciclos
  import opened Instantanea
  import opened AdminRoutes
  import CiclosEjemplos

  const AlumnoNoEncontrado := "Alumno no encontrado"
  const SinPermisoHistorial := "No tienes permiso para ver este historial acad\U{E9}mico"
  /** The message of the `AttributeError` raised by `None.id`. */
  const SinAtributoId := "'NoneType' object has no attribute 'id'"

  /** The stored histories of a student, in table order. */
  function HistorialesDe(hs: seq<Historial>, alumnoId: int): seq<Historial>
  {
    Filter(hs, (h: Historial) => h.alumnoId == alumnoId)
  }

  /** Storing a history adds it, and only it, to its student's histories. */
  lemma HistorialesDeAgregar(hs: seq<Historial>, h: Historial, alumnoId: int)
    ensures HistorialesDe(hs + [h], alumnoId) ==
              HistorialesDe(hs, alumnoId) + (if h.alumnoId == alumnoId then [h] else [])
  {
    FilterPush(hs, h, (h: Historial) => h.alumnoId == alumnoId);
  }

  // ---------------------------------------------------------------------
  // The student's own history.

  /** The label of the cycle before `ciclo`: the numeral one below for
      II..VI, a fixed placeholder for anything else; "II" is set to "I" a
      second time after the chain. */
  function CicloAnterior(ciclo: string): string
  {
    var anterior :=
      if ciclo == "II" then "I"
      else if ciclo == "III" then "II"
      else if ciclo == "IV" then "III"
      else if ciclo == "V" then "IV"
      else if ciclo == "VI" then "V"
      else "Ciclo Anterior";
    if ciclo == "II" then "I" else anterior
  }

  /** The labels II..VI, whose predecessor is a numeral. */
  const ConAnterior: seq<string> := ["II", "III", "IV", "V", "VI"]

  /** The map undoes promotion on II..VI: the cycle after the previous one is
      the cycle itself. */
  lemma CicloAnteriorInverso(ciclo: string)
    requires ciclo in ConAnterior
    ensures NextCycle(CicloAnterior(ciclo)) == Ok(ciclo)
  {
    var k :| 0 <= k < 5 && ConAnterior[k] == ciclo;
    assert Romanos[k + 1] == ciclo && CicloAnterior(ciclo) == Romanos[k];
    CiclosEjemplos.SiguienteNumeral(k);
  }

  /** Every other label gets the placeholder. */
  lemma CicloAnteriorOtro(ciclo: string)
    ensures ciclo !in ConAnterior <==> CicloAnterior(ciclo) == "Ciclo Anterior"
  {
  }

  /** Whether an enrolled subject goes into the generated history: it is of
      the previous cycle, or the student is in "II" and it is of "I". */
  predicate DelCicloAnterior(al: Alumno, s: Asignatura)
  {
    s.ciclo == CicloAnterior(al.ciclo) || (al.ciclo == "II" && s.ciclo == "I")
  }

  /** The enrolled subjects the generated history holds, in table order. */
  function AsignaturasAnteriores(al: Alumno, asignaturas: seq<Asignatura>, matriculas: seq<Matricula>): seq<Asignatura>
  {
    Filter(asignaturas, (s: Asignatura) => Matricula(al.id, s.id) in matriculas && DelCicloAnterior(al, s))
  }

  /** The history generated for a student without one. */
  function HistorialGenerado(al: Alumno, asignaturas: seq<Asignatura>, matriculas: seq<Matricula>,
                             notas: seq<Nota>, ahora: int): Historial
  {
    Historial(al.id, CicloAnterior(al.ciclo),
              Entradas(notas, al.id, AsignaturasAnteriores(al, asignaturas, matriculas)) + [Cultura(ahora)])
  }

  /** The generated history is labelled with the previous cycle and holds one
      entry per enrolled subject of exactly that cycle, followed by the
      "Cultura" entry. */
  lemma HistorialGeneradoContenido(al: Alumno, asignaturas: seq<Asignatura>, matriculas: seq<Matricula>,
                                   notas: seq<Nota>, ahora: int)
    ensures var h := HistorialGenerado(al, asignaturas, matriculas, notas, ahora);
            var sel := AsignaturasAnteriores(al, asignaturas, matriculas);
            && h.alumnoId == al.id && h.ciclo == CicloAnterior(al.ciclo)
            && |h.asignaturas| == |sel| + 1
            && h.asignaturas[|sel|] == Cultura(ahora)
            && (forall k | 0 <= k < |sel| ::
                  && h.asignaturas[k] == EntradaHistorial(notas, al.id, sel[k])
                  && sel[k].ciclo == CicloAnterior(al.ciclo)
                  && Matricula(al.id, sel[k].id) in matriculas)
            && (forall s | s in asignaturas && s.ciclo == CicloAnterior(al.ciclo) && Matricula(al.id, s.id) in matriculas ::
                  s in sel)
  {
    var sel := AsignaturasAnteriores(al, asignaturas, matriculas);
    forall s | s in asignaturas && s.ciclo == CicloAnterior(al.ciclo) && Matricula(al.id, s.id) in matriculas
      ensures s in sel
    {
      assert DelCicloAnterior(al, s);
    }
  }

  /** `get_mi_historial_academico` for the student logged in as `usuarioId`;
      `ahora` is the database clock.  A history is generated only when the
      student has none, so a second call returns what the first stored. */
  method ObtenerMiHistorial(db: Escuela, usuarioId: int, ahora: int) returns (r: Result<seq<Historial>, Error>)
    requires db.Valid()
    modifies db
    ensures db.Valid()
    ensures db.usuarios == old(db.usuarios) && db.alumnos == old(db.alumnos) && db.docentes == old(db.docentes)
    ensures db.asignaturas == old(db.asignaturas) && db.notas == old(db.notas) && db.matriculas == old(db.matriculas)
    ensures var k := BuscarAlumnoDeUsuario(db.alumnos, usuarioId);
            && (k.None? <==> r == Err(NoEncontrado(AlumnoNoEncontrado)))
            && (k.None? ==> db.historiales == old(db.historiales))
            && (k.Some? ==>
                  var al := db.alumnos[k.value];
                  var previos := HistorialesDe(old(db.historiales), al.id);
                  && (previos != [] ==> db.historiales == old(db.historiales) && r == Ok(previos))
                  && (previos == [] ==>
                        var h := HistorialGenerado(al, db.asignaturas, db.matriculas, db.notas, ahora);
                        db.historiales == old(db.historiales) + [h] && r == Ok([h]))
                  && r.Ok? && r.value != [] && r.value == HistorialesDe(db.historiales, al.id))
  {
    var k := BuscarAlumnoDeUsuario(db.alumnos, usuarioId);
    if k.None? {
      return Err(NoEncontrado(AlumnoNoEncontrado));
    }
    var al := db.alumnos[k.value];
    var historiales := HistorialesDe(db.historiales, al.id);
    if historiales == [] {
      var anterior := CicloAnterior(al.ciclo);
      var seleccionadas := AsignaturasAnteriores(al, db.asignaturas, db.matriculas);
      var entradas := CopiarAsignaturas(db, al.id, seleccionadas);
      var h := Historial(al.id, anterior, entradas + [Cultura(ahora)]);
      HistorialesDeAgregar(db.historiales, h, al.id);
      db.historiales := db.historiales + [h];
      historiales := [h];
    }
    return Ok(historiales);
  }

  // ---------------------------------------------------------------------
  // Reading any student's history.

  /** The access rule of `get_historial_academico` as written: the
      `hasattr` test always holds, since every user has the `alumno`
      relationship, so a non-admin user who is no student reaches `None.id`
      and the request fails with an uncaught `AttributeError`. */
  function AccesoHistorialEscrito(u: Usuario, alumnos: seq<Alumno>, alumnoId: int): Result<(), Error>
  {
    if u.rol == RolAdmin then Ok(())
    else match BuscarAlumnoDeUsuario(alumnos, u.id)
      case None => Err(ErrorInterno(SinAtributoId))
      case Some(k) => if alumnos[k].id != alumnoId then Err(Prohibido(SinPermisoHistorial)) else Ok(())
  }

  /** The access rule as intended: an admin, or the student the history
      belongs to; anyone else is refused with 403. */
  function AccesoHistorial(u: Usuario, alumnos: seq<Alumno>, alumnoId: int): (r: Result<(), Error>)
    ensures var k := BuscarAlumnoDeUsuario(alumnos, u.id);
            r.Ok? <==> u.rol == RolAdmin || (k.Some? && alumnos[k.value].id == alumnoId)
    ensures r.Err? ==> r == Err(Prohibido(SinPermisoHistorial))
  {
    if u.rol == RolAdmin then Ok(())
    else match BuscarAlumnoDeUsuario(alumnos, u.id)
      case None => Err(Prohibido(SinPermisoHistorial))
      case Some(k) => if alumnos[k].id != alumnoId then Err(Prohibido(SinPermisoHistorial)) else Ok(())
  }

  /** Wherever the rule as written does not crash it decides as intended; it
      crashes exactly for a non-admin user who is not a student. */
  lemma AccesoEscritoSalvoFallo(u: Usuario, alumnos: seq<Alumno>, alumnoId: int)
    ensures (AccesoHistorialEscrito(u, alumnos, alumnoId).Err? && AccesoHistorialEscrito(u, alumnos, alumnoId).error.ErrorInterno?)
              <==> (u.rol != RolAdmin && BuscarAlumnoDeUsuario(alumnos, u.id).None?)
    ensures AccesoHistorialEscrito(u, alumnos, alumnoId) != Err(ErrorInterno(SinAtributoId)) ==>
              AccesoHistorialEscrito(u, alumnos, alumnoId) == AccesoHistorial(u, alumnos, alumnoId)
  {
  }

  /** A teacher asking for a student's history gets a 500 instead of a 403. */
  lemma AccesoEscritoDocente()
    ensures var u := Usuario(7, "Docente", "docente@escuela.edu", "hash", RolDocente, true);
            var alumnos := [Alumno(1, "Alumno", "12345678", "II", 9)];
            && AccesoHistorialEscrito(u, alumnos, 1) == Err(ErrorInterno(SinAtributoId))
            && AccesoHistorial(u, alumnos, 1) == Err(Prohibido(SinPermisoHistorial))
  {
    var alumnos := [Alumno(1, "Alumno", "12345678", "II", 9)];
    assert alumnos[0].usuarioId != 7;
  }

  /** `get_historial_academico` for user `u` and student `alumnoId`: the
      stored histories of that student (no check that the student exists).
      Access is decided by the corrected rule `AccesoHistorial`, so a
      non-admin user without a student row (a teacher) gets 403 rather than
      the 500 of `AccesoHistorialEscrito`. */
  function VerHistorial(u: Usuario, alumnos: seq<Alumno>, historiales: seq<Historial>, alumnoId: int): (r: Result<seq<Historial>, Error>)
    ensures r.Err? <==> AccesoHistorial(u, alumnos, alumnoId).Err?
    ensures r.Err? ==> r == Err(Prohibido(SinPermisoHistorial))
    ensures r.Ok? ==> (forall j | 0 <= j < |r.value| :: r.value[j].alumnoId == alumnoId && r.value[j] in historiales)
                      && (forall h | h in historiales && h.alumnoId == alumnoId :: h in r.value)
  {
    match AccesoHistorial(u, alumnos, alumnoId)
    case Err(e) => Err(e)
    case Ok(_) =>
      var r := HistorialesDe(historiales, alumnoId);
      assert forall h | h in historiales && h.alumnoId == alumnoId :: h in r by {
        forall h | h in historiales && h.alumnoId == alumnoId ensures h in r {
          var j :| 0 <= j < |historiales| && historiales[j] == h;
        }
      }
      Ok(r)
  }

  // ---------------------------------------------------------------------
  // The admin's snapshot of the current cycle.

  /** The snapshot `create_historial_academico` stores: labelled with the
      current cycle, one entry per enrolled subject of that cycle, and no
      "Cultura" entry. */
  function HistorialDelCiclo(al: Alumno, asignaturas: seq<Asignatura>, matriculas: seq<Matricula>, notas: seq<Nota>): Historial
  {
    Historial(al.id, al.ciclo, Entradas(notas, al.id, AsignaturasActuales(al, asignaturas, matriculas)))
  }

  /** It is the snapshot promotion stores, without the "Cultura" entry that
      promotion adds from cycle I to II. */
  lemma HistorialDelCicloEsPromocion(al: Alumno, asignaturas: seq<Asignatura>, matriculas: seq<Matricula>,
                                     notas: seq<Nota>, siguiente: string, ahora: int)
    ensures var actuales := AsignaturasActuales(al, asignaturas, matriculas);
            var p := HistorialPromocion(al, actuales, notas, siguiente, ahora);
            var h := HistorialDelCiclo(al, asignaturas, matriculas, notas);
            && p.alumnoId == h.alumnoId && p.ciclo == h.ciclo
            && p.asignaturas[..|h.asignaturas|] == h.asignaturas
            && (p.asignaturas == h.asignaturas <==> !(al.ciclo == "I" && siguiente == "II"))
  {
    var actuales := AsignaturasActuales(al, asignaturas, matriculas);
    var es := Entradas(notas, al.id, actuales);
    assert (es + [Cultura(ahora)])[..|es|] == es;
    assert |es + [Cultura(ahora)]| != |es|;
  }

  /** `create_historial_academico` for student `alumnoId`: stores and returns
      the current-cycle snapshot and leaves the student's cycle as it is. */
  method CrearHistorialAcademico(db: Escuela, alumnoId: int) returns (r: Result<Historial, Error>)
    requires db.Valid()
    modifies db
    ensures db.Valid()
    ensures db.usuarios == old(db.usuarios) && db.alumnos == old(db.alumnos) && db.docentes == old(db.docentes)
    ensures db.asignaturas == old(db.asignaturas) && db.notas == old(db.notas) && db.matriculas == old(db.matriculas)
    ensures var k := BuscarAlumno(db.alumnos, alumnoId);
            && (k.None? <==> r == Err(NoEncontrado(AlumnoNoEncontrado)))
            && (k.None? ==> db.historiales == old(db.historiales))
            && (k.Some? ==>
                  var al := db.alumnos[k.value];
                  && r == Ok(HistorialDelCiclo(al, db.asignaturas, db.matriculas, db.notas))
                  && db.historiales == old(db.historiales) + [r.value]
                  && r.value.alumnoId == alumnoId && r.value.ciclo == al.ciclo)
  {
    var k := BuscarAlumno(db.alumnos, alumnoId);
    if k.None? {
      return Err(NoEncontrado(AlumnoNoEncontrado));
    }
    var al := db.alumnos[k.value];
    var actuales := AsignaturasActuales(al, db.asignaturas, db.matriculas);
    var entradas := CopiarAsignaturas(db, al.id, actuales);
    var h := Historial(alumnoId, al.ciclo, entradas);
    db.historiales := db.historiales + [h];
    return Ok(h);
  }
}
