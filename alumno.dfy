/** The student's router: the student only ever sees published grades, and
    the averages they are shown are computed over those alone. */
module AlumnoRoutes {
  import opened Modelo
  import opened Estadistica

  const AlumnoNoEncontrado := "Alumno no encontrado"
  const NoEstasMatriculado := "No est\U{E1}s matriculado en esta asignatura"

  /** The published grades of a student, in table order. */
  function PublicadasDe(notas: seq<Nota>, alumnoId: int): seq<Nota>
  {
    Filter(notas, (n: Nota) => n.alumnoId == alumnoId && n.publicada)
  }

  /** `mis_notas` for the student logged in as `usuarioId`. */
  function MisNotas(alumnos: seq<Alumno>, notas: seq<Nota>, usuarioId: int): (r: Result<seq<Nota>, Error>)
    ensures BuscarAlumnoDeUsuario(alumnos, usuarioId).None? <==> r == Err(NoEncontrado(AlumnoNoEncontrado))
  {
    match BuscarAlumnoDeUsuario(alumnos, usuarioId)
    case None => Err(NoEncontrado(AlumnoNoEncontrado))
    case Some(k) => Ok(PublicadasDe(notas, alumnos[k].id))
  }

  /** What `mis_notas` returns is exactly the student's published grades: no
      draft and nobody else's grade, and none of theirs left out. */
  lemma MisNotasSoloPublicadas(alumnos: seq<Alumno>, notas: seq<Nota>, usuarioId: int)
    ensures var r := MisNotas(alumnos, notas, usuarioId);
            r.Ok? ==>
              var al := alumnos[BuscarAlumnoDeUsuario(alumnos, usuarioId).value];
              && (forall k | 0 <= k < |r.value| :: r.value[k].publicada && r.value[k].alumnoId == al.id && r.value[k] in notas)
              && (forall n | n in notas && n.alumnoId == al.id && n.publicada :: n in r.value)
  {
    match BuscarAlumnoDeUsuario(alumnos, usuarioId)
    case None =>
    case Some(k) =>
      forall n | n in notas && n.alumnoId == alumnos[k].id && n.publicada
        ensures n in PublicadasDe(notas, alumnos[k].id)
      {
        var j :| 0 <= j < |notas| && notas[j] == n;
      }
  }

  /** `notas_por_asignatura`: 404 unless the student is enrolled in the
      subject; otherwise their published grades in it. */
  function NotasPorAsignatura(alumnos: seq<Alumno>, matriculas: seq<Matricula>, notas: seq<Nota>,
                              usuarioId: int, asignaturaId: int): (r: Result<seq<Nota>, Error>)
    ensures var k := BuscarAlumnoDeUsuario(alumnos, usuarioId);
            && (k.None? ==> r == Err(NoEncontrado(AlumnoNoEncontrado)))
            && (k.Some? && Matricula(alumnos[k.value].id, asignaturaId) !in matriculas ==>
                  r == Err(NoEncontrado(NoEstasMatriculado)))
            && (r.Ok? <==> k.Some? && Matricula(alumnos[k.value].id, asignaturaId) in matriculas)
            && (r.Ok? ==> forall j | 0 <= j < |r.value| ::
                            && r.value[j] in notas
                            && r.value[j].publicada
                            && r.value[j].alumnoId == alumnos[k.value].id
                            && r.value[j].asignaturaId == asignaturaId)
            && (r.Ok? ==> forall n | n in notas && n.alumnoId == alumnos[k.value].id && n.asignaturaId == asignaturaId && n.publicada ::
                            n in r.value)
  {
    match BuscarAlumnoDeUsuario(alumnos, usuarioId)
    case None => Err(NoEncontrado(AlumnoNoEncontrado))
    case Some(k) =>
      if Matricula(alumnos[k].id, asignaturaId) !in matriculas then Err(NoEncontrado(NoEstasMatriculado))
      else
        var p := (n: Nota) => n.alumnoId == alumnos[k].id && n.asignaturaId == asignaturaId && n.publicada;
        assert forall n | n in notas && p(n) :: n in Filter(notas, p) by {
          forall n | n in notas && p(n) ensures n in Filter(notas, p) {
            FilterIncluye(notas, p, n);
          }
        }
        Ok(NotasPublicadas(notas, alumnos[k].id, asignaturaId))
  }

  /** Average, count, best and worst of a set of grades; the extremes are
      absent when there are no grades. */
  datatype Resumen = Resumen(promedio: real, totalNotas: nat, notaMaxima: Option<real>, notaMinima: Option<real>)

  /** The summary of `mi_promedio` (and of one row of
      `promedio_por_asignatura`) over the given grades. */
  function Resumir(ns: seq<Nota>): (r: Resumen)
    ensures r.totalNotas == |ns|
    ensures ns == [] <==> r == Resumen(0.0, 0, None, None)
    ensures ns != [] ==> r.notaMaxima.Some? && r.notaMinima.Some?
  {
    if ns == [] then Resumen(0.0, 0, None, None)
    else
      var ps := Scores(ns);
      Resumen(Mean(ps), |ns|, Some(Max(ps)), Some(Min(ps)))
  }

  /** Over a non-empty set of grades the summary holds their mean, a best
      and a worst grade that occur among them and bound all of them, and the
      mean lies between the worst and the best. */
  lemma ResumirCorrecto(ns: seq<Nota>)
    requires ns != []
    ensures var r := Resumir(ns);
            && r.promedio * (|ns| as real) == Sum(Scores(ns))
            && r.notaMaxima.value in Scores(ns) && r.notaMinima.value in Scores(ns)
            && (forall k | 0 <= k < |ns| :: r.notaMinima.value <= ns[k].calificacion <= r.notaMaxima.value)
            && r.notaMinima.value <= r.promedio <= r.notaMaxima.value
  {
    ResumirMedia(ns);
    MeanBetween(Scores(ns));
  }

  lemma ResumirMedia(ns: seq<Nota>)
    requires ns != []
    ensures Resumir(ns).promedio * (|ns| as real) == Sum(Scores(ns))
  {
    var ps := Scores(ns);
    MeanTimesCount(ps);
    var n := |ns| as real;
    assert n == |ps| as real;
    assert Resumir(ns).promedio * n == Mean(ps) * (|ps| as real);
  }

  /** `mi_promedio`: the summary of all the student's published grades. */
  function MiPromedio(alumnos: seq<Alumno>, notas: seq<Nota>, usuarioId: int): (r: Result<Resumen, Error>)
    ensures var k := BuscarAlumnoDeUsuario(alumnos, usuarioId);
            && (k.None? <==> r == Err(NoEncontrado(AlumnoNoEncontrado)))
            && (r.Ok? ==> r.value.totalNotas == |PublicadasDe(notas, alumnos[k.value].id)|)
            && (r.Ok? && r.value.totalNotas == 0 ==> r.value.promedio == 0.0)
            && (r.Ok? ==> r.value == Resumir(PublicadasDe(notas, alumnos[k.value].id)))
            && (r.Ok? && r.value.totalNotas > 0 ==>
                  r.value.notaMinima.Some? && r.value.notaMaxima.Some? &&
                  r.value.notaMinima.value <= r.value.promedio <= r.value.notaMaxima.value)
  {
    match BuscarAlumnoDeUsuario(alumnos, usuarioId)
    case None => Err(NoEncontrado(AlumnoNoEncontrado))
    case Some(k) =>
      var ns := PublicadasDe(notas, alumnos[k].id);
      if ns == [] then Ok(Resumir(ns))
      else ResumirCorrecto(ns); Ok(Resumir(ns))
  }

  /** One row of `promedio_por_asignatura`; a subject without published
      grades reports zeros everywhere. */
  datatype PromedioAsignatura = PromedioAsignatura(
    asignaturaId: int, asignaturaNombre: string, promedio: real, totalNotas: nat, notaMaxima: real, notaMinima: real)

  function Fila(s: Asignatura, ns: seq<Nota>): PromedioAsignatura
  {
    var r := Resumir(ns);
    PromedioAsignatura(s.id, s.nombre, r.promedio, r.totalNotas,
                       if ns == [] then 0.0 else r.notaMaxima.value,
                       if ns == [] then 0.0 else r.notaMinima.value)
  }

  /** `f` summarises the grades `ns`: their count, zeros when there are
      none, and otherwise their mean (see `MeanTimesCount`), and a worst and
      a best grade that occur among them and bound them all. */
  predicate Resume(f: PromedioAsignatura, ns: seq<Nota>)
  {
    && f.totalNotas == |ns|
    && (ns == [] ==> f.promedio == 0.0 && f.notaMaxima == 0.0 && f.notaMinima == 0.0)
    && (ns != [] ==> f.promedio == Mean(Scores(ns))
                     && f.notaMaxima in Scores(ns) && f.notaMinima in Scores(ns)
                     && f.notaMinima <= f.promedio <= f.notaMaxima
                     && forall k | 0 <= k < |ns| :: f.notaMinima <= ns[k].calificacion <= f.notaMaxima)
  }

  lemma FilaResume(s: Asignatura, ns: seq<Nota>)
    ensures Resume(Fila(s, ns), ns) && Fila(s, ns).asignaturaId == s.id
  {
    if ns != [] {
      ResumirCorrecto(ns);
    }
  }

  /** The rows for the student's enrollments `ms`, in table order, skipping
      enrollments whose subject is gone. */
  function Filas(ms: seq<Matricula>, asignaturas: seq<Asignatura>, notas: seq<Nota>, alumnoId: int): seq<PromedioAsignatura>
  {
    if ms == [] then []
    else
      var previas := Filas(ms[..|ms| - 1], asignaturas, notas, alumnoId);
      var m := ms[|ms| - 1];
      if m.alumnoId != alumnoId then previas
      else match BuscarAsignatura(asignaturas, m.asignaturaId)
        case None => previas
        case Some(j) => previas + [Fila(asignaturas[j], NotasPublicadas(notas, alumnoId, asignaturas[j].id))]
  }

  /** The student's enrollments whose subject exists. */
  function MatriculasVigentes(ms: seq<Matricula>, asignaturas: seq<Asignatura>, alumnoId: int): seq<Matricula>
  {
    Filter(ms, (m: Matricula) => m.alumnoId == alumnoId && BuscarAsignatura(asignaturas, m.asignaturaId).Some?)
  }

  /** One row per enrollment of the student whose subject exists, in order;
      each row summarises that subject's published grades of the student. */
  lemma {:induction false} FilasCorrectas(ms: seq<Matricula>, asignaturas: seq<Asignatura>, notas: seq<Nota>, alumnoId: int)
    ensures var fs := Filas(ms, asignaturas, notas, alumnoId);
            var vs := MatriculasVigentes(ms, asignaturas, alumnoId);
            && |fs| == |vs|
            && forall k | 0 <= k < |fs| ::
                 && fs[k].asignaturaId == vs[k].asignaturaId
                 && Resume(fs[k], NotasPublicadas(notas, alumnoId, fs[k].asignaturaId))
  {
    if ms != [] {
      var ms' := ms[..|ms| - 1];
      var m := ms[|ms| - 1];
      assert ms == ms' + [m];
      FilasCorrectas(ms', asignaturas, notas, alumnoId);
      FilterPush(ms', m, (m: Matricula) => m.alumnoId == alumnoId && BuscarAsignatura(asignaturas, m.asignaturaId).Some?);
      if m.alumnoId == alumnoId && BuscarAsignatura(asignaturas, m.asignaturaId).Some? {
        var j := BuscarAsignatura(asignaturas, m.asignaturaId).value;
        FilaResume(asignaturas[j], NotasPublicadas(notas, alumnoId, asignaturas[j].id));
      }
    }
  }

  /** `promedio_por_asignatura` for the student logged in as `usuarioId`. */
  method PromedioPorAsignatura(db: Escuela, usuarioId: int) returns (r: Result<seq<PromedioAsignatura>, Error>)
    ensures var k := BuscarAlumnoDeUsuario(db.alumnos, usuarioId);
            && (k.None? <==> r == Err(NoEncontrado(AlumnoNoEncontrado)))
            && (k.Some? ==> r == Ok(Filas(db.matriculas, db.asignaturas, db.notas, db.alumnos[k.value].id)))
  {
    var k := BuscarAlumnoDeUsuario(db.alumnos, usuarioId);
    if k.None? {
      return Err(NoEncontrado(AlumnoNoEncontrado));
    }
    var alumnoId := db.alumnos[k.value].id;
    var resultados := [];
    var i := 0;
    while i < |db.matriculas|
      invariant 0 <= i <= |db.matriculas|
      invariant resultados == Filas(db.matriculas[..i], db.asignaturas, db.notas, alumnoId)
    {
      var m := db.matriculas[i];
      assert db.matriculas[..i + 1][..i] == db.matriculas[..i];
      if m.alumnoId == alumnoId {
        var s := BuscarAsignatura(db.asignaturas, m.asignaturaId);
        if s.Some? {
          var asignatura := db.asignaturas[s.value];
          var notas := NotasPublicadas(db.notas, alumnoId, asignatura.id);
          if notas != [] {
            var ps := Scores(notas);
            resultados := resultados + [PromedioAsignatura(asignatura.id, asignatura.nombre, Mean(ps), |notas|, Max(ps), Min(ps))];
          } else {
            resultados := resultados + [PromedioAsignatura(asignatura.id, asignatura.nombre, 0.0, 0, 0.0, 0.0)];
          }
        }
      }
      i := i + 1;
    }
    assert db.matriculas[..i] == db.matriculas;
    return Ok(resultados);
  }

  // ---------------------------------------------------------------------
  // Password change.

  const ContrasenaIncorrecta := "La contrase\U{F1}a actual es incorrecta"
  const ContrasenaCorta := "La nueva contrase\U{F1}a debe tener al menos 6 caracteres"

  /** `cambiar_contrasena` for the logged-in user `usuarioId`.  Password
      checking and hashing are outside the model: `verifica` stands for
      `verify_password` and `nuevoHash` for the hash of the new password. */
  method CambiarContrasena(db: Escuela, usuarioId: int, actual: string, nueva: string,
                           verifica: (string, string) -> bool, nuevoHash: string) returns (r: Result<string, Error>)
    requires db.Valid() && BuscarUsuario(db.usuarios, usuarioId).Some?
    modifies db
    ensures db.Valid()
    ensures var u := old(db.usuarios[BuscarUsuario(db.usuarios, usuarioId).value]);
            && (!verifica(actual, u.passwordHash) ==> r == Err(SolicitudInvalida(ContrasenaIncorrecta)))
            && (verifica(actual, u.passwordHash) && |nueva| < 6 ==> r == Err(SolicitudInvalida(ContrasenaCorta)))
            && (r.Ok? <==> verifica(actual, u.passwordHash) && |nueva| >= 6)
    ensures r.Ok? ==> r.value == "Contrase\U{F1}a actualizada correctamente"
                      && db.usuarios == ConHash(old(db.usuarios), usuarioId, nuevoHash)
    ensures r.Err? ==> db.usuarios == old(db.usuarios)
    ensures db.alumnos == old(db.alumnos) && db.docentes == old(db.docentes) && db.asignaturas == old(db.asignaturas)
    ensures db.notas == old(db.notas) && db.matriculas == old(db.matriculas) && db.historiales == old(db.historiales)
  {
    var u := db.usuarios[BuscarUsuario(db.usuarios, usuarioId).value];
    if !verifica(actual, u.passwordHash) {
      return Err(SolicitudInvalida(ContrasenaIncorrecta));
    }
    if |nueva| < 6 {
      return Err(SolicitudInvalida(ContrasenaCorta));
    }
    ConHashUnico(db.usuarios, usuarioId, nuevoHash);
    db.usuarios := ConHash(db.usuarios, usuarioId, nuevoHash);
    return Ok("Contrase\U{F1}a actualizada correctamente");
  }
}
