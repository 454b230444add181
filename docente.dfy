/** The teacher's router: the life cycle of a grade (recorded as a draft,
    edited, published, withdrawn, deleted), the students grouped by cycle,
    and the guards before a grade notification. */
module DocenteRoutes {
  import opened Modelo
  import opened Orden

  const DocenteNoEncontrado := "Docente no encontrado"
  const SinAcceso := "Asignatura no encontrada o no tienes acceso a ella"
  const NoMatriculado := "El alumno no est\U{E1} matriculado en esta asignatura"
  const FueraDeRango := "La calificaci\U{F3}n debe estar entre 0 y 20"
  const NotaNoEncontrada := "Nota no encontrada"
  const YaPublicada := "Esta nota ya est\U{E1} publicada"
  const YaDespublicada := "Esta nota ya est\U{E1} despublicada"

  /** The subject `asignaturaId` exists and is taught by `docenteId`. */
  predicate Imparte(asignaturas: seq<Asignatura>, docenteId: int, asignaturaId: int)
  {
    exists j | 0 <= j < |asignaturas| :: asignaturas[j].id == asignaturaId && asignaturas[j].docenteId == docenteId
  }

  /** The ownership query of `registrar_nota`, `actualizar_nota`,
      `eliminar_nota` and `enviar_todas_las_notas`: one filter on both the
      subject key and the teacher. */
  function BuscarPropia(asignaturas: seq<Asignatura>, docenteId: int, asignaturaId: int): (r: Option<nat>)
    ensures r.Some? <==> Imparte(asignaturas, docenteId, asignaturaId)
  {
    Find(asignaturas, (s: Asignatura) => s.id == asignaturaId && s.docenteId == docenteId, 0)
  }

  /** The ownership test of `publicar_nota` and `despublicar_nota`: look the
      subject up by key, then compare its teacher. */
  predicate PropiaSegunBusqueda(asignaturas: seq<Asignatura>, docenteId: int, asignaturaId: int)
  {
    match BuscarAsignatura(asignaturas, asignaturaId)
    case None => false
    case Some(j) => asignaturas[j].docenteId == docenteId
  }

  /** With the subject key unique, both ownership tests agree. */
  lemma PropiaSegunBusquedaImparte(asignaturas: seq<Asignatura>, docenteId: int, asignaturaId: int)
    requires UniqueKey(asignaturas, AsignaturaId)
    ensures PropiaSegunBusqueda(asignaturas, docenteId, asignaturaId) <==> Imparte(asignaturas, docenteId, asignaturaId)
  {
    if Imparte(asignaturas, docenteId, asignaturaId) {
      var j :| 0 <= j < |asignaturas| && asignaturas[j].id == asignaturaId && asignaturas[j].docenteId == docenteId;
      var i := BuscarAsignatura(asignaturas, asignaturaId).value;
      assert i <= j;
      assert i == j;
    }
  }

  /** The accepted score range, bounds included. */
  predicate EnRango(c: real)
  {
    0.0 <= c <= 20.0
  }

  // ---------------------------------------------------------------------
  // The publication flag.

  /** `publicar_nota` on one grade: refused when already published. */
  function Publicar(n: Nota): (r: Result<Nota, Error>)
    ensures r.Ok? <==> !n.publicada
    ensures r.Ok? ==> r.value.publicada && r.value.(publicada := n.publicada) == n
    ensures r.Err? ==> r.error == SolicitudInvalida(YaPublicada)
  {
    if n.publicada then Err(SolicitudInvalida(YaPublicada)) else Ok(n.(publicada := true))
  }

  /** `despublicar_nota` on one grade: refused when it is a draft. */
  function Despublicar(n: Nota): (r: Result<Nota, Error>)
    ensures r.Ok? <==> n.publicada
    ensures r.Ok? ==> !r.value.publicada && r.value.(publicada := n.publicada) == n
    ensures r.Err? ==> r.error == SolicitudInvalida(YaDespublicada)
  {
    if !n.publicada then Err(SolicitudInvalida(YaDespublicada)) else Ok(n.(publicada := false))
  }

  /** Publishing then withdrawing a draft gives the draft back, and the other
      way round; each transition succeeds exactly once in a row. */
  lemma PublicarDespublicar(n: Nota)
    ensures !n.publicada ==> Publicar(n).Ok? && Despublicar(Publicar(n).value) == Ok(n)
    ensures n.publicada ==> Despublicar(n).Ok? && Publicar(Despublicar(n).value) == Ok(n)
    ensures Publicar(n).Ok? ==> Publicar(Publicar(n).value).Err?
    ensures Despublicar(n).Ok? ==> Despublicar(Despublicar(n).value).Err?
  {
  }

  // ---------------------------------------------------------------------
  // Recording and editing grades.

  /** `registrar_nota` for the teacher logged in as user `usuarioId`: the
      grade is stored as a draft under a fresh key, dated `ahora`. */
  method RegistrarNota(db: Escuela, usuarioId: int, alumnoId: int, asignaturaId: int,
                       calificacion: real, tipoNota: string, ahora: int) returns (r: Result<Nota, Error>)
    requires db.Valid()
    modifies db
    ensures db.Valid()
    ensures var d := BuscarDocenteDeUsuario(old(db.docentes), usuarioId);
            var propia := d.Some? && Imparte(old(db.asignaturas), old(db.docentes)[d.value].id, asignaturaId);
            var matriculado := Matricula(alumnoId, asignaturaId) in old(db.matriculas);
            && (d.None? ==> r == Err(NoEncontrado(DocenteNoEncontrado)))
            && (d.Some? && !propia ==> r == Err(NoEncontrado(SinAcceso)))
            && (propia && !matriculado ==> r == Err(SolicitudInvalida(NoMatriculado)))
            && (propia && matriculado && !EnRango(calificacion) ==> r == Err(SolicitudInvalida(FueraDeRango)))
            && (r.Ok? <==> propia && matriculado && EnRango(calificacion))
    ensures r.Ok? ==>
              && r.value == Nota(NextId(Mapear(old(db.notas), NotaId)), alumnoId, asignaturaId, calificacion, tipoNota, ahora, false)
              && db.notas == old(db.notas) + [r.value]
    ensures r.Err? ==> db.notas == old(db.notas)
    ensures db.usuarios == old(db.usuarios) && db.alumnos == old(db.alumnos) && db.docentes == old(db.docentes)
    ensures db.asignaturas == old(db.asignaturas) && db.matriculas == old(db.matriculas) && db.historiales == old(db.historiales)
  {
    var d := BuscarDocenteDeUsuario(db.docentes, usuarioId);
    if d.None? {
      return Err(NoEncontrado(DocenteNoEncontrado));
    }
    var s := BuscarPropia(db.asignaturas, db.docentes[d.value].id, asignaturaId);
    if s.None? {
      return Err(NoEncontrado(SinAcceso));
    }
    if Matricula(alumnoId, asignaturaId) !in db.matriculas {
      return Err(SolicitudInvalida(NoMatriculado));
    }
    if !(0.0 <= calificacion <= 20.0) {
      return Err(SolicitudInvalida(FueraDeRango));
    }
    var n := Nota(NextId(Mapear(db.notas, NotaId)), alumnoId, asignaturaId, calificacion, tipoNota, ahora, false);
    assert forall k | 0 <= k < |db.notas| :: NotaId(db.notas[k]) < NotaId(n) by {
      forall k | 0 <= k < |db.notas| ensures NotaId(db.notas[k]) < NotaId(n) {
        MapearEn(db.notas, NotaId, k);
      }
    }
    assert ExisteAsignatura(db.asignaturas, asignaturaId) by {
      assert db.asignaturas[s.value].id == asignaturaId;
    }
    db.notas := db.notas + [n];
    return Ok(n);
  }

  /** The checks shared by `actualizar_nota` and `eliminar_nota`: the caller is
      a teacher, the grade exists, and its subject is theirs (403 otherwise,
      with the handler's own wording). */
  function AccesoNota(db: Escuela, usuarioId: int, notaId: int, prohibido: string): (r: Result<nat, Error>)
    reads db
    ensures r.Ok? ==> r.value < |db.notas| && db.notas[r.value].id == notaId
    ensures r.Ok? <==>
              && BuscarDocenteDeUsuario(db.docentes, usuarioId).Some?
              && BuscarNota(db.notas, notaId).Some?
              && Imparte(db.asignaturas, db.docentes[BuscarDocenteDeUsuario(db.docentes, usuarioId).value].id,
                         db.notas[BuscarNota(db.notas, notaId).value].asignaturaId)
    ensures BuscarDocenteDeUsuario(db.docentes, usuarioId).None? ==> r == Err(NoEncontrado(DocenteNoEncontrado))
    ensures BuscarDocenteDeUsuario(db.docentes, usuarioId).Some? && BuscarNota(db.notas, notaId).None? ==>
              r == Err(NoEncontrado(NotaNoEncontrada))
    ensures BuscarDocenteDeUsuario(db.docentes, usuarioId).Some? && BuscarNota(db.notas, notaId).Some?
            && !Imparte(db.asignaturas, db.docentes[BuscarDocenteDeUsuario(db.docentes, usuarioId).value].id,
                        db.notas[BuscarNota(db.notas, notaId).value].asignaturaId) ==>
              r == Err(Prohibido(prohibido))
  {
    match BuscarDocenteDeUsuario(db.docentes, usuarioId)
    case None => Err(NoEncontrado(DocenteNoEncontrado))
    case Some(d) =>
      match BuscarNota(db.notas, notaId)
      case None => Err(NoEncontrado(NotaNoEncontrada))
      case Some(k) =>
        if BuscarPropia(db.asignaturas, db.docentes[d].id, db.notas[k].asignaturaId).None?
        then Err(Prohibido(prohibido))
        else Ok(k)
  }

  const SinPermisoModificar := "No tienes permisos para modificar esta nota"
  const SinPermisoEliminar := "No tienes permisos para eliminar esta nota"

  /** `actualizar_nota`: only the score and the type tag change; the key,
      student, subject, date and publication flag stay. */
  method ActualizarNota(db: Escuela, usuarioId: int, notaId: int, calificacion: real, tipoNota: string)
    returns (r: Result<Nota, Error>)
    requires db.Valid()
    modifies db
    ensures db.Valid()
    ensures var a := old(AccesoNota(db, usuarioId, notaId, SinPermisoModificar));
            && (a.Err? ==> r == Err(a.error))
            && (a.Ok? && !EnRango(calificacion) ==> r == Err(SolicitudInvalida(FueraDeRango)))
            && (r.Ok? <==> a.Ok? && EnRango(calificacion))
            && (r.Ok? ==>
                  var n := old(db.notas[a.value]);
                  && r.value == n.(calificacion := calificacion, tipoNota := tipoNota)
                  && r.value.id == n.id && r.value.alumnoId == n.alumnoId && r.value.asignaturaId == n.asignaturaId
                  && r.value.publicada == n.publicada && r.value.fechaRegistro == n.fechaRegistro
                  && db.notas == old(db.notas)[a.value := r.value])
    ensures r.Err? ==> db.notas == old(db.notas)
    ensures db.usuarios == old(db.usuarios) && db.alumnos == old(db.alumnos) && db.docentes == old(db.docentes)
    ensures db.asignaturas == old(db.asignaturas) && db.matriculas == old(db.matriculas) && db.historiales == old(db.historiales)
  {
    var a := AccesoNota(db, usuarioId, notaId, SinPermisoModificar);
    if a.Err? {
      return Err(a.error);
    }
    if !(0.0 <= calificacion <= 20.0) {
      return Err(SolicitudInvalida(FueraDeRango));
    }
    var n := db.notas[a.value].(calificacion := calificacion, tipoNota := tipoNota);
    UniqueKeyUpdate(db.notas, a.value, n, NotaId);
    db.notas := db.notas[a.value := n];
    return Ok(n);
  }

  /** The grade table without the rows of key `id`; every other row stays. */
  function SinNota(notas: seq<Nota>, id: int): (r: seq<Nota>)
    ensures forall k | 0 <= k < |r| :: r[k].id != id && r[k] in notas
    ensures forall n | n in notas && n.id != id :: n in r
  {
    var r := Filter(notas, (n: Nota) => n.id != id);
    assert forall n | n in notas && n.id != id :: n in r by {
      forall n | n in notas && n.id != id ensures n in r {
        var j :| 0 <= j < |notas| && notas[j] == n;
      }
    }
    r
  }

  /** `eliminar_nota`. */
  method EliminarNota(db: Escuela, usuarioId: int, notaId: int) returns (r: Result<string, Error>)
    requires db.Valid()
    modifies db
    ensures db.Valid()
    ensures var a := old(AccesoNota(db, usuarioId, notaId, SinPermisoEliminar));
            && (a.Err? ==> r == Err(a.error) && db.notas == old(db.notas))
            && (a.Ok? ==> r == Ok("Nota eliminada correctamente") && db.notas == SinNota(old(db.notas), notaId))
    ensures db.usuarios == old(db.usuarios) && db.alumnos == old(db.alumnos) && db.docentes == old(db.docentes)
    ensures db.asignaturas == old(db.asignaturas) && db.matriculas == old(db.matriculas) && db.historiales == old(db.historiales)
  {
    var a := AccesoNota(db, usuarioId, notaId, SinPermisoEliminar);
    if a.Err? {
      return Err(a.error);
    }
    FilterUniqueKey(db.notas, (n: Nota) => n.id != notaId, NotaId);
    db.notas := SinNota(db.notas, notaId);
    return Ok("Nota eliminada correctamente");
  }

  const SinPermisoPublicar := "No tienes permisos para publicar esta nota"
  const SinPermisoDespublicar := "No tienes permisos para despublicar esta nota"

  /** The checks of `publicar_nota` and `despublicar_nota`, in their order:
      the grade first, then the teacher, then the subject's owner. */
  function AccesoPublicacion(db: Escuela, usuarioId: int, notaId: int, prohibido: string): (r: Result<nat, Error>)
    reads db
    ensures r.Ok? ==> r.value < |db.notas| && db.notas[r.value].id == notaId
    ensures r.Ok? <==>
              && BuscarNota(db.notas, notaId).Some?
              && BuscarDocenteDeUsuario(db.docentes, usuarioId).Some?
              && PropiaSegunBusqueda(db.asignaturas, db.docentes[BuscarDocenteDeUsuario(db.docentes, usuarioId).value].id,
                                     db.notas[BuscarNota(db.notas, notaId).value].asignaturaId)
    ensures BuscarNota(db.notas, notaId).None? ==> r == Err(NoEncontrado(NotaNoEncontrada))
    ensures BuscarNota(db.notas, notaId).Some? && BuscarDocenteDeUsuario(db.docentes, usuarioId).None? ==>
              r == Err(NoEncontrado(DocenteNoEncontrado))
    ensures BuscarNota(db.notas, notaId).Some? && BuscarDocenteDeUsuario(db.docentes, usuarioId).Some?
            && !PropiaSegunBusqueda(db.asignaturas, db.docentes[BuscarDocenteDeUsuario(db.docentes, usuarioId).value].id,
                                    db.notas[BuscarNota(db.notas, notaId).value].asignaturaId) ==>
              r == Err(Prohibido(prohibido))
  {
    match BuscarNota(db.notas, notaId)
    case None => Err(NoEncontrado(NotaNoEncontrada))
    case Some(k) =>
      match BuscarDocenteDeUsuario(db.docentes, usuarioId)
      case None => Err(NoEncontrado(DocenteNoEncontrado))
      case Some(d) =>
        if PropiaSegunBusqueda(db.asignaturas, db.docentes[d].id, db.notas[k].asignaturaId)
        then Ok(k)
        else Err(Prohibido(prohibido))
  }

  /** `publicar_nota`.  The flag is committed before the student is looked up,
      so a grade of a student who no longer exists ends published although
      the call answers 404. */
  method PublicarNota(db: Escuela, usuarioId: int, notaId: int) returns (r: Result<Nota, Error>)
    requires db.Valid()
    modifies db
    ensures db.Valid()
    ensures var a := old(AccesoPublicacion(db, usuarioId, notaId, SinPermisoPublicar));
            && (a.Err? ==> r == Err(a.error) && db.notas == old(db.notas))
            && (a.Ok? ==>
                  var p := Publicar(old(db.notas[a.value]));
                  && (p.Err? ==> r == Err(p.error) && db.notas == old(db.notas))
                  && (p.Ok? ==> db.notas == old(db.notas)[a.value := p.value]
                                && r == (if BuscarAlumno(old(db.alumnos), p.value.alumnoId).Some? then Ok(p.value)
                                         else Err(NoEncontrado("Alumno no encontrado")))))
    ensures db.usuarios == old(db.usuarios) && db.alumnos == old(db.alumnos) && db.docentes == old(db.docentes)
    ensures db.asignaturas == old(db.asignaturas) && db.matriculas == old(db.matriculas) && db.historiales == old(db.historiales)
  {
    var a := AccesoPublicacion(db, usuarioId, notaId, SinPermisoPublicar);
    if a.Err? {
      return Err(a.error);
    }
    var nota := db.notas[a.value];
    if nota.publicada {
      return Err(SolicitudInvalida(YaPublicada));
    }
    UniqueKeyUpdate(db.notas, a.value, nota.(publicada := true), NotaId);
    db.notas := db.notas[a.value := nota.(publicada := true)];
    if BuscarAlumno(db.alumnos, nota.alumnoId).None? {
      return Err(NoEncontrado("Alumno no encontrado"));
    }
    return Ok(db.notas[a.value]);
  }

  /** `despublicar_nota`, the mirror image of `publicar_nota`. */
  method DespublicarNota(db: Escuela, usuarioId: int, notaId: int) returns (r: Result<Nota, Error>)
    requires db.Valid()
    modifies db
    ensures db.Valid()
    ensures var a := old(AccesoPublicacion(db, usuarioId, notaId, SinPermisoDespublicar));
            && (a.Err? ==> r == Err(a.error) && db.notas == old(db.notas))
            && (a.Ok? ==>
                  var p := Despublicar(old(db.notas[a.value]));
                  && (p.Err? ==> r == Err(p.error) && db.notas == old(db.notas))
                  && (p.Ok? ==> db.notas == old(db.notas)[a.value := p.value]
                                && r == (if BuscarAlumno(old(db.alumnos), p.value.alumnoId).Some? then Ok(p.value)
                                         else Err(NoEncontrado("Alumno no encontrado")))))
    ensures db.usuarios == old(db.usuarios) && db.alumnos == old(db.alumnos) && db.docentes == old(db.docentes)
    ensures db.asignaturas == old(db.asignaturas) && db.matriculas == old(db.matriculas) && db.historiales == old(db.historiales)
  {
    var a := AccesoPublicacion(db, usuarioId, notaId, SinPermisoDespublicar);
    if a.Err? {
      return Err(a.error);
    }
    var nota := db.notas[a.value];
    if !nota.publicada {
      return Err(SolicitudInvalida(YaDespublicada));
    }
    UniqueKeyUpdate(db.notas, a.value, nota.(publicada := false), NotaId);
    db.notas := db.notas[a.value := nota.(publicada := false)];
    if BuscarAlumno(db.alumnos, nota.alumnoId).None? {
      return Err(NoEncontrado("Alumno no encontrado"));
    }
    return Ok(db.notas[a.value]);
  }

  // ---------------------------------------------------------------------
  // The grade notification.

  /** What `enviar_todas_las_notas` reports; `emailEnviado` is the outcome of
      the mail service. */
  datatype Envio = Envio(mensaje: string, alumnoId: int, asignaturaId: int, notasPublicadas: nat, emailEnviado: bool)

  const SinNotasPublicadas := "El alumno no tiene notas publicadas en esta asignatura"

  /** `enviar_todas_las_notas`: a notification needs the subject to be the
      teacher's, the student to be enrolled and to exist, and at least one
      published grade, which is the count reported. */
  function EnviarTodasLasNotas(docentes: seq<Docente>, asignaturas: seq<Asignatura>, matriculas: seq<Matricula>,
                               alumnos: seq<Alumno>, notas: seq<Nota>,
                               usuarioId: int, asignaturaId: int, alumnoId: int, emailEnviado: bool): (r: Result<Envio, Error>)
    ensures var d := BuscarDocenteDeUsuario(docentes, usuarioId);
            var propia := d.Some? && Imparte(asignaturas, docentes[d.value].id, asignaturaId);
            var matriculado := Matricula(alumnoId, asignaturaId) in matriculas;
            var existe := BuscarAlumno(alumnos, alumnoId).Some?;
            var publicadas := NotasPublicadas(notas, alumnoId, asignaturaId);
            && (d.None? ==> r == Err(NoEncontrado(DocenteNoEncontrado)))
            && (d.Some? && !propia ==> r == Err(NoEncontrado(SinAcceso)))
            && (propia && !matriculado ==> r == Err(SolicitudInvalida(NoMatriculado)))
            && (propia && matriculado && !existe ==> r == Err(NoEncontrado("Alumno no encontrado")))
            && (propia && matriculado && existe && publicadas == [] ==> r == Err(SolicitudInvalida(SinNotasPublicadas)))
            && (r.Ok? <==> propia && matriculado && existe && publicadas != [])
            && (r.Ok? ==> r.value.notasPublicadas == |publicadas| > 0 && r.value.emailEnviado == emailEnviado)
  {
    match BuscarDocenteDeUsuario(docentes, usuarioId)
    case None => Err(NoEncontrado(DocenteNoEncontrado))
    case Some(d) =>
      if BuscarPropia(asignaturas, docentes[d].id, asignaturaId).None? then Err(NoEncontrado(SinAcceso))
      else if Matricula(alumnoId, asignaturaId) !in matriculas then Err(SolicitudInvalida(NoMatriculado))
      else if BuscarAlumno(alumnos, alumnoId).None? then Err(NoEncontrado("Alumno no encontrado"))
      else
        var ns := NotasPublicadas(notas, alumnoId, asignaturaId);
        if ns == [] then Err(SolicitudInvalida(SinNotasPublicadas))
        else
          var mensaje := if emailEnviado then "Notificaci\U{F3}n enviada exitosamente por email"
                         else "Error al enviar la notificaci\U{F3}n por email";
          Ok(Envio(mensaje, alumnoId, asignaturaId, |ns|, emailEnviado))
  }

  // ---------------------------------------------------------------------
  // Students by cycle.

  datatype AsignaturaBreve = AsignaturaBreve(id: int, nombre: string)

  /** A student as `obtener_alumnos_por_ciclo` lists them, with the teacher's
      subjects they are enrolled in. */
  datatype AlumnoEnCiclo = AlumnoEnCiclo(id: int, nombreCompleto: string, dni: string, ciclo: string,
                                         asignaturas: seq<AsignaturaBreve>)

  datatype GrupoCiclo = GrupoCiclo(ciclo: string, alumnos: seq<AlumnoEnCiclo>, totalAlumnos: int)

  function CicloDe(g: GrupoCiclo): string { g.ciclo }
  function NombreDe(a: AlumnoEnCiclo): string { a.nombreCompleto }

  /** The enrollments in the teacher's subjects (`asignatura_id.in_(...)`). */
  function MatriculasPropias(ms: seq<Matricula>, propias: seq<Asignatura>): seq<Matricula>
  {
    Filter(ms, (m: Matricula) => ExisteAsignatura(propias, m.asignaturaId))
  }

  /** The students with one of those enrollments, in table order. */
  function AlumnosInscritos(alumnos: seq<Alumno>, rel: seq<Matricula>): seq<Alumno>
  {
    Filter(alumnos, (a: Alumno) => exists m | m in rel :: m.alumnoId == a.id)
  }

  /** Every student with an enrollment in the teacher's subjects is listed,
      and only once (`list(set(...))` of their ids). */
  lemma AlumnosInscritosUnaVez(alumnos: seq<Alumno>, rel: seq<Matricula>)
    requires UniqueKey(alumnos, AlumnoId)
    ensures var xs := AlumnosInscritos(alumnos, rel);
            && UniqueKey(xs, AlumnoId)
            && (forall a, m | a in alumnos && m in rel && m.alumnoId == a.id :: a in xs)
            && (forall k | 0 <= k < |xs| :: xs[k] in alumnos && exists m | m in rel :: m.alumnoId == xs[k].id)
  {
    var p := (a: Alumno) => exists m | m in rel :: m.alumnoId == a.id;
    FilterUniqueKey(alumnos, p, AlumnoId);
    forall a, m | a in alumnos && m in rel && m.alumnoId == a.id ensures a in AlumnosInscritos(alumnos, rel) {
      var j :| 0 <= j < |alumnos| && alumnos[j] == a;
    }
  }

  /** The inner loop: for each enrollment of the student, in order, the
      teacher's subject it names. */
  function AsignaturasDelAlumno(rel: seq<Matricula>, propias: seq<Asignatura>, alumnoId: int): seq<AsignaturaBreve>
  {
    if rel == [] then []
    else
      var previas := AsignaturasDelAlumno(rel[..|rel| - 1], propias, alumnoId);
      var m := rel[|rel| - 1];
      if m.alumnoId != alumnoId then previas
      else match BuscarAsignatura(propias, m.asignaturaId)
        case None => previas
        case Some(j) => previas + [AsignaturaBreve(propias[j].id, propias[j].nombre)]
  }

  /** Every subject listed for a student is one of the teacher's, and the
      student is enrolled in it. */
  lemma {:induction false} AsignaturasDelAlumnoPropias(rel: seq<Matricula>, propias: seq<Asignatura>, alumnoId: int)
    ensures forall b | b in AsignaturasDelAlumno(rel, propias, alumnoId) ::
              && Matricula(alumnoId, b.id) in rel
              && exists i | 0 <= i < |propias| :: propias[i].id == b.id && propias[i].nombre == b.nombre
  {
    if rel != [] {
      var rel' := rel[..|rel| - 1];
      AsignaturasDelAlumnoPropias(rel', propias, alumnoId);
      assert forall m | m in rel' :: m in rel;
    }
  }

  /** The inner loop of `obtener_alumnos_por_ciclo` for one student. */
  method ListarAsignaturas(rel: seq<Matricula>, propias: seq<Asignatura>, alumnoId: int) returns (bs: seq<AsignaturaBreve>)
    ensures bs == AsignaturasDelAlumno(rel, propias, alumnoId)
  {
    bs := [];
    var j := 0;
    while j < |rel|
      invariant 0 <= j <= |rel|
      invariant bs == AsignaturasDelAlumno(rel[..j], propias, alumnoId)
    {
      if rel[j].alumnoId == alumnoId {
        var s := BuscarAsignatura(propias, rel[j].asignaturaId);
        if s.Some? {
          bs := bs + [AsignaturaBreve(propias[s.value].id, propias[s.value].nombre)];
        }
      }
      assert rel[..j + 1][..j] == rel[..j];
      j := j + 1;
    }
    assert rel[..j] == rel;
  }

  /** Each listed student with their subjects, in table order. */
  function Listado(inscritos: seq<Alumno>, rel: seq<Matricula>, propias: seq<Asignatura>): (r: seq<AlumnoEnCiclo>)
    ensures |r| == |inscritos|
    ensures forall k | 0 <= k < |inscritos| ::
              r[k] == AlumnoEnCiclo(inscritos[k].id, inscritos[k].nombreCompleto, inscritos[k].dni, inscritos[k].ciclo,
                                    AsignaturasDelAlumno(rel, propias, inscritos[k].id))
  {
    seq(|inscritos|, k requires 0 <= k < |inscritos| =>
      AlumnoEnCiclo(inscritos[k].id, inscritos[k].nombreCompleto, inscritos[k].dni, inscritos[k].ciclo,
                    AsignaturasDelAlumno(rel, propias, inscritos[k].id)))
  }

  /** The position of a cycle's group (`ciclo in ciclos`). */
  function IndiceCiclo(gs: seq<GrupoCiclo>, ciclo: string): Option<nat>
  {
    Find(gs, (g: GrupoCiclo) => g.ciclo == ciclo, 0)
  }

  /** The students of `xs` in one cycle, in order. */
  function DelCiclo(xs: seq<AlumnoEnCiclo>, ciclo: string): seq<AlumnoEnCiclo>
  {
    Filter(xs, (a: AlumnoEnCiclo) => a.ciclo == ciclo)
  }

  lemma DelCicloPush(xs: seq<AlumnoEnCiclo>, a: AlumnoEnCiclo, ciclo: string)
    ensures DelCiclo(xs + [a], ciclo) == DelCiclo(xs, ciclo) + (if a.ciclo == ciclo then [a] else [])
  {
    assert (xs + [a])[..|xs|] == xs;
  }

  lemma {:induction false} DelCicloVacio(xs: seq<AlumnoEnCiclo>, ciclo: string)
    requires forall k | 0 <= k < |xs| :: xs[k].ciclo != ciclo
    ensures DelCiclo(xs, ciclo) == []
  {
    if xs != [] {
      DelCicloVacio(xs[..|xs| - 1], ciclo);
    }
  }

  /** One step of the grouping loop: append the student to their cycle's
      group, opening the group at the end when the cycle is new. */
  function Agregar(gs: seq<GrupoCiclo>, a: AlumnoEnCiclo): seq<GrupoCiclo>
  {
    match IndiceCiclo(gs, a.ciclo)
    case Some(j) => gs[j := gs[j].(alumnos := gs[j].alumnos + [a])]
    case None => gs + [GrupoCiclo(a.ciclo, [a], 0)]
  }

  /** The `ciclos` dictionary after the grouping loop. */
  function Agrupar(xs: seq<AlumnoEnCiclo>): seq<GrupoCiclo>
  {
    if xs == [] then [] else Agregar(Agrupar(xs[..|xs| - 1]), xs[|xs| - 1])
  }

  /** `gs` groups `xs`: one group per cycle, each holding that cycle's
      students in order, and a group for every student's cycle. */
  predicate Agrupado(xs: seq<AlumnoEnCiclo>, gs: seq<GrupoCiclo>)
  {
    CiclosUnicos(gs) && GruposExactos(xs, gs) && CiclosCubiertos(xs, gs)
  }

  predicate CiclosUnicos(gs: seq<GrupoCiclo>)
  {
    forall i, j | 0 <= i < j < |gs| :: gs[i].ciclo != gs[j].ciclo
  }

  predicate GruposExactos(xs: seq<AlumnoEnCiclo>, gs: seq<GrupoCiclo>)
  {
    forall k | 0 <= k < |gs| :: gs[k].alumnos == DelCiclo(xs, gs[k].ciclo)
  }

  predicate CiclosCubiertos(xs: seq<AlumnoEnCiclo>, gs: seq<GrupoCiclo>)
  {
    forall k | 0 <= k < |xs| :: IndiceCiclo(gs, xs[k].ciclo).Some?
  }

  /** One step of the loop keeps the grouping exact. */
  lemma AgregarAgrupa(xs: seq<AlumnoEnCiclo>, gs: seq<GrupoCiclo>)
    requires xs != [] && Agrupado(xs[..|xs| - 1], gs)
    ensures Agrupado(xs, Agregar(gs, xs[|xs| - 1]))
  {
    var xs', a := xs[..|xs| - 1], xs[|xs| - 1];
    assert xs == xs' + [a];
    match IndiceCiclo(gs, a.ciclo)
    case Some(j) => AgregarEnGrupo(xs', gs, a, j);
    case None => AgregarGrupoNuevo(xs', gs, a);
  }

  /** The student's cycle already has a group: only that group grows. */
  lemma AgregarEnGrupo(xs: seq<AlumnoEnCiclo>, gs: seq<GrupoCiclo>, a: AlumnoEnCiclo, j: nat)
    requires Agrupado(xs, gs) && IndiceCiclo(gs, a.ciclo) == Some(j)
    ensures Agrupado(xs + [a], gs[j := gs[j].(alumnos := gs[j].alumnos + [a])])
  {
    var gs2 := gs[j := gs[j].(alumnos := gs[j].alumnos + [a])];
    forall k | 0 <= k < |gs2| ensures gs2[k].alumnos == DelCiclo(xs + [a], gs2[k].ciclo) {
      DelCicloPush(xs, a, gs2[k].ciclo);
    }
    forall k | 0 <= k < |xs + [a]| ensures IndiceCiclo(gs2, (xs + [a])[k].ciclo).Some? {
      var c := (xs + [a])[k].ciclo;
      var i := if k < |xs| then IndiceCiclo(gs, c).value else j;
      assert gs2[i].ciclo == c;
    }
  }

  /** The student's cycle is new: a group holding just that student is
      opened at the end. */
  lemma AgregarGrupoNuevo(xs: seq<AlumnoEnCiclo>, gs: seq<GrupoCiclo>, a: AlumnoEnCiclo)
    requires Agrupado(xs, gs) && IndiceCiclo(gs, a.ciclo).None?
    ensures Agrupado(xs + [a], gs + [GrupoCiclo(a.ciclo, [a], 0)])
  {
    CicloNuevoSinAlumnos(xs, gs, a.ciclo);
    GrupoNuevoExacto(xs, gs, a);
    GrupoNuevoCubre(xs, gs, a);
  }

  /** A cycle without a group has no students yet. */
  lemma CicloNuevoSinAlumnos(xs: seq<AlumnoEnCiclo>, gs: seq<GrupoCiclo>, ciclo: string)
    requires CiclosCubiertos(xs, gs) && IndiceCiclo(gs, ciclo).None?
    ensures forall i | 0 <= i < |xs| :: xs[i].ciclo != ciclo
  {
    forall i | 0 <= i < |xs| ensures xs[i].ciclo != ciclo {
      assert gs[IndiceCiclo(gs, xs[i].ciclo).value].ciclo == xs[i].ciclo;
    }
  }

  lemma GrupoNuevoExacto(xs: seq<AlumnoEnCiclo>, gs: seq<GrupoCiclo>, a: AlumnoEnCiclo)
    requires GruposExactos(xs, gs) && IndiceCiclo(gs, a.ciclo).None?
    requires forall i | 0 <= i < |xs| :: xs[i].ciclo != a.ciclo
    ensures GruposExactos(xs + [a], gs + [GrupoCiclo(a.ciclo, [a], 0)])
  {
    var gs2 := gs + [GrupoCiclo(a.ciclo, [a], 0)];
    DelCicloVacio(xs, a.ciclo);
    forall k | 0 <= k < |gs2| ensures gs2[k].alumnos == DelCiclo(xs + [a], gs2[k].ciclo) {
      DelCicloPush(xs, a, gs2[k].ciclo);
    }
  }

  lemma GrupoNuevoCubre(xs: seq<AlumnoEnCiclo>, gs: seq<GrupoCiclo>, a: AlumnoEnCiclo)
    requires CiclosCubiertos(xs, gs) && IndiceCiclo(gs, a.ciclo).None?
    ensures CiclosCubiertos(xs + [a], gs + [GrupoCiclo(a.ciclo, [a], 0)])
  {
    var gs2 := gs + [GrupoCiclo(a.ciclo, [a], 0)];
    forall k | 0 <= k < |xs + [a]| ensures IndiceCiclo(gs2, (xs + [a])[k].ciclo).Some? {
      var c := (xs + [a])[k].ciclo;
      var i := if k < |xs| then IndiceCiclo(gs, c).value else |gs|;
      assert gs2[i].ciclo == c;
    }
  }

  lemma {:induction false} AgruparAgrupa(xs: seq<AlumnoEnCiclo>)
    ensures Agrupado(xs, Agrupar(xs))
  {
    if xs != [] {
      AgruparAgrupa(xs[..|xs| - 1]);
      AgregarAgrupa(xs, Agrupar(xs[..|xs| - 1]));
    }
  }

  /** The response: groups sorted by cycle, students in each group sorted by
      full name, and the group size. */
  function Presentar(gs: seq<GrupoCiclo>): (r: seq<GrupoCiclo>)
    ensures |r| == |gs|
    ensures forall k | 0 <= k < |r| ::
              && r[k].ciclo == Ordenar(gs, CicloDe)[k].ciclo
              && r[k].alumnos == Ordenar(Ordenar(gs, CicloDe)[k].alumnos, NombreDe)
              && r[k].totalAlumnos == |r[k].alumnos|
  {
    var ordenados := Ordenar(gs, CicloDe);
    seq(|ordenados|, k requires 0 <= k < |ordenados| =>
      GrupoCiclo(ordenados[k].ciclo, Ordenar(ordenados[k].alumnos, NombreDe), |ordenados[k].alumnos|))
  }

  /** The response keeps the groups' cycles, now in order and still distinct. */
  lemma PresentarOrdena(gs: seq<GrupoCiclo>)
    requires forall i, j | 0 <= i < j < |gs| :: gs[i].ciclo != gs[j].ciclo
    ensures var r := Presentar(gs);
            && Ordenada(r, CicloDe)
            && (forall i, j | 0 <= i < j < |r| :: r[i].ciclo != r[j].ciclo)
  {
    var ordenados := Ordenar(gs, CicloDe);
    var r := Presentar(gs);
    ClavesDistintasTrasPermutar(gs, ordenados, CicloDe);
    forall i, j | 0 <= i < j < |r| ensures LexLeq(CicloDe(r[i]), CicloDe(r[j])) {
      assert CicloDe(r[i]) == CicloDe(ordenados[i]) && CicloDe(r[j]) == CicloDe(ordenados[j]);
    }
  }

  /** Each group of the response is a group of `gs`, sorted by name. */
  lemma PresentarGrupos(gs: seq<GrupoCiclo>, i: nat)
    requires i < |gs|
    ensures exists g | 0 <= g < |gs| ::
              && Presentar(gs)[i].ciclo == gs[g].ciclo
              && multiset(Presentar(gs)[i].alumnos) == multiset(gs[g].alumnos)
              && Ordenada(Presentar(gs)[i].alumnos, NombreDe)
  {
    var ordenados := Ordenar(gs, CicloDe);
    assert ordenados[i] in multiset(gs);
    var g :| 0 <= g < |gs| && gs[g] == ordenados[i];
  }

  /** Every cycle with a group in `gs` has a group in the response. */
  lemma PresentarCubre(gs: seq<GrupoCiclo>, g: nat)
    requires g < |gs|
    ensures exists i | 0 <= i < |Presentar(gs)| :: Presentar(gs)[i].ciclo == gs[g].ciclo
  {
    var ordenados := Ordenar(gs, CicloDe);
    assert gs[g] in multiset(ordenados);
    var i :| 0 <= i < |ordenados| && ordenados[i] == gs[g];
    assert Presentar(gs)[i].ciclo == gs[g].ciclo;
  }

  /** What the grouping promises: every cycle of a listed student has exactly
      one group, groups come in cycle order, each group holds exactly that
      cycle's students (as a multiset) sorted by name, and reports its size. */
  lemma PresentarAgrupar(xs: seq<AlumnoEnCiclo>)
    ensures var r := Presentar(Agrupar(xs));
            && Ordenada(r, CicloDe)
            && (forall i, j | 0 <= i < j < |r| :: r[i].ciclo != r[j].ciclo)
            && (forall k | 0 <= k < |xs| :: exists i | 0 <= i < |r| :: r[i].ciclo == xs[k].ciclo)
            && (forall i | 0 <= i < |r| ::
                  && Ordenada(r[i].alumnos, NombreDe)
                  && multiset(r[i].alumnos) == multiset(DelCiclo(xs, r[i].ciclo))
                  && r[i].totalAlumnos == |r[i].alumnos|)
  {
    var gs := Agrupar(xs);
    var r := Presentar(gs);
    AgruparAgrupa(xs);
    PresentarOrdena(gs);
    forall k | 0 <= k < |xs| ensures exists i | 0 <= i < |r| :: r[i].ciclo == xs[k].ciclo {
      PresentarCubre(gs, IndiceCiclo(gs, xs[k].ciclo).value);
    }
    forall i | 0 <= i < |r|
      ensures && Ordenada(r[i].alumnos, NombreDe)
              && multiset(r[i].alumnos) == multiset(DelCiclo(xs, r[i].ciclo))
    {
      PresentarGrupos(gs, i);
    }
  }

  /** The loop filling the `ciclos` dictionary: each listed student, with
      their subjects, is added to the group of their cycle. */
  method AgruparInscritos(inscritos: seq<Alumno>, rel: seq<Matricula>, propias: seq<Asignatura>)
    returns (ciclos: seq<GrupoCiclo>)
    ensures ciclos == Agrupar(Listado(inscritos, rel, propias))
  {
    ghost var xs := Listado(inscritos, rel, propias);
    ciclos := [];
    var i := 0;
    while i < |inscritos|
      invariant 0 <= i <= |inscritos|
      invariant ciclos == Agrupar(xs[..i])
    {
      var al := inscritos[i];
      var asignaturasAlumno := ListarAsignaturas(rel, propias, al.id);
      var info := AlumnoEnCiclo(al.id, al.nombreCompleto, al.dni, al.ciclo, asignaturasAlumno);
      assert xs[..i + 1][..i] == xs[..i] && xs[..i + 1][i] == info;
      ghost var siguiente := Agregar(ciclos, info);
      assert siguiente == Agrupar(xs[..i + 1]);
      var g := IndiceCiclo(ciclos, al.ciclo);
      if g.None? {
        ciclos := ciclos + [GrupoCiclo(al.ciclo, [info], 0)];
      } else {
        ciclos := ciclos[g.value := ciclos[g.value].(alumnos := ciclos[g.value].alumnos + [info])];
      }
      assert ciclos == siguiente;
      i := i + 1;
    }
    assert xs[..i] == xs;
  }

  /** `obtener_alumnos_por_ciclo` for the teacher logged in as `usuarioId`. */
  method ObtenerAlumnosPorCiclo(db: Escuela, usuarioId: int) returns (r: Result<seq<GrupoCiclo>, Error>)
    ensures var d := BuscarDocenteDeUsuario(db.docentes, usuarioId);
            && (d.None? ==> r == Err(NoEncontrado(DocenteNoEncontrado)))
            && (d.Some? ==>
                  var propias := AsignaturasDeDocente(db.asignaturas, db.docentes[d.value].id);
                  var rel := MatriculasPropias(db.matriculas, propias);
                  && (propias == [] || rel == [] ==> r == Ok([]))
                  && (propias != [] && rel != [] ==>
                        r == Ok(Presentar(Agrupar(Listado(AlumnosInscritos(db.alumnos, rel), rel, propias))))))
  {
    var d := BuscarDocenteDeUsuario(db.docentes, usuarioId);
    if d.None? {
      return Err(NoEncontrado(DocenteNoEncontrado));
    }
    var propias := AsignaturasDeDocente(db.asignaturas, db.docentes[d.value].id);
    if propias == [] {
      return Ok([]);
    }
    var rel := MatriculasPropias(db.matriculas, propias);
    if rel == [] {
      return Ok([]);
    }
    var inscritos := AlumnosInscritos(db.alumnos, rel);
    var ciclos := AgruparInscritos(inscritos, rel, propias);
    return Ok(Presentar(ciclos));
  }
}
