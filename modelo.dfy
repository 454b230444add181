/** The database of the grade-management backend, as in-memory tables.
    Each table is a sequence of row values in scan order; the handlers of the
    routers are methods that reassign these sequences. */
module Modelo {

  datatype Option<T> = None | Some(value: T)

  datatype Result<T, E> = Ok(value: T) | Err(error: E)

  /** The HTTP errors the handlers raise. */
  datatype Error =
    | NoEncontrado(detalle: string)      // 404
    | SolicitudInvalida(detalle: string) // 400
    | Prohibido(detalle: string)         // 403
    | ErrorInterno(detalle: string)      // 500, an exception nobody catches

  datatype Rol = RolAdmin | RolDocente | RolAlumno

  datatype Usuario = Usuario(id: int, nombre: string, email: string, passwordHash: string, rol: Rol, activo: bool)

  datatype Alumno = Alumno(id: int, nombreCompleto: string, dni: string, ciclo: string, usuarioId: int)

  datatype Docente = Docente(id: int, nombreCompleto: string, dni: string, usuarioId: int)

  datatype Asignatura = Asignatura(id: int, nombre: string, ciclo: string, docenteId: int)

  /** A grade; `fechaRegistro` is an opaque timestamp.  New grades are drafts
      (`publicada == false`). */
  datatype Nota = Nota(
    id: int, alumnoId: int, asignaturaId: int,
    calificacion: real, tipoNota: string, fechaRegistro: int, publicada: bool)

  /** A row of the `matriculas` table; the pair is its composite primary key. */
  datatype Matricula = Matricula(alumnoId: int, asignaturaId: int)

  datatype NotaHistorial = NotaHistorial(calificacion: real, tipoNota: string, fechaRegistro: int)

  datatype AsignaturaHistorial = AsignaturaHistorial(nombre: string, promedio: real, notas: seq<NotaHistorial>)

  datatype Historial = Historial(alumnoId: int, ciclo: string, asignaturas: seq<AsignaturaHistorial>)

  /** The rows of `xs` that satisfy `p`, in order (a `filter(...).all()` query). */
  function Filter<T>(xs: seq<T>, p: T -> bool): (r: seq<T>)
    ensures |r| <= |xs|
    ensures forall k | 0 <= k < |r| :: r[k] in xs && p(r[k])
    ensures forall k | 0 <= k < |xs| && p(xs[k]) :: xs[k] in r
  {
    if xs == [] then []
    else
      var r := Filter(xs[..|xs| - 1], p);
      assert xs == xs[..|xs| - 1] + [xs[|xs| - 1]];
      if p(xs[|xs| - 1]) then r + [xs[|xs| - 1]] else r
  }

  lemma {:induction false} FilterAppend<T>(xs: seq<T>, ys: seq<T>, p: T -> bool)
    ensures Filter(xs + ys, p) == Filter(xs, p) + Filter(ys, p)
    decreases |ys|
  {
    if ys == [] {
      assert xs + ys == xs;
    } else {
      var ys' := ys[..|ys| - 1];
      assert (xs + ys)[..|xs + ys| - 1] == xs + ys';
      FilterAppend(xs, ys', p);
    }
  }

  lemma FilterPush<T>(xs: seq<T>, x: T, p: T -> bool)
    ensures Filter(xs + [x], p) == Filter(xs, p) + (if p(x) then [x] else [])
  {
    assert (xs + [x])[..|xs|] == xs;
  }

  /** A row that satisfies `p` is in the query. */
  lemma FilterIncluye<T>(xs: seq<T>, p: T -> bool, x: T)
    requires x in xs && p(x)
    ensures x in Filter(xs, p)
  {
    var k :| 0 <= k < |xs| && xs[k] == x;
  }

  /** Every row fails `p`: the query is empty. */
  lemma {:induction false} FilterNone<T>(xs: seq<T>, p: T -> bool)
    requires forall k | 0 <= k < |xs| :: !p(xs[k])
    ensures Filter(xs, p) == []
  {
    if xs != [] {
      FilterNone(xs[..|xs| - 1], p);
    }
  }

  /** Index of the first row satisfying `p` (a `filter(...).first()` query). */
  function Find<T>(xs: seq<T>, p: T -> bool, from: nat): (r: Option<nat>)
    requires from <= |xs|
    ensures r.Some? ==> from <= r.value < |xs| && p(xs[r.value])
                        && forall k | from <= k < r.value :: !p(xs[k])
    ensures r.None? ==> forall k | from <= k < |xs| :: !p(xs[k])
    decreases |xs| - from
  {
    if from == |xs| then None
    else if p(xs[from]) then Some(from)
    else Find(xs, p, from + 1)
  }

  /** `f` applied to every row, in order (a list comprehension). */
  function Mapear<A, B>(xs: seq<A>, f: A -> B): (r: seq<B>)
    ensures |r| == |xs|
  {
    if xs == [] then [] else Mapear(xs[..|xs| - 1], f) + [f(xs[|xs| - 1])]
  }

  lemma {:induction false} MapearEn<A, B>(xs: seq<A>, f: A -> B, j: nat)
    requires j < |xs|
    ensures Mapear(xs, f)[j] == f(xs[j])
    decreases |xs|
  {
    var n := |xs| - 1;
    if j < n {
      MapearEn(xs[..n], f, j);
      assert xs[..n][j] == xs[j];
    }
  }

  // Look-ups by key (`query(...).filter(X.id == id).first()`).

  function BuscarAlumno(alumnos: seq<Alumno>, id: int): Option<nat>
  {
    Find(alumnos, (a: Alumno) => a.id == id, 0)
  }

  function BuscarAlumnoDeUsuario(alumnos: seq<Alumno>, usuarioId: int): Option<nat>
  {
    Find(alumnos, (a: Alumno) => a.usuarioId == usuarioId, 0)
  }

  function BuscarDocente(docentes: seq<Docente>, id: int): Option<nat>
  {
    Find(docentes, (d: Docente) => d.id == id, 0)
  }

  function BuscarDocenteDeUsuario(docentes: seq<Docente>, usuarioId: int): Option<nat>
  {
    Find(docentes, (d: Docente) => d.usuarioId == usuarioId, 0)
  }

  function BuscarAsignatura(asignaturas: seq<Asignatura>, id: int): Option<nat>
  {
    Find(asignaturas, (s: Asignatura) => s.id == id, 0)
  }

  function BuscarUsuario(usuarios: seq<Usuario>, id: int): Option<nat>
  {
    Find(usuarios, (u: Usuario) => u.id == id, 0)
  }

  function BuscarNota(notas: seq<Nota>, id: int): Option<nat>
  {
    Find(notas, (n: Nota) => n.id == id, 0)
  }

  /** No row of the sequence appears twice. */
  predicate NoDup<T(==)>(xs: seq<T>)
  {
    forall i, j | 0 <= i < j < |xs| :: xs[i] != xs[j]
  }

  /** `id(...)` is a primary key of the table. */
  predicate UniqueKey<T>(xs: seq<T>, id: T -> int)
  {
    forall i, j | 0 <= i < j < |xs| :: id(xs[i]) != id(xs[j])
  }

  /** Rewriting one row without touching its key keeps the key unique. */
  lemma UniqueKeyUpdate<T>(xs: seq<T>, k: nat, x: T, id: T -> int)
    requires k < |xs| && UniqueKey(xs, id) && id(x) == id(xs[k])
    ensures UniqueKey(xs[k := x], id)
  {
  }

  /** The id the database hands out for a new row: one more than the largest. */
  function NextId(ids: seq<int>): (r: int)
    ensures forall k | 0 <= k < |ids| :: ids[k] < r
  {
    if ids == [] then 1
    else
      var r := NextId(ids[..|ids| - 1]);
      if ids[|ids| - 1] < r then r else ids[|ids| - 1] + 1
  }

  function NotaId(n: Nota): int { n.id }
  function AlumnoId(a: Alumno): int { a.id }
  function DocenteId(d: Docente): int { d.id }
  function AsignaturaId(s: Asignatura): int { s.id }
  function UsuarioId(u: Usuario): int { u.id }

  /** The scores of a list of grades, in order. */
  function Scores(ns: seq<Nota>): (r: seq<real>)
    ensures |r| == |ns| && forall k | 0 <= k < |ns| :: r[k] == ns[k].calificacion
  {
    seq(|ns|, k requires 0 <= k < |ns| => ns[k].calificacion)
  }

  /** Grades of a student in a subject, published or not. */
  function NotasDe(notas: seq<Nota>, alumnoId: int, asignaturaId: int): seq<Nota>
  {
    Filter(notas, (n: Nota) => n.alumnoId == alumnoId && n.asignaturaId == asignaturaId)
  }

  /** Grades of a student in a subject that the student can see. */
  function NotasPublicadas(notas: seq<Nota>, alumnoId: int, asignaturaId: int): seq<Nota>
  {
    Filter(notas, (n: Nota) => n.alumnoId == alumnoId && n.asignaturaId == asignaturaId && n.publicada)
  }

  /** The subjects a teacher is assigned. */
  function AsignaturasDeDocente(asignaturas: seq<Asignatura>, docenteId: int): seq<Asignatura>
  {
    Filter(asignaturas, (s: Asignatura) => s.docenteId == docenteId)
  }

  predicate ExisteAsignatura(ss: seq<Asignatura>, id: int)
  {
    exists j | 0 <= j < |ss| :: ss[j].id == id
  }

  predicate ExisteDocente(ds: seq<Docente>, id: int)
  {
    exists j | 0 <= j < |ds| :: ds[j].id == id
  }

  /** Deleting rows keeps a key unique. */
  lemma {:induction false} FilterUniqueKey<T>(xs: seq<T>, p: T -> bool, id: T -> int)
    requires UniqueKey(xs, id)
    ensures UniqueKey(Filter(xs, p), id)
  {
    if xs != [] {
      var xs' := xs[..|xs| - 1];
      var x := xs[|xs| - 1];
      assert xs == xs' + [x];
      FilterUniqueKey(xs', p, id);
      forall k | 0 <= k < |Filter(xs', p)| ensures id(Filter(xs', p)[k]) != id(x) {
        var y := Filter(xs', p)[k];
        var j :| 0 <= j < |xs'| && xs'[j] == y;
        assert xs[j] == y;
      }
    }
  }

  /** Deleting rows keeps them distinct. */
  lemma {:induction false} FilterNoDup<T>(xs: seq<T>, p: T -> bool)
    requires NoDup(xs)
    ensures NoDup(Filter(xs, p))
  {
    if xs != [] {
      var xs' := xs[..|xs| - 1];
      var x := xs[|xs| - 1];
      assert xs == xs' + [x];
      FilterNoDup(xs', p);
      forall k | 0 <= k < |Filter(xs', p)| ensures Filter(xs', p)[k] != x {
        var y := Filter(xs', p)[k];
        var j :| 0 <= j < |xs'| && xs'[j] == y;
        assert xs[j] == y;
      }
    }
  }

  /** The user table after overwriting the password hash of the user with key
      `id` (`usuario.password_hash = ...`); no such user, no change. */
  function ConHash(usuarios: seq<Usuario>, id: int, hash: string): (r: seq<Usuario>)
    ensures |r| == |usuarios|
    ensures forall j | 0 <= j < |usuarios| :: r[j].id == usuarios[j].id
  {
    match BuscarUsuario(usuarios, id)
    case None => usuarios
    case Some(j) => usuarios[j := usuarios[j].(passwordHash := hash)]
  }

  /** With a unique key, exactly the user with that key gets the new hash and
      every other row is as it was. */
  lemma ConHashUnico(usuarios: seq<Usuario>, id: int, hash: string)
    requires UniqueKey(usuarios, UsuarioId)
    ensures UniqueKey(ConHash(usuarios, id, hash), UsuarioId)
    ensures forall j | 0 <= j < |usuarios| ::
              ConHash(usuarios, id, hash)[j] ==
                if usuarios[j].id == id then usuarios[j].(passwordHash := hash) else usuarios[j]
  {
    match BuscarUsuario(usuarios, id)
    case None =>
    case Some(i) =>
      forall j | 0 <= j < |usuarios| && j != i ensures usuarios[j].id != usuarios[i].id {
        assert UsuarioId(usuarios[i]) != UsuarioId(usuarios[j]);
      }
      UniqueKeyUpdate(usuarios, i, usuarios[i].(passwordHash := hash), UsuarioId);
  }

  /** The whole database.  Each handler is one atomic update of these tables. */
  class Escuela {
    var usuarios: seq<Usuario>
    var alumnos: seq<Alumno>
    var docentes: seq<Docente>
    var asignaturas: seq<Asignatura>
    var notas: seq<Nota>
    var matriculas: seq<Matricula>
    var historiales: seq<Historial>

    /** Primary keys are unique in every table, and every enrollment, grade
        and subject points at a subject or teacher that exists (the foreign
        keys the deletion guards protect). */
    predicate Valid()
      reads this
    {
      && UniqueKey(usuarios, UsuarioId)
      && UniqueKey(alumnos, AlumnoId)
      && UniqueKey(docentes, DocenteId)
      && UniqueKey(asignaturas, AsignaturaId)
      && UniqueKey(notas, NotaId)
      && NoDup(matriculas)
      && (forall k | 0 <= k < |matriculas| :: ExisteAsignatura(asignaturas, matriculas[k].asignaturaId))
      && (forall k | 0 <= k < |notas| :: ExisteAsignatura(asignaturas, notas[k].asignaturaId))
      && (forall k | 0 <= k < |asignaturas| :: ExisteDocente(docentes, asignaturas[k].docenteId))
    }

    constructor ()
      ensures Valid()
      ensures usuarios == [] && alumnos == [] && docentes == [] && asignaturas == []
      ensures notas == [] && matriculas == [] && historiales == []
    {
      usuarios, alumnos, docentes, asignaturas := [], [], [], [];
      notas, matriculas, historiales := [], [], [];
    }
  }
}
