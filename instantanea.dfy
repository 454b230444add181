/** The academic-history snapshot that promotion and the history endpoints
    write: for each chosen subject, its name, the mean of all the student's
    grades in it (0.0 without grades) and a copy of each of those grades. */
module Instantanea {
  import opened Modelo
  import opened Estadistica

  /** A history copy of a grade: score, type and date, nothing else. */
  function CopiaNota(n: Nota): (h: NotaHistorial)
    ensures h.calificacion == n.calificacion && h.tipoNota == n.tipoNota && h.fechaRegistro == n.fechaRegistro
  {
    NotaHistorial(n.calificacion, n.tipoNota, n.fechaRegistro)
  }

  function CopiasNotas(ns: seq<Nota>): (hs: seq<NotaHistorial>)
    ensures |hs| == |ns| && forall k | 0 <= k < |ns| :: hs[k] == CopiaNota(ns[k])
  {
    seq(|ns|, k requires 0 <= k < |ns| => CopiaNota(ns[k]))
  }

  function ScoresHistorial(hs: seq<NotaHistorial>): (r: seq<real>)
    ensures |r| == |hs| && forall k | 0 <= k < |hs| :: r[k] == hs[k].calificacion
  {
    seq(|hs|, k requires 0 <= k < |hs| => hs[k].calificacion)
  }

  /** The subjects of the student's current cycle they are enrolled in, in
      table order. */
  function AsignaturasActuales(al: Alumno, asignaturas: seq<Asignatura>, matriculas: seq<Matricula>): seq<Asignatura>
  {
    Filter(asignaturas, (s: Asignatura) => s.ciclo == al.ciclo && Matricula(al.id, s.id) in matriculas)
  }

  /** The history entry of one subject: every grade of the student in it,
      published or not, and their mean (SQL `avg`, or 0.0 without rows). */
  function EntradaHistorial(notas: seq<Nota>, alumnoId: int, s: Asignatura): AsignaturaHistorial
  {
    var ns := NotasDe(notas, alumnoId, s.id);
    AsignaturaHistorial(s.nombre, MeanOrZero(Scores(ns)), CopiasNotas(ns))
  }

  function Entradas(notas: seq<Nota>, alumnoId: int, ss: seq<Asignatura>): (r: seq<AsignaturaHistorial>)
    ensures |r| == |ss| && forall k | 0 <= k < |ss| :: r[k] == EntradaHistorial(notas, alumnoId, ss[k])
  {
    seq(|ss|, k requires 0 <= k < |ss| => EntradaHistorial(notas, alumnoId, ss[k]))
  }

  /** The fixed "Cultura" entry: average 15.0 and one 15.0 "Promedio Final"
      grade dated `ahora`. */
  function Cultura(ahora: int): AsignaturaHistorial
  {
    AsignaturaHistorial("Cultura", 15.0, [NotaHistorial(15.0, "Promedio Final", ahora)])
  }

  /** The copies keep each grade's score, in order. */
  lemma ScoresDeCopias(ns: seq<Nota>)
    ensures ScoresHistorial(CopiasNotas(ns)) == Scores(ns)
  {
  }

  /** A snapshot is self-consistent: each entry's average is the mean of the
      scores it holds (0.0 when it holds none), and it holds exactly the
      student's grades in that subject. */
  lemma EntradaConsistente(notas: seq<Nota>, alumnoId: int, s: Asignatura)
    ensures var e := EntradaHistorial(notas, alumnoId, s);
            && e.nombre == s.nombre
            && e.promedio == MeanOrZero(ScoresHistorial(e.notas))
            && |e.notas| == |NotasDe(notas, alumnoId, s.id)|
            && (e.notas == [] ==> e.promedio == 0.0)
  {
    ScoresDeCopias(NotasDe(notas, alumnoId, s.id));
  }

  /** Grades between `lo` and `hi` give an entry average between them (or 0.0). */
  lemma EntradaEnRango(notas: seq<Nota>, alumnoId: int, s: Asignatura, lo: real, hi: real)
    requires forall k | 0 <= k < |notas| :: lo <= notas[k].calificacion <= hi
    ensures var e := EntradaHistorial(notas, alumnoId, s);
            e.notas == [] || lo <= e.promedio <= hi
  {
    var ns := NotasDe(notas, alumnoId, s.id);
    if ns != [] {
      MeanInRange(Scores(ns), lo, hi);
    }
  }

  /** The loops of the snapshot builders: one entry per subject, one copy per
      grade, added in order. */
  method CopiarAsignaturas(db: Escuela, alumnoId: int, ss: seq<Asignatura>) returns (entradas: seq<AsignaturaHistorial>)
    ensures entradas == Entradas(db.notas, alumnoId, ss)
  {
    entradas := [];
    var i := 0;
    while i < |ss|
      invariant 0 <= i <= |ss|
      invariant entradas == Entradas(db.notas, alumnoId, ss[..i])
    {
      var s := ss[i];
      var notas := NotasDe(db.notas, alumnoId, s.id);
      var promedio := MeanOrZero(Scores(notas));
      var copias := [];
      var j := 0;
      while j < |notas|
        invariant 0 <= j <= |notas|
        invariant copias == CopiasNotas(notas[..j])
      {
        copias := copias + [CopiaNota(notas[j])];
        j := j + 1;
      }
      assert notas[..j] == notas;
      entradas := entradas + [AsignaturaHistorial(s.nombre, promedio, copias)];
      assert ss[..i + 1] == ss[..i] + [s];
      i := i + 1;
    }
    assert ss[..i] == ss;
  }
}
