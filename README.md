# Academic progress core of the school backend, in Dafny

This project models the academic-progress core of a school-management backend.
The backend is a FastAPI service with SQLAlchemy models.

The database tables are in-memory sequences of value rows held by one class, `Modelo.Escuela`:
- usuarios, alumnos, docentes, asignaturas, notas;
- the matriculas pair table;
- the historiales snapshots.

`Escuela.Valid()` states the table invariants:
- primary keys are unique;
- the composite key of `matriculas` has no duplicate pair;
- enrollments, grades and subjects point at rows that exist.

Every route handler that writes to the database is a method that `modifies` the school. Each one keeps `Valid()` and states its whole new state: the new contents of the tables it changes, and that every other table is unchanged. Handlers that only read are functions, or methods that change nothing.

The model covers three parts.

- **Cycle progression** (`Ciclos`, `AdminRoutes`, `HistorialRoutes`):
  - the cycle-label rewriter, in its digit branch and its Roman-numeral branch;
  - the pass rule (the best published grade must reach 11);
  - promotion to the next cycle with its history snapshot;
  - the previous-cycle map;
  - both history snapshot builders;
  - the history access rule.
- **Grade aggregation** (`PromedioCalculator`, `AlumnoRoutes`, `Estadistica`, `Instantanea`):
  - classifying grade type tags into four buckets;
  - the bucket means and the final average;
  - a student's overall and per-subject mean, maximum and minimum over published grades.
- **Grade lifecycle and the enrollment table** (`DocenteRoutes`, `AdminRoutes`, `TablaMatriculas`):
  - creating, updating, deleting, publishing and unpublishing grades, with the teacher-ownership, enrollment and 0–20 checks;
  - idempotent enrollment insertion;
  - guarded deletions of teachers, subjects and enrollments;
  - grouping a teacher's students by cycle;
  - the preconditions for sending grades by email.

Supporting modules:
- `Cadenas`: Python's `strip`, `lower`, `upper`, substring `in`, `int`/`str` on digit strings;
- `Orden`: Python's string order and `sorted`;
- `Estadistica`: `sum`/`max`/`min`/mean over reals.

Scores are exact `real`s. `round(…, 2)` is not applied (see "Left out").

## Model

| member | source | states |
|---|---|---|
| Cadenas.Strip | backend/routers/admin.py:26 | the stripped label is a contiguous slice of the input with no whitespace at either end |
| Cadenas.StripIdempotent | backend/routers/admin.py:26 | stripping an already stripped label changes nothing |
| Cadenas.StripLower | backend/promedio_calculator.py:31 | stripping and lower-casing commute, so the normalisation order does not matter |
| Cadenas.LowerFacts | backend/promedio_calculator.py:31 | lower-casing is idempotent and undoes any upper-casing |
| Cadenas.ContainsMeans | backend/promedio_calculator.py:38 | the substring test holds exactly when the keyword occurs at some position of the tag |
| Cadenas.NatToString | backend/routers/admin.py:31 | `str(n)` is a non-empty digit string that starts with 0 only for zero |
| Cadenas.DigitsValueOfNatToString | backend/routers/admin.py:29-31 | reading back the printed number gives the number (`int(str(n)) == n`) |
| Ciclos.RomanValue | backend/routers/admin.py:34-36 | a word has a value exactly when it is one of I..X, and that value is its position 1..10 |
| Ciclos.FindRoman | backend/routers/admin.py:38 | finds the first whole-word Roman numeral, and reports none only when no position holds one |
| Ciclos.LastDigitRunFound | backend/routers/admin.py:27 | the scan finds a digit run iff the label has a digit, and what it finds is the last maximal run |
| Ciclos.NextCycleWithDigits | backend/routers/admin.py:26-32 | with a digit in the stripped label, only its last maximal digit run is replaced by that number + 1 |
| Ciclos.NextCycleRoman | backend/routers/admin.py:38-48 | without digits, the first whole-word numeral I..X (any case) is replaced by its successor's name, and X becomes 11 |
| Ciclos.NextCycleFails | backend/routers/admin.py:50 | the rewriter fails iff the label has neither a digit nor a whole-word numeral I..X, and then gives the fixed message; the unsupported-numeral branch can never fire |
| Ciclos.NextCycleIncrements | backend/routers/admin.py:26-32 | for labels with a number, the rewritten label's number is exactly one more |
| CiclosEjemplos.EjemploCicloConAnio | backend/routers/admin.py:26-32 | "2024-I" becomes "2025-I": the numeral is left alone when there is a digit |
| CiclosEjemplos.EjemploRomanoI | backend/routers/admin.py:38-48 | "I" becomes "II" |
| CiclosEjemplos.EjemploRomanoX | backend/routers/admin.py:46 | "X" becomes "11" |
| CiclosEjemplos.EjemploSinCiclo | backend/routers/admin.py:50 | "Ciclo" has no successor |
| CiclosEjemplos.SiguienteNumeral | backend/routers/admin.py:38-48 | each numeral I..IX is rewritten to the next numeral |
| Estadistica.Max | backend/routers/alumno.py:131 | the maximum is one of the scores and bounds all of them from above |
| Estadistica.Min | backend/routers/alumno.py:132 | the minimum is one of the scores and bounds all of them from below |
| Estadistica.MeanBetween | backend/routers/alumno.py:125-132 | a non-empty mean lies between the minimum and the maximum |
| Estadistica.MeanInRange | backend/promedio_calculator.py:58-59 | the mean of scores within a range stays within that range |
| Estadistica.MeanTimesCount | backend/routers/alumno.py:125-126 | mean times count equals sum |
| Orden.LexLeqTotal | backend/routers/docente.py:346-352 | any two strings are comparable |
| Orden.LexLeqTransitivo | backend/routers/docente.py:346-352 | string order is transitive |
| Orden.LexLeqAntisimetrico | backend/routers/docente.py:346-352 | strings that are each at most the other are equal |
| Orden.Ordenar | backend/routers/docente.py:346-352 | `sorted(…, key=…)` returns an ordered permutation of its input |
| Orden.ClavesDistintasTrasPermutar | backend/routers/docente.py:347 | reordering keeps keys pairwise distinct |
| Modelo.Filter | backend/promedio_calculator.py:16-20 | a query filter keeps exactly the rows that satisfy its condition |
| Modelo.Find | backend/routers/alumno.py:55 | `.first()` returns the first row that matches, or none when no row matches |
| Modelo.NextId | backend/models.py:63 | a new autoincrement id is larger than every existing id |
| Modelo.FilterUniqueKey | backend/models.py:24 | a filtered table keeps its primary key unique |
| Modelo.ConHashUnico | backend/routers/alumno.py:226 | replacing one user's password hash keeps ids unique and changes only that user's hash |
| Modelo.Escuela.constructor | backend/models.py:6-83 | an empty database satisfies every table invariant |
| TablaMatriculas.Insertar | backend/routers/admin.py:640-659 | inserting appends to the table, and the resulting pair set is the old set plus the new pairs |
| TablaMatriculas.InsertarNoDup | backend/models.py:78-83 | insertion never duplicates a composite key |
| TablaMatriculas.InsertarCuenta | backend/routers/admin.py:839-861 | the number of rows added is the number of new pairs that were absent |
| TablaMatriculas.InsertarAgregadas | backend/routers/admin.py:849-861 | the rows added are exactly the absent new pairs |
| TablaMatriculas.InsertarPresentes | backend/routers/admin.py:841-850 | inserting pairs that are all present changes nothing |
| TablaMatriculas.InsertarIdempotente | backend/routers/admin.py:839-861 | a second run of the same enrollment adds nothing |
| TablaMatriculas.Quitar | backend/routers/admin.py:961-966 | removing a pair leaves the old pair set without it |
| TablaMatriculas.QuitarUno | backend/routers/admin.py:946-966 | removing a present pair removes exactly one row |
| AdminRoutes.AproboIff | backend/routers/admin.py:53-61 | a subject is passed iff some published grade of the student in it is at least 11, so unpublished grades never count |
| AdminRoutes.DecisionPromocionOk | backend/routers/admin.py:66-89 | promotion is decided iff the label has a successor and the student has at least one enrolled subject of the current cycle, all passed; the decision is that successor |
| AdminRoutes.CulturaSiCicloI | backend/routers/admin.py:135 | the "Cultura" test reduces to "the old cycle is I" |
| AdminRoutes.HistorialPromocionCultura | backend/routers/admin.py:99-151 | the snapshot written on promotion is labelled with the old cycle, names one entry per current subject in order, and gains the fixed "Cultura" entry exactly when the old cycle is "I" |
| AdminRoutes.BuscarReprobada | backend/routers/admin.py:86-89 | the loop returns the first current subject that was not passed |
| AdminRoutes.DecidirPromocion | backend/routers/admin.py:66-89 | the guard sequence returns the decision and the current-cycle subjects |
| AdminRoutes.RegistrarPromocion | backend/routers/admin.py:91-162 | appends one history labelled with the old cycle, sets only that student's ciclo, and leaves enrollments untouched |
| AdminRoutes.MatricularEnSiguienteCiclo | backend/routers/admin.py:64-168 | on a refused decision it reports the message and changes nothing; otherwise it registers the student with the snapshot and reports the next cycle's subject ids |
| AdminRoutes.MatriculaAutomaticaAlumno | backend/routers/admin.py:171-182 | unknown student is 404 and nothing changes; otherwise the whole report of that student's attempt (message and next-cycle subject ids), their row moved to the decided cycle, and the history table extended by exactly the snapshot of the closed cycle when the decision succeeds |
| AdminRoutes.PromoverUno | backend/routers/admin.py:194-195 | one attempt returns the whole report of the student's own decision, changes only that student's row (moved on exactly when the decision succeeds), appends that student's snapshot exactly when it succeeds, and leaves the other tables alone |
| AdminRoutes.MatriculaAutomaticaTodos | backend/routers/admin.py:185-197 | the report, the student table and the appended histories are those of one attempt per student in table order, each decided on that student's own row |
| AdminRoutes.DecisionDeCada | backend/routers/admin.py:193-195 | in a run, student j is decided exactly as an attempt of their own would be |
| AdminRoutes.PromocionPorAlumno | backend/routers/admin.py:193-195 | entry j of the run's report is student j's own report, and row j of the student table is student j moved on by their own decision |
| AdminRoutes.HistorialDeCadaPromovido | backend/routers/admin.py:193-195 | a run writes at most one history per student, and the snapshot of every student who moves on is among them |
| AdminRoutes.ParesAlumnoSon | backend/routers/admin.py:839-861 | the student's pairs are exactly the pairs of that student with some subject of the list |
| AdminRoutes.ParesAsignaturaSon | backend/routers/admin.py:638-659 | the new subject's pairs are exactly the pairs of some student of the list with that subject |
| AdminRoutes.InsertarMatriculas | backend/routers/admin.py:638-659 | the enrollment loop inserts only absent pairs and returns the created rows |
| AdminRoutes.MatricularAlumno | backend/routers/admin.py:812-915 | 404 for an unknown student or a cycle without subjects; otherwise inserts the missing pairs, reports exactly those, and stores a new temporary password hash |
| AdminRoutes.MatriculasDeAsignaturaNueva | backend/routers/admin.py:638-659 | a new subject enrolls every student of its cycle, one row each |
| AdminRoutes.CrearAsignatura | backend/routers/admin.py:605-682 | 404 for an unknown teacher; otherwise appends the subject with a fresh id and enrolls the students of its cycle |
| AdminRoutes.AsignaturaNuevaValida | backend/routers/admin.py:605-682 | adding a subject with a fresh id and an existing teacher keeps every table invariant |
| AdminRoutes.SinDocente | backend/routers/admin.py:599 | deleting keeps every other teacher and only those |
| AdminRoutes.SinUsuario | backend/routers/admin.py:596-597 | deleting keeps every other user and only those |
| AdminRoutes.EliminarDocente | backend/routers/admin.py:572-601 | 404 for an unknown teacher, 400 while it has subjects; otherwise removes the teacher and its user row |
| AdminRoutes.SinAsignatura | backend/routers/admin.py:804-805 | deleting keeps every other subject and only those |
| AdminRoutes.SinAsignaturaValida | backend/routers/admin.py:786-805 | removing a subject with no grades and no enrollments keeps every table invariant |
| AdminRoutes.EliminarAsignatura | backend/routers/admin.py:771-808 | 404 for an unknown subject, 400 with the count while it has grades, then while it has enrollments; otherwise exactly that subject is removed |
| AdminRoutes.EliminarMatricula | backend/routers/admin.py:938-969 | 404 when the pair is absent; otherwise exactly that one pair is removed |
| PromedioCalculator.Normalizar | backend/promedio_calculator.py:31 | the normalised tag is no longer than the raw tag |
| PromedioCalculator.ContieneAlgunaMeans | backend/promedio_calculator.py:48-55 | `any(k in t for k in ks)` holds iff some keyword occurs in the tag |
| PromedioCalculator.NombresActividadPorClaves | backend/promedio_calculator.py:34-39 | every exact activity name would also be found by the activity keywords |
| PromedioCalculator.NombresPracticaPorClaves | backend/promedio_calculator.py:40-41 | every exact practice name is found by the practice keywords |
| PromedioCalculator.NombresParcialPorClaves | backend/promedio_calculator.py:42-43 | every exact midterm name is found by the midterm keyword |
| PromedioCalculator.NombresFinalPorClaves | backend/promedio_calculator.py:44-45 | every exact final-exam name is found by the final keywords |
| PromedioCalculator.ClasificarEsPorPalabrasClave | backend/promedio_calculator.py:34-55 | the exact-name rules never change a result, so classification equals keyword matching in the order activities, practice, midterm, final |
| PromedioCalculator.EjemploExamenParcial2 | backend/promedio_calculator.py:52-53 | "examen parcial 2" matches no exact name and is a midterm by its "parcial" keyword |
| PromedioCalculator.EjemploExamen | backend/promedio_calculator.py:54-55 | a bare "examen" is a final exam by the "examen" keyword |
| PromedioCalculator.NormalizarIdempotente | backend/promedio_calculator.py:31 | normalising twice is normalising once |
| PromedioCalculator.ClasificarIgnoraFormato | backend/promedio_calculator.py:31 | classification ignores letter case and surrounding whitespace |
| PromedioCalculator.Categorizadas | backend/promedio_calculator.py:30-55 | a bucket holds no more scores than there are grades |
| PromedioCalculator.CategoriasParticion | backend/promedio_calculator.py:30-55 | every grade lands in exactly one bucket or is dropped |
| PromedioCalculator.CategorizadasDe | backend/promedio_calculator.py:30-55 | every score in a bucket comes from a grade whose tag classifies to that bucket |
| PromedioCalculator.PromedioTipo | backend/promedio_calculator.py:58-59 | a bucket average is None iff the bucket is empty, and otherwise lies between its min and max |
| PromedioCalculator.PromedioFinal | backend/promedio_calculator.py:66-74 | the final average exists iff all four bucket averages exist, and then is their sum divided by 4 |
| PromedioCalculator.PromediosEnRango | backend/promedio_calculator.py:58-74 | when every grade is in a range, every average is in that range |
| PromedioCalculator.PromedioFinalExiste | backend/promedio_calculator.py:67-74 | the final average exists iff all four buckets are non-empty |
| PromedioCalculator.NotaAjenaNoCuenta | backend/promedio_calculator.py:16-20 | an unpublished grade, or another student's or subject's grade, never changes the averages |
| PromedioCalculator.NotaSinCategoriaNoCuenta | backend/promedio_calculator.py:46-55 | a grade whose tag matches no rule never changes the averages |
| PromedioCalculator.AgruparPorTipo | backend/promedio_calculator.py:22-54 | the four lists built by the loop are exactly the scores of the grades classified into each category, in order |
| PromedioCalculator.CalcularPromediosAlumno | backend/promedio_calculator.py:6-82 | the classification loop computes the five averages of the student's published grades in the subject |
| PromedioCalculator.CalcularPromediosAsignatura | backend/promedio_calculator.py:85-105 | one entry per enrolled student id, each equal to that student's averages |
| Instantanea.ScoresDeCopias | backend/routers/admin.py:125-132 | copied grades carry exactly the original scores |
| Instantanea.EntradaConsistente | backend/routers/admin.py:100-132 | a history subject keeps the name, copies all of the student's grades in it, and its promedio is their mean, or 0.0 with none |
| Instantanea.EntradaEnRango | backend/routers/admin.py:102-107 | a snapshot mean stays within the range of the grades |
| Instantanea.CopiarAsignaturas | backend/routers/historial.py:78-112 | the snapshot loop builds exactly those history subjects |
| DocenteRoutes.BuscarPropia | backend/routers/docente.py:119-128 | the ownership query finds a row iff the subject belongs to the teacher |
| DocenteRoutes.PropiaSegunBusquedaImparte | backend/routers/docente.py:379-385 | with unique subject ids, checking the looked-up subject's teacher is the same as owning it |
| DocenteRoutes.Publicar | backend/routers/docente.py:387-396 | publishing a published grade is a 400; otherwise only `publicada` becomes true |
| DocenteRoutes.Despublicar | backend/routers/docente.py:453-461 | unpublishing a draft is a 400; otherwise only `publicada` becomes false |
| DocenteRoutes.PublicarDespublicar | backend/routers/docente.py:387-396 | publish then unpublish restores the grade, and each transition cannot be repeated |
| DocenteRoutes.RegistrarNota | backend/routers/docente.py:104-163 | refused for a missing teacher, a foreign subject, an unenrolled student or a score outside 0..20, in that order; otherwise stores one new unpublished grade with a fresh id |
| DocenteRoutes.AccesoNota | backend/routers/docente.py:174-198 | in the handler's order: 404 "Docente no encontrado" without a teacher row, then 404 "Nota no encontrada" without the grade, then 403 with the handler's wording when the grade's subject is another teacher's; access succeeds iff all three pass |
| DocenteRoutes.ActualizarNota | backend/routers/docente.py:165-213 | refusals leave grades unchanged; otherwise only calificacion and tipo_nota of that grade change |
| DocenteRoutes.SinNota | backend/routers/docente.py:278-281 | deleting keeps every other grade and only those |
| DocenteRoutes.EliminarNota | backend/routers/docente.py:244-281 | a refusal leaves grades unchanged; otherwise exactly that grade is removed |
| DocenteRoutes.AccesoPublicacion | backend/routers/docente.py:364-385 | in the publish handler's order: 404 "Nota no encontrada" without the grade, then 404 "Docente no encontrado" without a teacher row, then 403 with the handler's wording when the looked-up subject is missing or another teacher's; access succeeds iff all three pass |
| DocenteRoutes.PublicarNota | backend/routers/docente.py:356-420 | a refusal leaves grades unchanged; otherwise the flag is committed before the student lookup, which may still answer 404 |
| DocenteRoutes.DespublicarNota | backend/routers/docente.py:422-486 | the mirror of publishing, for clearing the flag |
| DocenteRoutes.EnviarTodasLasNotas | backend/routers/docente.py:488-610 | sending needs the teacher, ownership, enrollment, the student and at least one published grade, checked in that order; the reported count is the number of published grades |
| DocenteRoutes.AlumnosInscritosUnaVez | backend/routers/docente.py:305-316 | every enrolled student appears exactly once, and only enrolled students appear |
| DocenteRoutes.AsignaturasDelAlumnoPropias | backend/routers/docente.py:325-335 | a student's listed subjects are the teacher's own subjects that the student is enrolled in |
| DocenteRoutes.ListarAsignaturas | backend/routers/docente.py:325-335 | the inner loop builds that subject list |
| DocenteRoutes.AgruparAgrupa | backend/routers/docente.py:319-343 | grouping by ciclo puts each student in the group of their ciclo, with one group per ciclo |
| DocenteRoutes.PresentarAgrupar | backend/routers/docente.py:319-352 | the result is sorted by ciclo, has distinct cycles, covers every student's ciclo, and each group is exactly that ciclo's students sorted by name |
| DocenteRoutes.PresentarOrdena | backend/routers/docente.py:346-352 | the response lists the groups in ciclo order and keeps distinct cycles distinct |
| DocenteRoutes.PresentarGrupos | backend/routers/docente.py:346-352 | each group of the response is an input group with the same ciclo, its students permuted into name order |
| DocenteRoutes.PresentarCubre | backend/routers/docente.py:346-352 | every input group's ciclo appears in the response |
| DocenteRoutes.AgruparInscritos | backend/routers/docente.py:319-343 | the `ciclos` dictionary built by the loop is the grouping of the listed students, each with their subjects |
| DocenteRoutes.ObtenerAlumnosPorCiclo | backend/routers/docente.py:283-354 | 404 for an unknown teacher, empty without subjects or enrollments, otherwise the sorted grouping |
| AlumnoRoutes.MisNotas | backend/routers/alumno.py:48-63 | 404 iff the user has no student row |
| AlumnoRoutes.MisNotasSoloPublicadas | backend/routers/alumno.py:62 | the student receives all of their published grades and nothing else |
| AlumnoRoutes.NotasPorAsignatura | backend/routers/alumno.py:65-100 | 404 for no student, then 404 when not enrolled; otherwise the student's published grades of that subject, all of them and nothing else |
| AlumnoRoutes.Resumir | backend/routers/alumno.py:118-133 | with no grades, the summary is all zeros with no extremes; otherwise maximum and minimum are present and the count is the number of grades |
| AlumnoRoutes.ResumirCorrecto | backend/routers/alumno.py:125-132 | promedio × count is the sum, the extremes are actual scores bounding every grade, and minimum ≤ promedio ≤ maximum |
| AlumnoRoutes.MiPromedio | backend/routers/alumno.py:102-133 | 404 iff no student; otherwise the summary of exactly the student's published grades (so `ResumirCorrecto` gives its mean and attained extremes); total_notas counts them; 0.0 with none; otherwise minimum ≤ promedio ≤ maximum |
| AlumnoRoutes.FilaResume | backend/routers/alumno.py:165-185 | a row holds the count, the mean and a best and worst grade that occur among its subject's published grades and bound them all; all zeros when there are none |
| AlumnoRoutes.FilasCorrectas | backend/routers/alumno.py:156-185 | one row per enrollment whose subject exists, in enrollment order, each holding the count, mean and attained extremes of that subject's published grades |
| AlumnoRoutes.PromedioPorAsignatura | backend/routers/alumno.py:135-187 | 404 iff no student; otherwise the loop yields exactly those rows |
| AlumnoRoutes.CambiarContrasena | backend/routers/alumno.py:204-236 | 400 when the current password does not verify, then 400 when the new one is shorter than 6; the hash changes iff both checks pass |
| HistorialRoutes.HistorialesDeAgregar | backend/routers/historial.py:34 | appending a history adds it to exactly its own student's list |
| HistorialRoutes.CicloAnteriorInverso | backend/routers/historial.py:51-67 | for II..VI the previous cycle is the label whose successor is the given cycle |
| HistorialRoutes.CicloAnteriorOtro | backend/routers/historial.py:51-67 | every other label maps to "Ciclo Anterior", and only those |
| HistorialRoutes.HistorialGeneradoContenido | backend/routers/historial.py:69-130 | the generated history is labelled with the previous cycle, has one entry per enrolled subject of that cycle, and ends with "Cultura" |
| HistorialRoutes.ObtenerMiHistorial | backend/routers/historial.py:19-138 | 404 iff no student; existing histories are returned unchanged; otherwise exactly one is generated, so the result is never empty and is the student's histories |
| HistorialRoutes.AccesoHistorial | backend/routers/historial.py:148-152 | access is granted iff the user is an admin or the student who owns the history; anyone else gets 403 |
| HistorialRoutes.AccesoEscritoSalvoFallo | backend/routers/historial.py:148-152 | the rule as written crashes exactly for non-admin users without a student row, and otherwise agrees with the intended rule |
| HistorialRoutes.AccesoEscritoDocente | backend/routers/historial.py:148-152 | a teacher asking for a student's history gets a 500 as written, and a 403 under the intended rule |
| HistorialRoutes.VerHistorial | backend/routers/historial.py:140-157 | refused with 403 iff access is denied; otherwise exactly that student's histories |
| HistorialRoutes.HistorialDelCicloEsPromocion | backend/routers/historial.py:159-232 | the manual snapshot has the same label and entries as a promotion snapshot, which differs only by the "Cultura" entry of the I→II move |
| HistorialRoutes.CrearHistorialAcademico | backend/routers/historial.py:159-232 | 404 for an unknown student; otherwise appends one snapshot labelled with the current ciclo, and the student's ciclo is unchanged |

Some members have no row of their own. A row's lemma states what each one promises:
- `Ciclos.NextCycle`: `NextCycleWithDigits`, `NextCycleRoman`, `NextCycleFails`, `NextCycleIncrements`.
- `Cadenas.Lower`: `LowerFacts`, `StripLower`.
- `AdminRoutes.Aprobo`: `AproboIff`.
- `AdminRoutes.DecisionPromocion`: `DecisionPromocionOk`, `DecidirPromocion`.
- `AdminRoutes.HistorialPromocion`: `HistorialPromocionCultura`, `RegistrarPromocion`.
- `AdminRoutes.ParesAlumno` and `AdminRoutes.ParesAsignatura`: `ParesAlumnoSon`, `ParesAsignaturaSon`.
- `PromedioCalculator.Clasificar` and `ClasificarNormalizado`: `ClasificarEsPorPalabrasClave`, `ClasificarIgnoraFormato`, the `Nombres…PorClaves` lemmas and the two examples.
- `PromedioCalculator.PromediosAlumno`: `CalcularPromediosAlumno`, `PromediosEnRango`, `NotaAjenaNoCuenta`.
- `Instantanea.CopiasNotas` and `Entradas`: `ScoresDeCopias`, `EntradaConsistente`, `EntradaEnRango`.
- `DocenteRoutes.Listado`: `AgruparInscritos`, `AsignaturasDelAlumnoPropias`.
- `DocenteRoutes.Presentar`: `PresentarOrdena`, `PresentarGrupos`, `PresentarCubre`, `PresentarAgrupar`.
- `HistorialRoutes.CicloAnterior`: `CicloAnteriorInverso`, `CicloAnteriorOtro`.
- `HistorialRoutes.HistorialGenerado`: `HistorialGeneradoContenido`.
- `HistorialRoutes.HistorialDelCiclo`: `HistorialDelCicloEsPromocion`.
- `HistorialRoutes.AccesoHistorialEscrito`: `AccesoEscritoSalvoFallo`, `AccesoEscritoDocente`.
- `AlumnoRoutes.Fila` and `Filas`: `FilaResume`, `FilasCorrectas`.

## Left out

- Email sending (SMTP and templates), the PDF and CSV rendering, the chatbot, the cloud uploads and the React frontend are I/O or presentation. `DocenteRoutes.EnviarTodasLasNotas` takes whether the mail went out as a parameter.
- Password hashing and JWT are foreign libraries. `verify_password` is a function parameter of `AlumnoRoutes.CambiarContrasena`, and every new hash (including the random temporary password in `MatricularAlumno`) is a parameter.
- Clocks: `func.now()` and the database's default timestamps are an `ahora` parameter.
- Floating point: scores are exact reals, and `round(…, 2)` is not applied to any average, so the averages are the exact means.
- `PASSING_GRADE` is the constant 11. Its override from the environment is not modelled.
- Database transactions: each handler is one atomic update. The one partial commit the code makes is modelled: publishing or unpublishing keeps the flag change even when the following student lookup answers 404.
- Query order: rows come back in table order, and a `JOIN` is assumed to return the left table's order.
- DocenteRoutes.Presentar: does not state the order of equal keys (students with the same name, groups with the same ciclo); the model keeps arrival order.
- DocenteRoutes.Listado: leaves out the student's email, which the handler reads through the user relation.
- AlumnoRoutes.MiPromedio: leaves out the constant "mensaje" text of the empty case.
- Cadenas.LowerChar: folds only ASCII and Latin-1 capitals, where Python's `str.lower()` folds all of Unicode; the keywords and labels compared are ASCII or Latin-1.
- Authentication is not modelled: the `require_role` guard that runs before each handler, and the login's refusal of inactive users (`activo`). Each handler starts with an authenticated user of the right role.
- Cycle labels are single-line ASCII. Regex behaviour on newlines and non-ASCII digits is not modelled.
- Not modelled: the other CRUD and listing endpoints of the routers (creating, updating, listing and showing students, teachers, subjects and grades, dashboards, profiles, `mis_asignaturas`, `mi_perfil`, sending passwords) and the authentication router, because they have no academic-progress logic.
- The history tables are not in `backend/models.py`. Their fields are taken from how the routers create them.

## Findings

| source | as written | input that shows it | evidently intended | confidence | as-written member | corrected member |
|---|---|---|---|---|---|---|
| backend/routers/historial.py:148-152 | `hasattr(current_user, "alumno")` is true for every user, because `alumno` is a relationship attribute declared on `Usuario` (backend/models.py:18). A non-admin user without a student row therefore reads `None.id` and the request fails with 500. | a teacher user (id 7, no student row) asks for the history of student 1 | a 403 "No tienes permiso para ver este historial académico" | not executed | HistorialRoutes.AccesoEscritoDocente | HistorialRoutes.AccesoHistorial |
