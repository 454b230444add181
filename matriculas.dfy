/** The `matriculas` table as a set of (student, subject) pairs: insertion
    that skips pairs already present, and removal of one pair. */
module TablaMatriculas {
  import opened Modelo

  /** The pairs a table holds. */
  function Pares(ms: seq<Matricula>): set<Matricula>
  {
    set m | m in ms
  }

  /** A table without repeated rows has as many rows as pairs. */
  lemma {:induction false} NoDupCard(ms: seq<Matricula>)
    requires NoDup(ms)
    ensures |Pares(ms)| == |ms|
  {
    if ms != [] {
      var ms' := ms[..|ms| - 1];
      var m := ms[|ms| - 1];
      assert ms == ms' + [m];
      NoDupCard(ms');
      assert Pares(ms) == Pares(ms') + {m};
      assert m !in Pares(ms') by {
        forall j | 0 <= j < |ms'| ensures ms'[j] != m {
          assert ms[j] == ms'[j];
        }
      }
    }
  }

  /** The table after the insertion loop over `nuevas`: each pair is checked
      against the table as it stands and added at the end when absent. */
  function Insertar(ms: seq<Matricula>, nuevas: seq<Matricula>): (r: seq<Matricula>)
    ensures |ms| <= |r| && r[..|ms|] == ms
    ensures Pares(r) == Pares(ms) + Pares(nuevas)
  {
    if nuevas == [] then ms
    else
      var r := Insertar(ms, nuevas[..|nuevas| - 1]);
      var m := nuevas[|nuevas| - 1];
      assert nuevas == nuevas[..|nuevas| - 1] + [m];
      assert Pares(nuevas) == Pares(nuevas[..|nuevas| - 1]) + {m};
      if m in r then r
      else
        assert (r + [m])[..|ms|] == r[..|ms|];
        r + [m]
  }

  /** Insertion never creates a duplicate row. */
  lemma {:induction false} InsertarNoDup(ms: seq<Matricula>, nuevas: seq<Matricula>)
    requires NoDup(ms)
    ensures NoDup(Insertar(ms, nuevas))
  {
    if nuevas != [] {
      InsertarNoDup(ms, nuevas[..|nuevas| - 1]);
    }
  }

  /** The number of rows added is the number of new pairs that were not
      already there. */
  lemma InsertarCuenta(ms: seq<Matricula>, nuevas: seq<Matricula>)
    requires NoDup(ms)
    ensures |Insertar(ms, nuevas)| - |ms| == |Pares(nuevas) - Pares(ms)|
  {
    var r := Insertar(ms, nuevas);
    InsertarNoDup(ms, nuevas);
    NoDupCard(ms);
    NoDupCard(r);
    var nuevos := Pares(nuevas) - Pares(ms);
    assert Pares(r) == Pares(ms) + nuevos;
    assert Pares(ms) !! nuevos;
    assert |Pares(ms) + nuevos| == |Pares(ms)| + |nuevos|;
  }

  /** The rows added are exactly the new pairs that were not already there. */
  lemma InsertarAgregadas(ms: seq<Matricula>, nuevas: seq<Matricula>)
    requires NoDup(ms)
    ensures Pares(Insertar(ms, nuevas)[|ms|..]) == Pares(nuevas) - Pares(ms)
  {
    var r := Insertar(ms, nuevas);
    var t := r[|ms|..];
    InsertarNoDup(ms, nuevas);
    assert r == ms + t;
    assert Pares(r) == Pares(ms) + Pares(t);
    forall m | m in t ensures m !in Pares(ms) {
      var j :| 0 <= j < |t| && t[j] == m;
      forall i | 0 <= i < |ms| ensures ms[i] != m {
        assert r[i] == ms[i] && r[|ms| + j] == m;
      }
    }
  }

  /** Inserting pairs that are all present changes nothing. */
  lemma {:induction false} InsertarPresentes(ms: seq<Matricula>, nuevas: seq<Matricula>)
    requires Pares(nuevas) <= Pares(ms)
    ensures Insertar(ms, nuevas) == ms
  {
    if nuevas != [] {
      var n' := nuevas[..|nuevas| - 1];
      assert nuevas == n' + [nuevas[|nuevas| - 1]];
      assert Pares(n') <= Pares(nuevas);
      assert nuevas[|nuevas| - 1] in Pares(nuevas);
      InsertarPresentes(ms, n');
    }
  }

  /** Running the same insertion twice adds nothing the second time. */
  lemma InsertarIdempotente(ms: seq<Matricula>, nuevas: seq<Matricula>)
    ensures Insertar(Insertar(ms, nuevas), nuevas) == Insertar(ms, nuevas)
  {
    InsertarPresentes(Insertar(ms, nuevas), nuevas);
  }

  /** The table without one pair (`matriculas.delete().where(...)`). */
  function Quitar(ms: seq<Matricula>, m: Matricula): (r: seq<Matricula>)
    ensures Pares(r) == Pares(ms) - {m}
  {
    var r := Filter(ms, (x: Matricula) => x != m);
    assert forall x | x in ms && x != m :: x in r by {
      forall x | x in ms && x != m ensures x in r {
        var j :| 0 <= j < |ms| && ms[j] == x;
      }
    }
    r
  }

  /** Removing a present pair from a table without duplicates removes one row. */
  lemma QuitarUno(ms: seq<Matricula>, m: Matricula)
    requires NoDup(ms) && m in ms
    ensures NoDup(Quitar(ms, m)) && |Quitar(ms, m)| == |ms| - 1
  {
    FilterNoDup(ms, (x: Matricula) => x != m);
    NoDupCard(ms);
    NoDupCard(Quitar(ms, m));
  }
}
