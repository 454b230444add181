/** Python's ordering of strings (code point by code point, a proper prefix
    first) and `sorted(..., key=...)` on a sequence. */
module Orden {

  /** `a <= b` on strings. */
  predicate LexLeq(a: string, b: string)
    decreases |a|
  {
    if a == [] then true
    else if b == [] then false
    else if a[0] != b[0] then a[0] < b[0]
    else LexLeq(a[1..], b[1..])
  }

  lemma {:induction false} LexLeqReflexivo(a: string)
    ensures LexLeq(a, a)
    decreases |a|
  {
    if a != [] {
      LexLeqReflexivo(a[1..]);
    }
  }

  lemma {:induction false} LexLeqTotal(a: string, b: string)
    ensures LexLeq(a, b) || LexLeq(b, a)
    decreases |a|
  {
    if a != [] && b != [] && a[0] == b[0] {
      LexLeqTotal(a[1..], b[1..]);
    }
  }

  lemma {:induction false} LexLeqAntisimetrico(a: string, b: string)
    requires LexLeq(a, b) && LexLeq(b, a)
    ensures a == b
    decreases |a|
  {
    if a != [] && b != [] {
      LexLeqAntisimetrico(a[1..], b[1..]);
      assert a == [a[0]] + a[1..] && b == [b[0]] + b[1..];
    }
  }

  lemma {:induction false} LexLeqTransitivo(a: string, b: string, c: string)
    requires LexLeq(a, b) && LexLeq(b, c)
    ensures LexLeq(a, c)
    decreases |a|
  {
    if a != [] && b != [] && c != [] && a[0] == b[0] && b[0] == c[0] {
      LexLeqTransitivo(a[1..], b[1..], c[1..]);
    }
  }

  /** `xs` is in non-decreasing order of `key`. */
  predicate Ordenada<T>(xs: seq<T>, key: T -> string)
  {
    forall i, j | 0 <= i < j < |xs| :: LexLeq(key(xs[i]), key(xs[j]))
  }

  /** Insert `x` after every element whose key is at most its own, which
      keeps equal keys in arrival order. */
  function InsertarOrdenado<T>(ys: seq<T>, x: T, key: T -> string): (r: seq<T>)
    requires Ordenada(ys, key)
    ensures Ordenada(r, key) && |r| == |ys| + 1
    ensures multiset(r) == multiset(ys) + multiset{x}
  {
    if ys == [] then [x]
    else
      var y := ys[|ys| - 1];
      var ys' := ys[..|ys| - 1];
      assert ys == ys' + [y];
      if LexLeq(key(y), key(x)) then
        assert forall i | 0 <= i < |ys'| :: LexLeq(key(ys'[i]), key(x)) by {
          forall i | 0 <= i < |ys'| ensures LexLeq(key(ys'[i]), key(x)) {
            LexLeqTransitivo(key(ys[i]), key(y), key(x));
          }
        }
        ys + [x]
      else
        var r' := InsertarOrdenado(ys', x, key);
        LexLeqTotal(key(y), key(x));
        assert forall z | z in r' :: LexLeq(key(z), key(y)) by {
          forall z | z in r' ensures LexLeq(key(z), key(y)) {
            assert z in multiset(r');
            if z != x {
              var i :| 0 <= i < |ys'| && ys'[i] == z;
              assert ys[i] == z;
            }
          }
        }
        r' + [y]
  }

  /** `sorted(xs, key=key)`: an ordered permutation of `xs`. */
  function Ordenar<T>(xs: seq<T>, key: T -> string): (r: seq<T>)
    ensures Ordenada(r, key) && multiset(r) == multiset(xs) && |r| == |xs|
  {
    if xs == [] then []
    else
      assert xs == xs[..|xs| - 1] + [xs[|xs| - 1]];
      InsertarOrdenado(Ordenar(xs[..|xs| - 1], key), xs[|xs| - 1], key)
  }

  /** A value occurring twice in the multiset occurs at two positions. */
  lemma {:induction false} DosApariciones<T>(xs: seq<T>, x: T)
    requires multiset(xs)[x] >= 2
    ensures exists p, q | 0 <= p < q < |xs| :: xs[p] == x && xs[q] == x
  {
    var xs' := xs[..|xs| - 1];
    var y := xs[|xs| - 1];
    assert xs == xs' + [y];
    if y == x {
      assert x in multiset(xs');
      var p :| 0 <= p < |xs'| && xs'[p] == x;
      assert xs[p] == x && xs[|xs| - 1] == x;
    } else {
      DosApariciones(xs', x);
      var p, q :| 0 <= p < q < |xs'| && xs'[p] == x && xs'[q] == x;
      assert xs[p] == x && xs[q] == x;
    }
  }

  /** A key repeated in a permutation is repeated in the original. */
  lemma ClaveRepetida<T>(xs: seq<T>, ys: seq<T>, key: T -> string, i: nat, j: nat)
    requires multiset(xs) == multiset(ys) && i < j < |ys|
    ensures key(ys[i]) == key(ys[j]) ==>
              exists p, q | 0 <= p < q < |xs| :: key(xs[p]) == key(xs[q])
  {
    assert ys[i] in multiset(xs) && ys[j] in multiset(xs);
    var p :| 0 <= p < |xs| && xs[p] == ys[i];
    var q :| 0 <= q < |xs| && xs[q] == ys[j];
    if p < q {
      assert key(xs[p]) == key(ys[i]) && key(xs[q]) == key(ys[j]);
    } else if q < p {
      assert key(xs[q]) == key(ys[j]) && key(xs[p]) == key(ys[i]);
    } else {
      assert ys == ys[..j] + ys[j..];
      assert ys[i] in multiset(ys[..j]) && ys[j] in multiset(ys[j..]);
      assert multiset(ys)[ys[i]] >= 2;
      DosApariciones(xs, ys[i]);
    }
  }

  /** Reordering keeps keys pairwise distinct. */
  lemma ClavesDistintasTrasPermutar<T>(xs: seq<T>, ys: seq<T>, key: T -> string)
    requires multiset(xs) == multiset(ys)
    requires forall p, q | 0 <= p < q < |xs| :: key(xs[p]) != key(xs[q])
    ensures forall i, j | 0 <= i < j < |ys| :: key(ys[i]) != key(ys[j])
  {
    forall i, j | 0 <= i < j < |ys| ensures key(ys[i]) != key(ys[j]) {
      ClaveRepetida(xs, ys, key, i, j);
    }
  }
}
