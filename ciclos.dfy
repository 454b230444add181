/** Cycle labels and their successor: `get_next_cycle` of the admin router.
    A label is stripped; if it holds a digit, its last run of digits is read as
    a number and replaced by that number plus one; otherwise its first
    whole-word Roman numeral I..X (in any case) is replaced by the next one in
    upper case, X becoming "11". */
module Ciclos {
  import opened Cadenas
  import opened Modelo

  const SinSiguiente := "No se pudo determinar el siguiente ciclo a partir del valor de 'ciclo'."
  const RomanoNoSoportado := "No se pudo determinar el siguiente ciclo (roman not supported)"

  /** The numerals of `roman_map`, in the order of their values 1..10. */
  const Romanos: seq<string> := ["I", "II", "III", "IV", "V", "VI", "VII", "VIII", "IX", "X"]

  /** A character of the regular-expression class `\w`. */
  predicate IsWordChar(c: char)
  {
    'a' <= c <= 'z' || 'A' <= c <= 'Z' || IsDigit(c) || c == '_'
  }

  predicate HasDigit(s: string)
  {
    exists k | 0 <= k < |s| :: IsDigit(s[k])
  }

  /** `s[i..j]` is the match of `(\d+)(?!.*\d)`: a maximal run of digits with no
      digit after it. */
  predicate IsLastDigitRun(s: string, i: int, j: int)
  {
    && 0 <= i < j <= |s|
    && (forall k | i <= k < j :: IsDigit(s[k]))
    && (i == 0 || !IsDigit(s[i - 1]))
    && (forall k | j <= k < |s| :: !IsDigit(s[k]))
  }

  /** `s[i..j]` is a match of `\b(I|II|III|IV|V|VI|VII|VIII|IX|X)\b` under
      IGNORECASE: a whole word that is a numeral up to case. */
  predicate IsRomanWordAt(s: string, i: int, j: int)
  {
    && 0 <= i < j <= |s|
    && (i == 0 || !IsWordChar(s[i - 1]))
    && (j == |s| || !IsWordChar(s[j]))
    && Upper(s[i..j]) in Romanos
  }

  /** Scanning down from `j`: the end of the last digit run in `s[..j]`, or 0. */
  function LastDigitEnd(s: string, j: nat): (e: nat)
    requires j <= |s|
    ensures e <= j
    ensures e > 0 ==> IsDigit(s[e - 1])
    ensures forall k | e <= k < j :: !IsDigit(s[k])
    decreases j
  {
    if j == 0 || IsDigit(s[j - 1]) then j else LastDigitEnd(s, j - 1)
  }

  /** The start of the run of digits that ends at `j`. */
  function RunStart(s: string, j: nat): (i: nat)
    requires 0 < j <= |s| && IsDigit(s[j - 1])
    ensures i < j
    ensures forall k | i <= k < j :: IsDigit(s[k])
    ensures i == 0 || !IsDigit(s[i - 1])
    decreases j
  {
    if j > 1 && IsDigit(s[j - 2]) then RunStart(s, j - 1) else j - 1
  }

  /** The end of the word that starts at `i`. */
  function WordEnd(s: string, i: nat): (e: nat)
    requires i <= |s|
    ensures i <= e <= |s|
    ensures forall k | i <= k < e :: IsWordChar(s[k])
    ensures e == |s| || !IsWordChar(s[e])
    decreases |s| - i
  {
    if i == |s| || !IsWordChar(s[i]) then i else WordEnd(s, i + 1)
  }

  /** Position of `w` in `Romanos` (a dictionary lookup). */
  function RomanIndex(w: string, k: nat): (r: Option<nat>)
    requires k <= |Romanos|
    ensures r.Some? ==> k <= r.value < |Romanos| && Romanos[r.value] == w
    ensures r.None? ==> forall m | k <= m < |Romanos| :: Romanos[m] != w
    decreases |Romanos| - k
  {
    if k == |Romanos| then None
    else if Romanos[k] == w then Some(k)
    else RomanIndex(w, k + 1)
  }

  /** `roman_map.get(w)` */
  function RomanValue(w: string): (v: Option<nat>)
    ensures v.Some? <==> w in Romanos
    ensures v.Some? ==> 1 <= v.value <= 10 && Romanos[v.value - 1] == w
  {
    match RomanIndex(w, 0)
    case None => None
    case Some(k) => Some(k + 1)
  }

  /** `inv_map.get(n, str(n))` */
  function RomanName(n: nat): string
  {
    if 1 <= n <= 10 then Romanos[n - 1] else NatToString(n)
  }

  /** The leftmost match of the Roman-numeral pattern at or after `i`. */
  function FindRoman(s: string, i: nat): (r: Option<(nat, nat)>)
    requires i <= |s|
    ensures r.Some? ==> i <= r.value.0 && IsRomanWordAt(s, r.value.0, r.value.1)
    ensures r.Some? ==> forall i', j' | i <= i' < r.value.0 :: !IsRomanWordAt(s, i', j')
    ensures r.None? ==> forall i', j' | i <= i' :: !IsRomanWordAt(s, i', j')
    decreases |s| - i
  {
    if i == |s| then None
    else
      var e := WordEnd(s, i);
      if (i == 0 || !IsWordChar(s[i - 1])) && i < e && Upper(s[i..e]) in Romanos then
        Some((i, e))
      else
        assert forall j' :: !IsRomanWordAt(s, i, j') by {
          forall j' | IsRomanWordAt(s, i, j') ensures false {
            RomanWordEndsWord(s, i, j');
          }
        }
        FindRoman(s, i + 1)
  }

  /** Python's `get_next_cycle`; the error is the message of the `ValueError`. */
  function NextCycle(ciclo: string): Result<string, string>
  {
    var text := Strip(ciclo);
    var j := LastDigitEnd(text, |text|);
    if j > 0 then
      var i := RunStart(text, j);
      Ok(text[..i] + NatToString(DigitsValue(text[i..j]) + 1) + text[j..])
    else
      match FindRoman(text, 0)
      case None => Err(SinSiguiente)
      case Some(m) =>
        match RomanValue(Upper(text[m.0..m.1]))
        case None => Err(RomanoNoSoportado)
        case Some(v) => Ok(text[..m.0] + RomanName(v + 1) + text[m.1..])
  }

  /** The number a label carries in its last digit run, if it has digits. */
  function CycleNumber(ciclo: string): Option<nat>
  {
    var text := Strip(ciclo);
    var j := LastDigitEnd(text, |text|);
    if j > 0 then Some(DigitsValue(text[RunStart(text, j)..j])) else None
  }

  // ---------------------------------------------------------------------
  // The regular-expression matches are the ones the scans find.

  lemma RomanLetters(w: string)
    requires w in Romanos
    ensures forall k | 0 <= k < |w| :: w[k] == 'I' || w[k] == 'V' || w[k] == 'X'
  {
  }

  /** A numeral match covers exactly one whole word. */
  lemma RomanWordEndsWord(s: string, i: nat, j: nat)
    requires i <= |s| && IsRomanWordAt(s, i, j)
    ensures j == WordEnd(s, i)
  {
    var w := Upper(s[i..j]);
    RomanLetters(w);
    forall k | i <= k < j ensures IsWordChar(s[k]) {
      assert w[k - i] == UpperChar(s[k]);
    }
  }

  lemma LastDigitRunUnique(s: string, i: int, j: int, i': int, j': int)
    requires IsLastDigitRun(s, i, j) && IsLastDigitRun(s, i', j')
    ensures i == i' && j == j'
  {
    assert IsDigit(s[j - 1]) && IsDigit(s[j' - 1]);
    assert j == j';
  }

  /** The scans find the last digit run, and find one exactly when there is a digit. */
  lemma LastDigitRunFound(s: string)
    ensures LastDigitEnd(s, |s|) > 0 <==> HasDigit(s)
    ensures LastDigitEnd(s, |s|) > 0 ==>
              IsLastDigitRun(s, RunStart(s, LastDigitEnd(s, |s|)), LastDigitEnd(s, |s|))
  {
    var e := LastDigitEnd(s, |s|);
    if e > 0 {
      assert IsDigit(s[e - 1]);
    }
  }

  lemma LastDigitRunIsScanned(s: string, i: int, j: int)
    requires IsLastDigitRun(s, i, j)
    ensures LastDigitEnd(s, |s|) == j && RunStart(s, j) == i
  {
    assert IsDigit(s[j - 1]);
    LastDigitRunFound(s);
    LastDigitRunUnique(s, i, j, RunStart(s, LastDigitEnd(s, |s|)), LastDigitEnd(s, |s|));
  }

  // ---------------------------------------------------------------------
  // What `get_next_cycle` computes.

  /** With a digit in the label: the last digit run, read as a number, is
      replaced by that number plus one, written without leading zeros; the rest
      of the stripped label (any Roman numeral included) is kept. */
  lemma NextCycleWithDigits(ciclo: string, i: int, j: int)
    requires IsLastDigitRun(Strip(ciclo), i, j)
    ensures NextCycle(ciclo) == Ok(Strip(ciclo)[..i] + NatToString(DigitsValue(Strip(ciclo)[i..j]) + 1) + Strip(ciclo)[j..])
  {
    LastDigitRunIsScanned(Strip(ciclo), i, j);
  }

  /** Without digits: the first whole-word numeral is replaced by its successor. */
  lemma NextCycleRoman(ciclo: string, i: int, j: int)
    requires !HasDigit(Strip(ciclo))
    requires IsRomanWordAt(Strip(ciclo), i, j)
    requires forall i', j' | 0 <= i' < i :: !IsRomanWordAt(Strip(ciclo), i', j')
    ensures RomanValue(Upper(Strip(ciclo)[i..j])).Some?
    ensures NextCycle(ciclo) ==
              Ok(Strip(ciclo)[..i] + RomanName(RomanValue(Upper(Strip(ciclo)[i..j])).value + 1) + Strip(ciclo)[j..])
  {
    var text := Strip(ciclo);
    LastDigitRunFound(text);
    var m := FindRoman(text, 0);
    assert m.Some?;
    assert m.value.0 == i;
    RomanWordEndsWord(text, i, j);
    RomanWordEndsWord(text, i, m.value.1);
  }

  /** `get_next_cycle` fails exactly when the label has neither a digit nor a
      whole-word numeral, and then with the generic message: the
      "roman not supported" branch is unreachable. */
  lemma NextCycleFails(ciclo: string)
    ensures NextCycle(ciclo).Err? <==>
              !HasDigit(Strip(ciclo)) && forall i, j :: !IsRomanWordAt(Strip(ciclo), i, j)
    ensures NextCycle(ciclo).Err? ==> NextCycle(ciclo).error == SinSiguiente
  {
    var text := Strip(ciclo);
    LastDigitRunFound(text);
    var m := FindRoman(text, 0);
    if m.Some? {
      assert IsRomanWordAt(text, m.value.0, m.value.1);
    }
  }

  /** Putting a number in place of the last digit run keeps it the last digit run. */
  lemma ReplaceLastRun(text: string, i: int, j: int, num: string)
    requires IsLastDigitRun(text, i, j)
    requires |num| > 0 && AllDigits(num)
    ensures (text[..i] + num + text[j..])[i..i + |num|] == num
    ensures IsLastDigitRun(text[..i] + num + text[j..], i, i + |num|)
  {
    var r := text[..i] + num + text[j..];
    var j2 := i + |num|;
    assert r[i..j2] == num;
    forall k | j2 <= k < |r| ensures !IsDigit(r[k]) {
      assert r[k] == text[k - j2 + j];
    }
    forall k | i <= k < j2 ensures IsDigit(r[k]) {
      assert r[k] == num[k - i];
    }
    if i > 0 {
      assert r[i - 1] == text[i - 1];
    }
  }

  /** Replacing a slice of a stripped label by digits leaves it stripped. */
  lemma ReplaceKeepsStripped(text: string, i: int, j: int, num: string)
    requires 0 <= i <= j <= |text|
    requires text == [] || (!IsSpace(text[0]) && !IsSpace(text[|text| - 1]))
    requires |num| > 0 && AllDigits(num)
    ensures Strip(text[..i] + num + text[j..]) == text[..i] + num + text[j..]
  {
    var r := text[..i] + num + text[j..];
    assert r[0] == (if i > 0 then text[0] else num[0]);
    assert r[|r| - 1] == (if j < |text| then text[|text| - 1] else num[|num| - 1]);
    StripTrimmed(r);
  }

  /** A label with a number keeps one, and its number goes up by exactly one:
      promotion counts cycles "Ciclo 1", "Ciclo 2", ... */
  lemma NextCycleIncrements(ciclo: string)
    requires CycleNumber(ciclo).Some?
    ensures NextCycle(ciclo).Ok?
    ensures CycleNumber(NextCycle(ciclo).value) == Some(CycleNumber(ciclo).value + 1)
  {
    var text := Strip(ciclo);
    LastDigitRunFound(text);
    var j := LastDigitEnd(text, |text|);
    var i := RunStart(text, j);
    var n := DigitsValue(text[i..j]);
    var num := NatToString(n + 1);
    var r := text[..i] + num + text[j..];
    assert NextCycle(ciclo) == Ok(r);
    StripIdempotent(ciclo);
    CycleNumberReplaced(text, i, j, num);
    DigitsValueOfNatToString(n + 1);
  }

  /** Replacing the last digit run of a stripped label by a number makes that
      number the label's cycle number. */
  lemma CycleNumberReplaced(text: string, i: int, j: int, num: string)
    requires Strip(text) == text && IsLastDigitRun(text, i, j)
    requires |num| > 0 && AllDigits(num)
    ensures CycleNumber(text[..i] + num + text[j..]) == Some(DigitsValue(num))
  {
    var r := text[..i] + num + text[j..];
    ReplaceKeepsStripped(text, i, j, num);
    ReplaceLastRun(text, i, j, num);
    LastDigitRunIsScanned(r, i, i + |num|);
  }
}

/** Labels in the forms the school uses, and what promotion turns them into. */
module CiclosEjemplos {
  import opened Cadenas
  import opened Ciclos
  import opened Modelo

  /** A year-and-numeral label: the year, its last number, goes up. */
  lemma EjemploCicloConAnio()
    ensures NextCycle("2024-I") == Ok("2025-I")
  {
    var t := "2024-I";
    StripTrimmed(t);
    AnioEsUltimaCorrida();
    NextCycleWithDigits(t, 0, 4);
    AnioSiguiente();
    assert t[0..4] == "2024";
    assert t[..0] + "2025" + t[4..] == "2025-I";
  }

  lemma AnioEsUltimaCorrida()
    ensures IsLastDigitRun("2024-I", 0, 4)
  {
  }

  lemma AnioSiguiente()
    ensures AllDigits("2024") && NatToString(DigitsValue("2024") + 1) == "2025"
  {
    assert NatToString(2) == "2";
    assert NatToString(20) == "20";
    assert NatToString(202) == "202";
    assert NatToString(2024) == "2024";
    DigitsValueOfNatToString(2024);
  }

  lemma EjemploRomanoI()
    ensures NextCycle("I") == Ok("II")
  {
    var t := "I";
    StripTrimmed(t);
    assert Upper(t) == "I";
    assert IsRomanWordAt(t, 0, 1);
    LastDigitRunFound(t);
    NextCycleRoman(t, 0, 1);
    assert t[0..1] == "I";
    assert RomanValue("I") == Some(1);
    assert t[..0] + "II" + t[1..] == "II";
  }

  /** No numeral is listed twice. */
  lemma NumeralesDistintos(a: nat, b: nat)
    requires a < |Romanos| && b < |Romanos| && Romanos[a] == Romanos[b]
    ensures a == b
  {
    assert Romanos[a][0] == Romanos[b][0] && |Romanos[a]| == |Romanos[b]|;
  }

  /** A label that is exactly one of the numerals I..IX becomes the next
      numeral. */
  lemma SiguienteNumeral(k: nat)
    requires k < 9
    ensures NextCycle(Romanos[k]) == Ok(Romanos[k + 1])
  {
    var t := Romanos[k];
    NumeralSolo(t);
    NextCycleRoman(t, 0, |t|);
    var v := RomanValue(t).value;
    NumeralesDistintos(v - 1, k);
    assert t[..0] + Romanos[k + 1] + t[|t|..] == Romanos[k + 1];
  }

  /** A numeral on its own is a stripped, upper-case, digit-free label whose
      only word is that numeral. */
  lemma NumeralSolo(t: string)
    requires t in Romanos
    ensures Strip(t) == t && !HasDigit(t)
    ensures IsRomanWordAt(t, 0, |t|) && Upper(t[0..|t|]) == t
  {
    RomanLetters(t);
    StripTrimmed(t);
    assert Upper(t) == t;
    assert t[0..|t|] == t;
  }

  /** "X" is the last numeral: its successor is written as a number. */
  lemma EjemploRomanoX()
    ensures NextCycle("X") == Ok("11")
  {
    var t := "X";
    StripTrimmed(t);
    assert Upper(t) == "X";
    assert IsRomanWordAt(t, 0, 1);
    LastDigitRunFound(t);
    NextCycleRoman(t, 0, 1);
    assert t[0..1] == "X" == Romanos[9];
    NumeralesDistintos(RomanValue("X").value - 1, 9);
    assert NatToString(11) == "11";
    assert t[..0] + "11" + t[1..] == "11";
  }

  lemma EjemploSinCiclo()
    ensures NextCycle("Ciclo") == Err(SinSiguiente)
  {
    var t := "Ciclo";
    StripTrimmed(t);
    assert !HasDigit(t);
    forall i, j ensures !IsRomanWordAt(t, i, j) {
      if 0 <= i < j <= |t| {
        if i > 0 {
          assert IsWordChar(t[i - 1]);
        } else if j < |t| {
          assert IsWordChar(t[j]);
        } else {
          assert t[i..j] == t;
          assert Upper(t)[0] == 'C';
        }
      }
    }
    NextCycleFails(t);
  }
}
