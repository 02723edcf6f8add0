/**
 * `contarVocales(String cadena)`: a left-to-right scan that counts every character
 * found in "aeiouAEIOU" by `vocales.indexOf(c) != -1`. Characters are modelled as
 * Dafny chars; accented letters such as 'ó' or 'á' are simply not in the set.
 */
module ContadorVocales {
  import opened JavaInt

  const VOCALES: string := "aeiouAEIOU"

  /**
   * `String.indexOf(char)`: the first position of `c` in `s`, or -1 when `c` does
   * not occur.
   */
  function IndexOf(s: string, c: char): (r: int)
    ensures r == -1 <==> c !in s
    ensures r != -1 ==> 0 <= r < |s| && s[r] == c
    ensures r != -1 ==> forall j :: 0 <= j < r ==> s[j] != c
  {
    if s == [] then -1
    else if s[0] == c then 0
    else
      var k := IndexOf(s[1..], c);
      if k == -1 then -1 else k + 1
  }

  /** The ten ASCII vowels, lower and upper case. */
  predicate IsVowel(c: char) {
    || c == 'a' || c == 'e' || c == 'i' || c == 'o' || c == 'u'
    || c == 'A' || c == 'E' || c == 'I' || c == 'O' || c == 'U'
  }

  /** The Java loop's test `vocales.indexOf(c) != -1` holds exactly for the ten vowels. */
  lemma IndexOfTestIsVowel(c: char)
    ensures IndexOf(VOCALES, c) != -1 <==> IsVowel(c)
  {
  }

  /** Reference count: the vowels of `s`, counted from its last character backwards. */
  function CountVowels(s: string): (r: nat)
    ensures r <= |s|
  {
    if s == [] then 0
    else CountVowels(s[..|s| - 1]) + (if IsVowel(s[|s| - 1]) then 1 else 0)
  }

  /** The positions of `s` that hold a vowel. */
  ghost function VowelPositions(s: string): set<int> {
    set i | 0 <= i < |s| && IsVowel(s[i])
  }

  /** The count is the number of positions holding a vowel. */
  lemma {:induction false} CountIsNumberOfVowelPositions(s: string)
    ensures CountVowels(s) == |VowelPositions(s)|
  {
    if s != [] {
      var n := |s| - 1;
      var front := s[..n];
      CountIsNumberOfVowelPositions(front);
      var all, before := VowelPositions(s), VowelPositions(front);
      var last: set<int> := if IsVowel(s[n]) then {n} else {};
      assert all == before + last by {
        forall i
          ensures i in all <==> i in before + last
        {
          if 0 <= i < n {
            assert front[i] == s[i];
          }
        }
      }
      assert n !in before;
    }
  }

  /** Counting is additive over concatenation. */
  lemma {:induction false} CountAppend(s: string, t: string)
    ensures CountVowels(s + t) == CountVowels(s) + CountVowels(t)
  {
    if t == [] {
      assert s + t == s;
    } else {
      var n := |t| - 1;
      assert (s + t)[..|s + t| - 1] == s + t[..n];
      CountAppend(s, t[..n]);
    }
  }

  /**
   * `contarVocales`: after each index the counter equals the count of the prefix
   * scanned so far; at the end it is the count of the whole string. Java strings are
   * at most Integer.MAX_VALUE long, so the int counter cannot overflow.
   */
  method ContarVocales(cadena: string) returns (contador: int32)
    requires |cadena| <= INT_MAX
    ensures contador as int == CountVowels(cadena)
    ensures 0 <= contador as int <= |cadena|
  {
    contador := 0;
    var i: int32 := 0;
    while (i as int) < |cadena|
      invariant 0 <= i as int <= |cadena|
      invariant contador as int == CountVowels(cadena[..i])
    {
      var c := cadena[i];
      assert cadena[..i + 1][..i] == cadena[..i];
      IndexOfTestIsVowel(c);
      if IndexOf(VOCALES, c) != -1 {
        contador := contador + 1;
      }
      i := i + 1;
    }
    assert cadena[..i] == cadena;
  }

  /** The empty string has no vowels. */
  lemma EmptyHasNoVowels()
    ensures CountVowels("") == 0
  {
  }

  lemma CountHola()
    ensures CountVowels("Hola, ") == 2
  {
    assert "Hola, " == "Hol" + "a, ";
    CountAppend("Hol", "a, ");
  }

  lemma CountComo()
    ensures CountVowels("¿cómo ") == 1
  {
    assert "¿cómo " == "¿có" + "mo ";
    CountAppend("¿có", "mo ");
  }

  lemma CountEstas()
    ensures CountVowels("estás?") == 1
  {
    assert "estás?" == "est" + "ás?";
    CountAppend("est", "ás?");
  }

  /** The program's example: the accented 'ó' and 'á' are not counted, so the result is 4. */
  lemma ExampleHolaComoEstas()
    ensures !IsVowel('ó') && !IsVowel('á')
    ensures CountVowels("Hola, ¿cómo estás?") == 4
  {
    var hola, como, estas := "Hola, ", "¿cómo ", "estás?";
    CountHola();
    CountComo();
    CountEstas();
    assert "Hola, ¿cómo estás?" == (hola + como) + estas;
    CountAppend(hola + como, estas);
    CountAppend(hola, como);
  }
}
