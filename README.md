# Three Java exercises, modelled and proved in Dafny

The repository holds three unrelated beginner exercises from a Java course
(package `FuncionesYmetodos.EjerciciosResueltos`). This project models the
function at the heart of each one and proves what it computes:

- `NumeroPrimo(int n)`: a trial-division primality check
  (`numero_primo.dfy`, module `NumeroPrimoModel`);
- `Contenedor` and `intercambiar(Contenedor)`: a record of two mutable ints
  and an in-place swap (`intercambio.dfy`, module `Intercambio`);
- `contarVocales(String)`: a count of the ASCII vowels in a string
  (`contador_vocales.dfy`, module `ContadorVocales`).

`java_int.dfy` (module `JavaInt`) defines `int32`, Java's `int`. Both loop
counters `i`, the vowel counter `contador` and the record fields use it, so
every `i++` and `contador++` is proved to stay in range.

**Primality.** The Java loop is `for (int i = 2; i < Math.sqrt(n); i++)`.
The model writes the guard as `i * i < n`. This is an assumption of the
model, not a proved fact about doubles: for every Java `int` n >= 2,
`i < Math.sqrt(n)` holds exactly when `i * i < n`. `NumeroPrimo` is proved
to return `TrialDivisionAccepts(n)`: n > 1 and no i >= 2 with i * i < n
divides n. Lemmas relate that verdict to real primality. Primes are always
accepted. A rejection names a divisor and so proves n composite. Off perfect
squares the verdict equals primality. Because the bound is strict, the
square of every prime is accepted (4, 9, 25, ...). The model keeps that
behaviour; see "## Findings". The bound is the unfloored root, not
`floor(sqrt(n))`: for a non-square n the loop does try `floor(sqrt(n))` (for
n = 10 it tries 3), and the model follows the code in this.

**Swap.** `Contenedor` is a Dafny class with fields `a` and `b`.
`Intercambiar` modifies only that object and exchanges the two fields. Its
contract states the new fields as the value-level `Swapped` of the old ones,
a `Pair` with its components exchanged, whose involution is proved. Two further methods show the effect of two swaps
and the program's own (5, 10) scenario.

**Vowels.** `ContarVocales` is the Java loop. Its invariant says the counter
equals `CountVowels` of the prefix scanned so far. Java's `indexOf` is
modelled by `IndexOf`, proved to return -1 exactly when the character is
absent. `CountVowels` is proved equal to the number of vowel positions and
additive over concatenation. The program's example string counts 4, since
'ó' and 'á' are not in the set.

## Model

| member | source | states |
|---|---|---|
| `NumeroPrimoModel.NumeroPrimo` | src/FuncionesYmetodos/EjerciciosResueltos/TRES_MetododeVerificaciondePrimo.java:14-24 | false for every n <= 1; otherwise true exactly when no i >= 2 with i * i < n divides n; the int counter never overflows |
| `NumeroPrimoModel.RootBoundFitsInt` | src/FuncionesYmetodos/EjerciciosResueltos/TRES_MetododeVerificaciondePrimo.java:18 | while i * i fits in an int, i < 46341, so `i++` stays within Integer.MAX_VALUE |
| `NumeroPrimoModel.RejectedIsComposite` | src/FuncionesYmetodos/EjerciciosResueltos/TRES_MetododeVerificaciondePrimo.java:18-20 | a false verdict for n > 1 yields an i >= 2 with i * i < n dividing n, so n is not prime |
| `NumeroPrimoModel.PrimeAccepted` | src/FuncionesYmetodos/EjerciciosResueltos/TRES_MetododeVerificaciondePrimo.java:18-23 | every prime is reported prime |
| `NumeroPrimoModel.AcceptedIffPrimeOffSquares` | src/FuncionesYmetodos/EjerciciosResueltos/TRES_MetododeVerificaciondePrimo.java:18-23 | for n > 1 that is not a perfect square, the verdict is true if and only if n is prime |
| `NumeroPrimoModel.PrimeSquareAccepted` | src/FuncionesYmetodos/EjerciciosResueltos/TRES_MetododeVerificaciondePrimo.java:18 | for every prime p, p * p is reported prime although it is composite |
| `NumeroPrimoModel.TwoAndThreeSkipLoop` | src/FuncionesYmetodos/EjerciciosResueltos/TRES_MetododeVerificaciondePrimo.java:18-23 | for n = 2 and n = 3 the guard fails at i = 2, the body never runs, and the verdict is true |
| `NumeroPrimoModel.Examples` | src/FuncionesYmetodos/EjerciciosResueltos/TRES_MetododeVerificaciondePrimo.java:15-23 | 1, 0 and -5 are rejected, 17 is accepted, 18 is rejected, and 4, 9 and 25 are accepted though composite |
| `NumeroPrimoModel.NumeroPrimoCorregido` | src/FuncionesYmetodos/EjerciciosResueltos/TRES_MetododeVerificaciondePrimo.java:14-24 | with the bound `i <= sqrt(n)` the verdict is exactly primality, for every int |
| `Intercambio.Contenedor.constructor` | src/FuncionesYmetodos/EjerciciosResueltos/CUATRO_MetododeIntercambio.java:8-11 | the new record holds its arguments unchanged in `a` and `b` |
| `Intercambio.Intercambiar` | src/FuncionesYmetodos/EjerciciosResueltos/CUATRO_MetododeIntercambio.java:14-18 | new `a` is old `b` and new `b` is old `a`; only that record changes; equal fields leave it unchanged |
| `Intercambio.SwappedInvolution` | src/FuncionesYmetodos/EjerciciosResueltos/CUATRO_MetododeIntercambio.java:14-18 | swapping a pair twice gives the original pair |
| `Intercambio.SwappedFixesEqualFields` | src/FuncionesYmetodos/EjerciciosResueltos/CUATRO_MetododeIntercambio.java:15-17 | a swap leaves a pair as it was if and only if its two fields are equal |
| `Intercambio.IntercambiarDosVeces` | src/FuncionesYmetodos/EjerciciosResueltos/CUATRO_MetododeIntercambio.java:14-18 | two calls of `intercambiar` restore both fields |
| `Intercambio.EscenarioPrincipal` | src/FuncionesYmetodos/EjerciciosResueltos/CUATRO_MetododeIntercambio.java:20-26 | a record created as (5, 10) reads (10, 5) after one swap |
| `ContadorVocales.IndexOf` | src/FuncionesYmetodos/EjerciciosResueltos/ContadorVocales.java:11 | `indexOf` returns -1 exactly when the character is absent, otherwise its first position |
| `ContadorVocales.IndexOfTestIsVowel` | src/FuncionesYmetodos/EjerciciosResueltos/ContadorVocales.java:7-11 | the test `vocales.indexOf(c) != -1` holds exactly for the ten ASCII vowels a, e, i, o, u, A, E, I, O, U |
| `ContadorVocales.CountVowels` | src/FuncionesYmetodos/EjerciciosResueltos/ContadorVocales.java:6-15 | the count never exceeds the length of the string |
| `ContadorVocales.ContarVocales` | src/FuncionesYmetodos/EjerciciosResueltos/ContadorVocales.java:5-16 | the counter equals the vowel count of the whole string and lies between 0 and its length; after each index it is the count of the prefix scanned |
| `ContadorVocales.CountIsNumberOfVowelPositions` | src/FuncionesYmetodos/EjerciciosResueltos/ContadorVocales.java:7-15 | the count equals the number of positions holding a vowel |
| `ContadorVocales.CountAppend` | src/FuncionesYmetodos/EjerciciosResueltos/ContadorVocales.java:9-14 | the count of s + t is the count of s plus the count of t |
| `ContadorVocales.EmptyHasNoVowels` | src/FuncionesYmetodos/EjerciciosResueltos/ContadorVocales.java:6-9 | the empty string counts 0 |
| `ContadorVocales.ExampleHolaComoEstas` | src/FuncionesYmetodos/EjerciciosResueltos/ContadorVocales.java:19-20 | 'ó' and 'á' are not vowels, and "Hola, ¿cómo estás?" counts 4 |

## Findings

| source | as written | input that shows it | evidently intended | confidence | as-written member | corrected member |
|---|---|---|---|---|---|---|
| src/FuncionesYmetodos/EjerciciosResueltos/TRES_MetododeVerificaciondePrimo.java:18 | `i < Math.sqrt(n)` never tries the integer square root | n = 9 (any square of a prime: 4, 9, 25, ...) returns true | `i <= Math.sqrt(n)`, under which the result is exactly primality | high, not executed | `NumeroPrimoModel.PrimeSquareAccepted` | `NumeroPrimoModel.NumeroPrimoCorregido` |

`NumeroPrimo` itself keeps the behaviour as written. The corrected method
stands beside it and nothing else depends on either.

## Left out

- The three `main` methods: they only read from `System.in` with a `Scanner`
  and print with `System.out.println`. Console input and output are not modelled.
- `Integer.parseInt` of the console line and the `NumberFormatException` it
  throws on bad input: a library call on console input. `NumeroPrimo` takes an
  already parsed `int`.
- `Math.sqrt` as floating point: replaced by the integer test `i * i < n`. That
  the two agree for every `int` n >= 2 is assumed, not proved.
- Java's UTF-16 `char`: strings are Dafny `seq<char>`, one element per character.
  Characters outside the Basic Multilingual Plane, which Java stores as two
  `char`s, are not distinguished. None of them is a vowel either way.
- The unused `javax.naming.NamingEnumeration` import.
- Null arguments: `intercambiar(null)` and `contarVocales(null)` would throw a
  `NullPointerException` at the first field access or `cadena.length()`. The Dafny
  types `Contenedor` and `string` are non-null, so these calls cannot be written.
  Every call in the program passes a non-null value.

