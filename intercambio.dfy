/**
 * `Contenedor` and `intercambiar`: a record of two mutable Java ints and a static
 * method that exchanges them in place through a temporary.
 */
module Intercambio {
  import opened JavaInt

  /** The record's two fields as a value, for stating what a swap does to them. */
  datatype Pair = Pair(a: int32, b: int32)

  /** The value-level swap: the first component takes the second's value and vice versa. */
  function Swapped(p: Pair): Pair {
    Pair(p.b, p.a)
  }

  /** Swapping twice gives back the original pair. */
  lemma SwappedInvolution(p: Pair)
    ensures Swapped(Swapped(p)) == p
  {
  }

  /** A pair whose fields are equal is its own swap. */
  lemma SwappedFixesEqualFields(p: Pair)
    ensures Swapped(p) == p <==> p.a == p.b
  {
  }

  class Contenedor {
    var a: int32
    var b: int32

    /** The current field values. */
    function Fields(): Pair
      reads this
    {
      Pair(a, b)
    }

    /** Stores its arguments unchanged. */
    constructor (a: int32, b: int32)
      ensures this.a == a && this.b == b
    {
      this.a := a;
      this.b := b;
    }
  }

  /**
   * `intercambiar`: the new `a` is the old `b` and the new `b` the old `a`. Only the
   * two fields of `cont` may change; a record with equal fields is left as it was.
   */
  method Intercambiar(cont: Contenedor)
    modifies cont
    ensures cont.Fields() == Swapped(old(cont.Fields()))
    ensures old(cont.a) == old(cont.b) ==> unchanged(cont)
  {
    var temp := cont.a;
    cont.a := cont.b;
    cont.b := temp;
  }

  /** Applying `intercambiar` twice restores the record, and touches nothing else. */
  method IntercambiarDosVeces(cont: Contenedor)
    modifies cont
    ensures cont.a == old(cont.a) && cont.b == old(cont.b)
  {
    Intercambiar(cont);
    Intercambiar(cont);
  }

  /**
   * The program's own scenario: a fresh record (5, 10), swapped once, reads (10, 5).
   * Returns the fields after the swap.
   */
  method EscenarioPrincipal() returns (a: int32, b: int32)
    ensures a == 10 && b == 5
  {
    var cont := new Contenedor(5, 10);
    Intercambiar(cont);
    a, b := cont.a, cont.b;
  }
}
