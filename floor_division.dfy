/** BibCpp::unsignedModulo: division of a signed value by an unsigned modulus
    that is meant to round the quotient toward negative infinity, so that the
    remainder is never negative (src/LibCpp/Time/y2038Calendar.cpp:342-380). */
module FloorDivision {
  import opened CTypes

  datatype DivMod = DivMod(divisor: int, remainder: nat)

  /** The pair unsignedModulo returns, as written: C's truncating quotient
      and remainder, patched when the quotient or the remainder is negative. */
  function UnsignedModuloResult(value: int, modulo: uint64): DivMod
  {
    if modulo == 0 then DivMod(1, 0)
    else Patched(TruncDiv(value, modulo), TruncMod(value, modulo), modulo)
  }

  /** The patch applied to C's quotient div0 and remainder rem0. */
  function Patched(div0: int, rem0: int, modulo: nat): DivMod
  {
    var div1 := if div0 < 0 then div0 - 1 else div0;
    var rem1 := if div0 < 0 && rem0 < 0 then rem0 + modulo else rem0;
    if div1 == 0 && rem1 < 0 then DivMod(div1 - 1, ToUInt64(rem1 + modulo))
    else DivMod(div1, ToUInt64(rem1))
  }

  /** A zero modulus gives divisor 1 and remainder 0. Otherwise the result is
      the floor division, whose remainder lies in [0, modulo), except for a
      negative exact multiple of the modulus, whose quotient is decremented
      once too often. */
  lemma {:induction false} UnsignedModuloSpec(value: int, modulo: uint64)
    ensures modulo == 0 ==> UnsignedModuloResult(value, modulo) == DivMod(1, 0)
    ensures modulo > 0 && !NegativeMultiple(value, modulo) ==>
      UnsignedModuloResult(value, modulo) == FloorDivMod(value, modulo)
    ensures modulo > 0 && NegativeMultiple(value, modulo) ==>
      UnsignedModuloResult(value, modulo) == DivMod(value / modulo - 1, 0)
  {
    if modulo > 0 {
      if value >= 0 {
        UnsignedModuloNonNegative(value, modulo);
      } else {
        UnsignedModuloNegativeValue(value, modulo);
      }
    }
  }

  lemma UnsignedModuloNegativeValue(value: int, modulo: uint64)
    requires modulo > 0 && value < 0
    ensures !NegativeMultiple(value, modulo) ==> UnsignedModuloResult(value, modulo) == FloorDivMod(value, modulo)
    ensures NegativeMultiple(value, modulo) ==> UnsignedModuloResult(value, modulo) == DivMod(value / modulo - 1, 0)
  {
    var q := (-value) / modulo;
    var s := (-value) % modulo;
    if s > 0 {
      NegativeWithRemainder(value, modulo, q, s);
    } else {
      NegativeExactMultiple(value, modulo, q);
    }
  }

  /** A negative value that is no multiple: C's quotient -q and remainder -s
      are patched to -q - 1 and modulo - s, the floor division. */
  lemma NegativeWithRemainder(value: int, modulo: uint64, q: int, s: int)
    requires modulo > 0 && q >= 0 && 0 < s < modulo && -value == q * modulo + s
    ensures !NegativeMultiple(value, modulo)
    ensures UnsignedModuloResult(value, modulo) == FloorDivMod(value, modulo)
  {
    FloorDivModUnique(-value, modulo, q, s);
    assert UnsignedModuloResult(value, modulo) == Patched(-q, -s, modulo);
    PatchedShapes(q, s, modulo);
    assert value == (-q - 1) * modulo + (modulo - s);
    FloorDivModUnique(value, modulo, -q - 1, modulo - s);
  }

  /** A negative exact multiple -q * modulo: the quotient is decremented
      although the remainder is already 0. */
  lemma NegativeExactMultiple(value: int, modulo: uint64, q: int)
    requires modulo > 0 && q > 0 && -value == q * modulo
    ensures NegativeMultiple(value, modulo)
    ensures UnsignedModuloResult(value, modulo) == DivMod(value / modulo - 1, 0)
  {
    FloorDivModUnique(-value, modulo, q, 0);
    assert UnsignedModuloResult(value, modulo) == Patched(-q, 0, modulo);
    PatchedShapes(q, 0, modulo);
    assert value == (-q) * modulo + 0;
    FloorDivModUnique(value, modulo, -q, 0);
  }

  lemma UnsignedModuloNonNegative(value: int, modulo: uint64)
    requires modulo > 0 && value >= 0
    ensures UnsignedModuloResult(value, modulo) == FloorDivMod(value, modulo)
  {
    assert TruncDiv(value, modulo) == value / modulo;
    assert TruncMod(value, modulo) == value % modulo;
  }

  lemma PatchedShapes(q: int, s: int, modulo: uint64)
    requires modulo > 0 && q >= 0 && 0 <= s < modulo && (q == 0 ==> s > 0)
    ensures s > 0 ==> Patched(-q, -s, modulo) == DivMod(-q - 1, modulo - s)
    ensures s == 0 ==> Patched(-q, -s, modulo) == DivMod(-q - 1, 0)
  {
  }

  /** The inputs on which unsignedModulo goes wrong. */
  predicate NegativeMultiple(value: int, modulo: nat)
    requires modulo > 0
  {
    value < 0 && value % modulo == 0
  }

  /** unsignedModulo step by step, on the local variables of the source. */
  method UnsignedModulo(value: int, modulo: uint64) returns (divisor: int, remainder: nat)
    ensures DivMod(divisor, remainder) == UnsignedModuloResult(value, modulo)
  {
    UnsignedModuloSpec(value, modulo);
    if modulo == 0 {
      divisor := 1;
      remainder := 0;
    } else {
      var div := TruncDiv(value, modulo);
      var rem := TruncMod(value, modulo);
      if div < 0 {
        div := div - 1;
        if rem < 0 {
          rem := rem + modulo;
        }
      }
      if div == 0 && rem < 0 {
        rem := rem + modulo;
        div := div - 1;
      }
      remainder := ToUInt64(rem);
      divisor := div;
    }
  }

  /** The division the function is documented to compute: the quotient rounded
      toward negative infinity (Dafny's `/` and `%` on int). */
  function FloorDivMod(value: int, modulo: nat): (r: DivMod)
    ensures modulo == 0 ==> r == DivMod(1, 0)
    ensures modulo > 0 ==>
      value == r.divisor * modulo + r.remainder && 0 <= r.remainder < modulo
  {
    if modulo == 0 then DivMod(1, 0) else DivMod(value / modulo, value % modulo)
  }

  /** The floor division is the only pair with a remainder in [0, modulo). */
  lemma FloorDivModUnique(value: int, modulo: nat, d: int, r: int)
    requires modulo > 0
    requires value == d * modulo + r && 0 <= r < modulo
    ensures FloorDivMod(value, modulo) == DivMod(d, r)
  {
    DivModUnique(value, modulo, d, r);
  }

  /** Outside the negative exact multiples, unsignedModulo is the floor division. */
  lemma UnsignedModuloIsFloor(value: int, modulo: uint64)
    requires modulo == 0 || !NegativeMultiple(value, modulo)
    ensures UnsignedModuloResult(value, modulo) == FloorDivMod(value, modulo)
  {
    UnsignedModuloSpec(value, modulo);
  }

  /** The source's own stated equation value == divisor * modulo + remainder
      fails at -2 days divided into days: the result is (-3, 0). */
  lemma UnsignedModuloNegativeMultiple()
    ensures UnsignedModuloResult(-2 * 86400, 86400) == DivMod(-3, 0)
    ensures -3 * 86400 + 0 != -2 * 86400
    ensures FloorDivMod(-2 * 86400, 86400) == DivMod(-2, 0)
  {
  }

  /** The remainder is the floor remainder on every input, the negative exact
      multiples included: only the quotient goes wrong there. */
  lemma UnsignedModuloRemainder(value: int, modulo: uint64)
    requires modulo > 0
    ensures UnsignedModuloResult(value, modulo).remainder == value % modulo
  {
    UnsignedModuloSpec(value, modulo);
  }
}
