/**
 ECMAScript language values as the test262 harness compares them, with the two
 equality operators its helpers are built from.  Numbers are real numbers plus
 the four values for which the operators disagree with equality of reals.
 */
module JsValues {

  datatype Number = NaN | Infinity(negative: bool) | NegativeZero | Finite(r: real)

  datatype Primitive =
    | Text(s: string)
    | Num(n: Number)
    | BigInt(i: int)
    | Bool(b: bool)
    | Symbol(key: nat)

  /** `Boxed` is a wrapper object such as `new Number(1)`; it has an identity of its own. */
  datatype Value =
    | Undefined
    | Null
    | Prim(p: Primitive)
    | Boxed(boxId: nat, p: Primitive)
    | Ref(id: nat)

  const ZERO := Finite(0.0)

  /** The number with the sign of zero forgotten. */
  function Unsigned(n: Number): Number {
    if n.NegativeZero? then ZERO else n
  }

  function UnsignedPrimitive(p: Primitive): Primitive {
    match p
    case Num(n) => Num(Unsigned(n))
    case _ => p
  }

  /** The `===` operator on primitives. */
  predicate StrictEqualsPrimitive(a: Primitive, b: Primitive) {
    && UnsignedPrimitive(a) == UnsignedPrimitive(b)
    && a != Num(NaN)
  }

  /** The `===` operator; objects are compared by identity. */
  predicate StrictEquals(a: Value, b: Value) {
    match (a, b)
    case (Prim(p), Prim(q)) => StrictEqualsPrimitive(p, q)
    case (Boxed(i, _), Boxed(j, _)) => i == j
    case _ => a == b
  }

  datatype TypeTag = TypeUndefined | TypeObject | TypeString | TypeNumber | TypeBigInt | TypeBoolean | TypeSymbol

  function TypeOfPrimitive(p: Primitive): TypeTag {
    match p
    case Text(_) => TypeString
    case Num(_) => TypeNumber
    case BigInt(_) => TypeBigInt
    case Bool(_) => TypeBoolean
    case Symbol(_) => TypeSymbol
  }

  /** `1 / z` for a zero: the quotient whose sign tells the two zeros apart. */
  function ReciprocalOfZero(z: Value): Value
    requires StrictEquals(z, Prim(Num(ZERO)))
  {
    Prim(Num(Infinity(z.p.n.NegativeZero?)))
  }

  /** The harness's `__t262_isSameValue`. */
  predicate IsSameValue(a: Value, b: Value) {
    if !StrictEquals(a, a) && !StrictEquals(b, b) then true
    else if StrictEquals(a, Prim(Num(ZERO))) && StrictEquals(b, Prim(Num(ZERO))) then
      StrictEquals(ReciprocalOfZero(a), ReciprocalOfZero(b))
    else StrictEquals(a, b)
  }

  /**
   SameValue of section 7.2.11 of ECMA-262, read off the model: two values are the
   same when nothing can tell them apart.  A wrapper is known by its identity.
   */
  predicate SameValue(a: Value, b: Value) {
    if a.Boxed? && b.Boxed? then a.boxId == b.boxId else a == b
  }

  lemma IsSameValueIsSameValue(a: Value, b: Value)
    ensures IsSameValue(a, b) <==> SameValue(a, b)
  {
  }

  // ----- the operators case by case

  /** Two numbers stand for one point of the number line; negative zero stands for 0. */
  predicate NumericallyEqual(m: Number, n: Number) {
    match (m, n)
    case (Finite(x), Finite(y)) => x == y
    case (Infinity(i), Infinity(j)) => i == j
    case (NegativeZero, NegativeZero) => true
    case (NegativeZero, Finite(y)) => y == 0.0
    case (Finite(x), NegativeZero) => x == 0.0
    case _ => false
  }

  /** `===`: numbers by their place on the line, so never NaN; objects by identity; the rest by content. */
  lemma StrictEqualsMeans(a: Value, b: Value)
    ensures StrictEquals(a, b) <==>
      match (a, b)
      case (Prim(Num(m)), Prim(Num(n))) => NumericallyEqual(m, n)
      case (Boxed(i, _), Boxed(j, _)) => i == j
      case _ => a == b
  {
  }

  /** SameValue: as `===`, but NaN is NaN and the two zeros differ. */
  lemma SameValueMeans(a: Value, b: Value)
    ensures SameValue(a, b) <==>
      match (a, b)
      case (Prim(Num(m)), Prim(Num(n))) =>
        (m.NaN? && n.NaN?) || (NumericallyEqual(m, n) && (m.NegativeZero? <==> n.NegativeZero?))
      case (Boxed(i, _), Boxed(j, _)) => i == j
      case _ => a == b
  {
  }
}
