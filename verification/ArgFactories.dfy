/**
 The factories that build the buffer argument of a typed-array constructor: they
 allocate, resize and copy in different orders.
 */
module ArgFactories {
  import opened Bits
  import opened Float64

  /** An element of an argument list; `ZeroText` is the string "0". */
  datatype Element = ZeroText | Other(id: nat)

  /** What a factory is given: a primitive read as a number (or as NaN), or a list of elements. */
  datatype Arg = Count(n: real) | NotANumber | Items(elements: seq<Element>)

  /** A typed-array constructor: its element size, and the bytes it stores for an element. */
  datatype TypedArray = TypedArray(bytesPerElement: nat, encode: Element -> seq<int>)

  ghost predicate Valid(ta: TypedArray) {
    && 0 < ta.bytesPerElement <= 8
    && (forall v :: |ta.encode(v)| == ta.bytesPerElement)
    && ta.encode(ZeroText) == Zeros(ta.bytesPerElement)
  }

  function Zeros(n: nat): (s: seq<int>)
    ensures |s| == n
  {
    seq(n, _ => 0)
  }

  /** The argument itself, a buffer with these bytes, or an exception. */
  datatype Made = Unchanged | Buffer(bytes: seq<int>) | Thrown

  /** A value, or a RangeError. */
  datatype Result<+T> = Ok(value: T) | RangeError

  /** An array can have one element less than this; a buffer, or its maximum, one byte less than 2^53. */
  const ARRAY_LIMIT := 0x1_0000_0000

  /** `Number(n) * TA.BYTES_PER_ELEMENT`, exact because the element sizes are powers of two. */
  function ByteCount(ta: TypedArray, n: real): real { n * (ta.bytesPerElement as real) }

  predicate InRange(x: real) { 0.0 <= x < TWO53 as real }

  function Floor(x: real): nat
    requires x >= 0.0
  {
    x.Floor
  }

  /** The number of counters 0, 1, 2, … below `x`. */
  function CountersBelow(x: real): nat
    requires x >= 0.0
  {
    if x.Floor as real == x then x.Floor else x.Floor + 1
  }

  function Concat(ta: TypedArray, vs: seq<Element>): seq<int> {
    if vs == [] then [] else Concat(ta, vs[..|vs| - 1]) + ta.encode(vs[|vs| - 1])
  }

  lemma {:induction false} ConcatLength(ta: TypedArray, vs: seq<Element>)
    requires Valid(ta)
    ensures |Concat(ta, vs)| == |vs| * ta.bytesPerElement <= 8 * |vs|
  {
    if vs != [] {
      ConcatLength(ta, vs[..|vs| - 1]);
      assert |vs| * ta.bytesPerElement == (|vs| - 1) * ta.bytesPerElement + ta.bytesPerElement;
    }
  }

  lemma {:induction false} ConcatZeros(ta: TypedArray, vs: seq<Element>)
    requires Valid(ta) && forall i | 0 <= i < |vs| :: vs[i] == ZeroText
    ensures Concat(ta, vs) == Zeros(|vs| * ta.bytesPerElement)
  {
    if vs != [] {
      ConcatZeros(ta, vs[..|vs| - 1]);
      assert |vs| * ta.bytesPerElement == (|vs| - 1) * ta.bytesPerElement + ta.bytesPerElement;
    }
  }

  /** An ArrayBuffer with a maximum length (section 25.1 of ECMA-262); a fixed one has its length as maximum. */
  class ArrayBuffer {
    var bytes: seq<int>
    const maxByteLength: nat

    constructor (length: nat, maxByteLength: nat)
      requires length <= maxByteLength
      ensures bytes == Zeros(length) && this.maxByteLength == maxByteLength
    {
      bytes := Zeros(length);
      this.maxByteLength := maxByteLength;
    }

    /** Shrinking drops bytes, growing adds zeros. */
    method Resize(length: nat)
      requires length <= maxByteLength
      modifies this
      ensures bytes == if length <= |old(bytes)| then old(bytes)[..length]
                       else old(bytes) + Zeros(length - |old(bytes)|)
    {
      bytes := if length <= |bytes| then bytes[..length] else bytes + Zeros(length - |bytes|);
    }

    /** `__t262_copyIntoArrayBuffer` */
    method CopyFrom(source: ArrayBuffer)
      requires source != this && |source.bytes| <= |bytes|
      modifies this
      ensures bytes == source.bytes + old(bytes)[|source.bytes|..]
    {
      for i := 0 to |source.bytes|
        invariant |bytes| == |old(bytes)|
        invariant bytes[..i] == source.bytes[..i] && bytes[i..] == old(bytes)[i..]
      {
        bytes := bytes[i := source.bytes[i]];
      }
    }
  }

  /** `new ArrayBuffer(length, { maxByteLength })`: both must be indices (section 7.1.22 of ECMA-262). */
  method Allocate(length: real, maxByteLength: real) returns (r: Result<ArrayBuffer>)
    requires length >= 0.0 && maxByteLength >= 0.0
    ensures r.Ok? <==> Floor(length) < TWO53 && Floor(maxByteLength) < TWO53 && Floor(length) <= Floor(maxByteLength)
    ensures r.Ok? ==> fresh(r.value) && r.value.bytes == Zeros(Floor(length))
                      && r.value.maxByteLength == Floor(maxByteLength)
  {
    if Floor(length) >= TWO53 || Floor(maxByteLength) >= TWO53 { return RangeError; }
    if Floor(length) > Floor(maxByteLength) { return RangeError; }
    var b := new ArrayBuffer(Floor(length), Floor(maxByteLength));
    return Ok(b);
  }

  /** `makeArray`; the push that would make an array too long throws. */
  method MakeArray(arg: Arg) returns (r: Result<Arg>)
    ensures r.RangeError? <==> TooLong(arg)
    ensures r.Ok? && arg.Count? && InRange(arg.n) ==>
            && r.value.Items? && |r.value.elements| == CountersBelow(arg.n) < ARRAY_LIMIT
            && forall i | 0 <= i < |r.value.elements| :: r.value.elements[i] == ZeroText
    ensures r.Ok? && !(arg.Count? && InRange(arg.n)) ==> r.value == arg
  {
    if arg.Items? {
      if |arg.elements| >= ARRAY_LIMIT { return RangeError; }
      return Ok(arg);
    }
    if arg.NotANumber? || !InRange(arg.n) { return Ok(arg); }
    var out: seq<Element> := [];
    var i := 0;
    while i as real < arg.n
      invariant |out| == i && forall j | 0 <= j < i :: out[j] == ZeroText
      invariant i <= CountersBelow(arg.n) && i < ARRAY_LIMIT
      decreases CountersBelow(arg.n) - i
    {
      if |out| + 1 == ARRAY_LIMIT { return RangeError; }
      out := out + [ZeroText];
      i := i + 1;
    }
    return Ok(Items(out));
  }

  /** More elements than an array can have. */
  predicate TooLong(arg: Arg) {
    match arg
    case Items(vs) => |vs| >= ARRAY_LIMIT
    case NotANumber => false
    case Count(n) => InRange(n) && CountersBelow(n) >= ARRAY_LIMIT
  }

  /** `makeArrayBuffer`; null when the argument comes back unchanged. */
  method MakeArrayBuffer(ta: TypedArray, arg: Arg) returns (r: Result<ArrayBuffer?>)
    requires Valid(ta)
    ensures r.Ok? && r.value != null ==> fresh(r.value) && |r.value.bytes| < 8 * ARRAY_LIMIT
    ensures Shape(r) == Plain(ta, arg)
    ensures arg.Items? && |arg.elements| < 4294967296 ==>
      r.Ok? && r.value != null && InOrder(ta, arg.elements, r.value.bytes)
  {
    if arg.Items? && |arg.elements| < ARRAY_LIMIT { ListBytes(ta, arg.elements); }
    var arr := MakeArray(arg);
    if arr.RangeError? { return RangeError; }
    if !arr.value.Items? { return Ok(null); }
    var elements := arr.value.elements;
    hide Concat, Zeros, InRange, CountersBelow;
    var b := new ArrayBuffer(0, 0);
    b.bytes := Concat(ta, elements);
    ConcatLength(ta, elements);
    if arg.Count? { ConcatZeros(ta, elements); }
    return Ok(b);
  }

  ghost function Shape(r: Result<ArrayBuffer?>): Made
    reads if r.Ok? && r.value != null then {r.value} else {}
  {
    if r.RangeError? then Thrown else if r.value == null then Unchanged else Buffer(r.value.bytes)
  }

  // ----- what each factory makes

  function Plain(ta: TypedArray, arg: Arg): Made {
    if TooLong(arg) then Thrown
    else match arg
      case Items(vs) => Buffer(Concat(ta, vs))
      case NotANumber => Unchanged
      case Count(n) => if InRange(n) then Buffer(Zeros(CountersBelow(n) * ta.bytesPerElement)) else Unchanged
  }

  /** A count whose bytes, doubled, are no index. */
  predicate TooLarge(size: real) { 2.0 * size >= TWO53 as real }

  function Resizable(ta: TypedArray, arg: Arg): Made {
    if !arg.Count? then Plain(ta, arg)
    else
      var size := ByteCount(ta, arg.n);
      if !InRange(size) then Unchanged else if TooLarge(size) then Thrown else Buffer(Zeros(Floor(size)))
  }

  /** The grown factory checks the range of the byte count, then does as the plain one. */
  function Grown(ta: TypedArray, arg: Arg): Made {
    if arg.Count? && !InRange(ByteCount(ta, arg.n)) then Unchanged else Plain(ta, arg)
  }

  /** The shrunk one doubles the byte count in between. */
  function Shrunk(ta: TypedArray, arg: Arg): Made {
    if arg.Count? && InRange(ByteCount(ta, arg.n)) && TooLarge(ByteCount(ta, arg.n)) then Thrown else Grown(ta, arg)
  }

  /** `makeResizableArrayBuffer` */
  method MakeResizableArrayBuffer(ta: TypedArray, arg: Arg) returns (r: Result<ArrayBuffer?>)
    requires Valid(ta)
    ensures Shape(r) == Resizable(ta, arg)
    ensures arg.Items? && |arg.elements| < 4294967296 ==>
      r.Ok? && r.value != null && InOrder(ta, arg.elements, r.value.bytes)
  {
    hide Concat, Zeros, ByteCount, CountersBelow, InOrder;
    if !arg.Items? {
      if arg.NotANumber? { return Ok(null); }
      var n := ByteCount(ta, arg.n);
      if !InRange(n) { return Ok(null); }
      var made := Allocate(n, 2.0 * n);
      if made.RangeError? { return RangeError; }
      return Ok(made.value);
    }
    var plain := MakeArrayBuffer(ta, arg);
    if plain.RangeError? { return RangeError; }
    var fixed := plain.value;
    var byteLength := |fixed.bytes|;
    var made := Allocate(byteLength as real, (byteLength * 2) as real);
    var resizable := made.value;
    resizable.CopyFrom(fixed);
    return Ok(resizable);
  }

  /** `makeGrownArrayBuffer`; the buffer built for a primitive is discarded. */
  method MakeGrownArrayBuffer(ta: TypedArray, arg: Arg) returns (r: Result<ArrayBuffer?>)
    requires Valid(ta)
    ensures Shape(r) == Grown(ta, arg)
    ensures arg.Items? && |arg.elements| < 4294967296 ==>
      r.Ok? && r.value != null && InOrder(ta, arg.elements, r.value.bytes)
  {
    hide Concat, Zeros, ByteCount, CountersBelow, InOrder;
    if !arg.Items? {
      if arg.NotANumber? { return Ok(null); }
      var n := ByteCount(ta, arg.n);
      if !InRange(n) { return Ok(null); }
      HalfFits(n);
      var pre := Allocate(Floor(n / 2.0) as real, n);
      pre.value.Resize(Floor(n));
      CountBelowSize(ta, arg.n);
    }
    var plain := MakeArrayBuffer(ta, arg);
    if plain.RangeError? { return RangeError; }
    var fixed := plain.value;
    var byteLength := |fixed.bytes|;
    var made := Allocate((byteLength / 2) as real, byteLength as real);
    var grown := made.value;
    grown.Resize(byteLength);
    grown.CopyFrom(fixed);
    return Ok(grown);
  }

  /** `makeShrunkArrayBuffer`; the buffer built for a primitive is discarded. */
  method MakeShrunkArrayBuffer(ta: TypedArray, arg: Arg) returns (r: Result<ArrayBuffer?>)
    requires Valid(ta)
    ensures Shape(r) == Shrunk(ta, arg)
    ensures arg.Items? && |arg.elements| < 4294967296 ==>
      r.Ok? && r.value != null && InOrder(ta, arg.elements, r.value.bytes)
  {
    hide Concat, Zeros, ByteCount, CountersBelow, InOrder;
    if !arg.Items? {
      if arg.NotANumber? { return Ok(null); }
      var n := ByteCount(ta, arg.n);
      if !InRange(n) { return Ok(null); }
      var pre := Allocate(2.0 * n, 2.0 * n);
      if pre.RangeError? { return RangeError; }
      pre.value.Resize(Floor(n));
      CountBelowSize(ta, arg.n);
    }
    var plain := MakeArrayBuffer(ta, arg);
    if plain.RangeError? { return RangeError; }
    var fixed := plain.value;
    var byteLength := |fixed.bytes|;
    var made := Allocate((byteLength * 2) as real, (byteLength * 2) as real);
    var shrunk := made.value;
    shrunk.CopyFrom(fixed);
    shrunk.Resize(byteLength);
    return Ok(shrunk);
  }

  lemma HalfFits(n: real)
    requires InRange(n)
    ensures n / 2.0 >= 0.0 && Floor(n / 2.0) <= Floor(n) < TWO53
  {
  }

  lemma CountBelowSize(ta: TypedArray, n: real)
    requires ta.bytesPerElement > 0 && InRange(ByteCount(ta, n))
    ensures InRange(n)
  {
    RealScale(n, ta.bytesPerElement as real);
  }

  lemma RealScale(x: real, k: real)
    requires k >= 1.0
    ensures x < 0.0 ==> x * k < 0.0
    ensures x >= 0.0 ==> x * k >= x
  {
    if x >= 0.0 { assert x * (k - 1.0) >= 0.0; }
  }

  // ----- the bytes

  /** The `k` bytes of element `i`. */
  function ElementBytes(bytes: seq<int>, k: nat, i: nat): seq<int> {
    if i * k <= (i + 1) * k <= |bytes| then bytes[i * k..(i + 1) * k] else []
  }

  /** The bytes of the elements, one element after the other. */
  ghost predicate InOrder(ta: TypedArray, vs: seq<Element>, bytes: seq<int>) {
    && |bytes| == |vs| * ta.bytesPerElement
    && forall i | 0 <= i < |vs| :: ElementBytes(bytes, ta.bytesPerElement, i) == ta.encode(vs[i])
  }

  lemma {:induction false} ConcatInOrder(ta: TypedArray, vs: seq<Element>)
    requires Valid(ta)
    ensures InOrder(ta, vs, Concat(ta, vs))
  {
    ConcatLength(ta, vs);
    if vs != [] {
      var k, before, last := ta.bytesPerElement, vs[..|vs| - 1], vs[|vs| - 1];
      ConcatInOrder(ta, before);
      assert Concat(ta, vs) == Concat(ta, before) + ta.encode(last);
      hide Concat, ElementBytes;
      forall i | 0 <= i < |vs| ensures ElementBytes(Concat(ta, vs), k, i) == ta.encode(vs[i]) {
        ElementAppended(Concat(ta, before), ta.encode(last), k, |before|, i);
        if i < |before| { assert before[i] == vs[i]; }
      }
    }
  }

  lemma ElementAppended(bytes: seq<int>, e: seq<int>, k: nat, n: nat, i: nat)
    requires |bytes| == n * k && |e| == k && i <= n
    ensures ElementBytes(bytes + e, k, i) == if i < n then ElementBytes(bytes, k, i) else e
  {
    MulDistributes(i, 1, k);
    MulMonotone(i, n, k);
    if i < n { MulMonotone(i + 1, n, k); }
  }

  /** For a list below the array limit all four factories make the elements' bytes in order. */
  lemma ListBytes(ta: TypedArray, vs: seq<Element>)
    requires Valid(ta) && |vs| < 4294967296
    ensures var made := Plain(ta, Items(vs));
            && made.Buffer? && InOrder(ta, vs, made.bytes)
            && made == Resizable(ta, Items(vs)) == Grown(ta, Items(vs)) == Shrunk(ta, Items(vs))
  {
    ConcatInOrder(ta, vs);
  }

  ghost predicate AllZero(bytes: seq<int>) {
    forall i | 0 <= i < |bytes| :: bytes[i] == 0
  }

  lemma RoundedUp(n: real)
    requires n >= 0.0
    ensures n <= CountersBelow(n) as real < n + 1.0
  {
  }

  /** For a count the plain factory rounds up to whole elements of zero bytes. */
  lemma PlainCount(ta: TypedArray, n: real)
    requires Valid(ta)
    ensures var made := Plain(ta, Count(n));
            && (made.Unchanged? <==> n < 0.0 || n >= 9007199254740992.0)
            && (made.Thrown? <==> 4294967295.0 < n < 9007199254740992.0)
            && (made.Buffer? ==> AllZero(made.bytes))
    ensures var made := Plain(ta, Count(n));
            made.Buffer? ==> exists c: nat :: n <= c as real < n + 1.0 && |made.bytes| == c * ta.bytesPerElement
  {
    var made := Plain(ta, Count(n));
    if n >= 0.0 { RoundedUp(n); }
    if made.Buffer? {
      var c := CountersBelow(n);
      assert made == Buffer(Zeros(c * ta.bytesPerElement));
      hide CountersBelow, Plain;
      assert n <= c as real < n + 1.0 && |made.bytes| == c * ta.bytesPerElement;
    }
  }

  /** The resizable factory rounds down to whole zero bytes. */
  lemma ResizableCount(ta: TypedArray, n: real, size: real)
    requires size == n * (ta.bytesPerElement as real)
    ensures var made := Resizable(ta, Count(n));
            && (made.Unchanged? <==> size < 0.0 || size >= 9007199254740992.0)
            && (made.Thrown? <==> 4503599627370496.0 <= size < 9007199254740992.0)
            && (made.Buffer? ==> AllZero(made.bytes) && |made.bytes| as real <= size < |made.bytes| as real + 1.0)
  {
    assert ByteCount(ta, n) == size;
    hide ByteCount;
    if InRange(size) { assert |Zeros(Floor(size))| == Floor(size); }
  }

  /** The grown and the shrunk factory make what the plain one makes, in a smaller range. */
  lemma ResizedCount(ta: TypedArray, n: real, size: real)
    requires size == n * (ta.bytesPerElement as real)
    ensures Grown(ta, Count(n)) == if 0.0 <= size < 9007199254740992.0 then Plain(ta, Count(n)) else Unchanged
    ensures Shrunk(ta, Count(n)) == if 4503599627370496.0 <= size < 9007199254740992.0 then Thrown
                                    else Grown(ta, Count(n))
  {
    assert ByteCount(ta, n) == size;
    hide ByteCount, Plain;
  }

  /**
   What a caller can check beforehand: anything but a count in range; a whole count that
   an array can hold; or a count so large that its bytes, doubled, are no index either.
   */
  predicate Agreeable(ta: TypedArray, arg: Arg) {
    arg.Count? && InRange(arg.n) ==>
      var size := ByteCount(ta, arg.n);
      InRange(size) && if TooLong(arg) then TooLarge(size) else arg.n.Floor as real == arg.n
  }

  /** The factories make equal bytes, or all throw, exactly for these arguments. */
  lemma FactoriesAgree(ta: TypedArray, arg: Arg)
    requires Valid(ta)
    ensures Plain(ta, arg) == Resizable(ta, arg) == Grown(ta, arg) == Shrunk(ta, arg) <==> Agreeable(ta, arg)
  {
    if arg.Count? && InRange(ByteCount(ta, arg.n)) {
      var n, k := arg.n, ta.bytesPerElement;
      CountBelowSize(ta, n);
      if !TooLong(arg) {
        SizeOfShort(n, CountersBelow(n), k);
        WholeCounts(n, k, ByteCount(ta, n));
        assert |Zeros(CountersBelow(n) * k)| == CountersBelow(n) * k;
        assert |Zeros(Floor(ByteCount(ta, n)))| == Floor(ByteCount(ta, n));
      }
    }
  }

  /** What an array can hold is far from the limit of a buffer. */
  lemma SizeOfShort(n: real, c: nat, k: nat)
    requires 0.0 <= n <= c as real && c < ARRAY_LIMIT && k <= 8
    ensures !TooLarge(n * (k as real))
  {
    var slack := 8.0 - k as real;
    assert n * slack >= 0.0;
    assert n * (k as real) == n * 8.0 - n * slack;
  }

  /** Rounding the count up and the byte count down meet only for a whole count. */
  lemma WholeCounts(n: real, k: nat, size: real)
    requires n >= 0.0 && k > 0 && size == n * (k as real) && size >= 0.0
    ensures CountersBelow(n) * k == Floor(size) <==> n.Floor as real == n
  {
    var c := CountersBelow(n);
    if n.Floor as real == n {
      ProductOfWholes(c, k);
    } else {
      FractionFallsShort(n, c, k);
    }
  }

  lemma FractionFallsShort(x: real, c: nat, k: nat)
    requires x < c as real && k > 0
    ensures (x * (k as real)).Floor < c * k
  {
    var whole: int := c * k;
    assert (c as real) * (k as real) == whole as real by { ProductOfWholes(c, k); }
    ScaleLess(x, c as real, k as real);
  }

  lemma {:induction false} ProductOfWholes(c: nat, k: nat)
    ensures (c as real) * (k as real) == (c * k) as real
  {
    if c > 0 {
      ProductOfWholes(c - 1, k);
      var less: int, whole: int := (c - 1) * k, c * k;
      assert whole == less + k;
      assert whole as real == less as real + k as real;
      OneMore((c - 1) as real, k as real);
    }
  }

  lemma OneMore(a: real, k: real)
    ensures (a + 1.0) * k == a * k + k
  {
  }

  lemma ScaleLess(x: real, y: real, k: real)
    requires x < y && k > 0.0
    ensures x * k < y * k
  {
    assert (y - x) * k > 0.0;
  }
}
