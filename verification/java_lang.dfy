/** The parts of java.lang that the examples lean on: 32-bit `int`
    arithmetic, `Integer.compare`, `null`, thrown exceptions, and the
    `String` methods `compareTo`, `equals` (through `Objects.equals`) and
    `hashCode`. */
module JavaLang {

  const IntMin: int := -0x8000_0000
  const IntMax: int := 0x7FFF_FFFF
  const TwoTo32: int := 0x1_0000_0000

  /** Java's `int`. */
  type Int32 = x: int | -0x8000_0000 <= x <= 0x7FFF_FFFF

  predicate FitsInt32(x: int) {
    IntMin <= x <= IntMax
  }

  /** A Java reference that may be `null`. */
  datatype Nullable<+T> = Null | NonNull(value: T)

  /** The exceptions the modelled code can throw. */
  datatype Exception =
    | NullPointerException
    | ClassCastException
    | StringIndexOutOfBoundsException

  /** The outcome of a Java expression: a value, or a thrown exception. */
  datatype Result<+T> = Ok(value: T) | Throws(exception: Exception)

  /** Two's-complement truncation of a mathematical integer to 32 bits, as
      the JVM does for every `int` addition, subtraction and multiplication. */
  function Wrap32(x: int): (r: Int32)
    ensures FitsInt32(x) ==> r == x
    ensures (x - r) % TwoTo32 == 0
  {
    (x - IntMin) % TwoTo32 + IntMin
  }

  /** `a - b` on Java `int`s. */
  function Sub32(a: Int32, b: Int32): Int32 {
    Wrap32(a - b)
  }

  function Sign(x: int): int {
    if x < 0 then -1 else if x > 0 then 1 else 0
  }

  /** `Integer.compare(a, b)`: -1, 0 or 1 by the mathematical order. */
  function IntegerCompare(a: int, b: int): (r: int)
    ensures r < 0 <==> a < b
    ensures r == 0 <==> a == b
    ensures r > 0 <==> a > b
  {
    if a < b then -1 else if a == b then 0 else 1
  }

  /** The sign of `a - b` computed in 32 bits is the sign of the true
      difference exactly when the true difference is itself an `int`;
      otherwise the sign is the opposite one. */
  lemma SubtractionSignExact(a: Int32, b: Int32)
    ensures Sign(Sub32(a, b)) == Sign(a - b) <==> FitsInt32(a - b)
    ensures !FitsInt32(a - b) ==> Sign(Sub32(a, b)) == -Sign(a - b)
  {
    var d := a - b;
    if d > IntMax {
      assert IntMax < d <= IntMax - IntMin;
      assert (d - IntMin) % TwoTo32 == d - IntMin - TwoTo32;
      assert Sub32(a, b) == d - TwoTo32 < 0;
    } else if d < IntMin {
      assert IntMin - IntMax <= d < IntMin;
      assert (d - IntMin) % TwoTo32 == d - IntMin + TwoTo32;
      assert Sub32(a, b) == d + TwoTo32 > 0;
    }
  }

  /** 32-bit subtraction is antisymmetric when both differences are `int`s;
      the one pair it misses is a difference of exactly `IntMin`. */
  lemma SubtractionAntisymmetric(a: Int32, b: Int32)
    requires FitsInt32(a - b) && FitsInt32(b - a)
    ensures Sub32(a, b) == -Sub32(b, a)
  {
  }

  /** With `a = IntMin` and `b = 0` both orders of the subtraction report
      "less than", so the comparator is not antisymmetric. */
  lemma SubtractionNotAntisymmetric()
    ensures Sub32(IntMin, 0) < 0 && Sub32(0, IntMin) < 0
  {
    assert Sub32(0, IntMin) == Wrap32(-IntMin);
  }

  /** Any two non-negative `int`s have an `int` difference, so 32-bit
      subtraction orders them correctly. */
  lemma SubtractionExactOnNonNegatives(a: Int32, b: Int32)
    requires 0 <= a && 0 <= b
    ensures Sign(Sub32(a, b)) == Sign(IntegerCompare(a, b))
  {
    SubtractionSignExact(a, b);
  }

  /** `Objects.equals(a, b)` for two `String`s: null equals only null,
      otherwise `String.equals` compares the characters. */
  function ObjectsEquals(a: Nullable<string>, b: Nullable<string>): bool {
    match a
    case Null => b.Null?
    case NonNull(s) => b.NonNull? && s == b.value
  }

  /** `Objects.equals` on strings is exactly value equality of the
      nullable references, hence an equivalence relation. */
  lemma ObjectsEqualsIsEquality(a: Nullable<string>, b: Nullable<string>)
    ensures ObjectsEquals(a, b) <==> a == b
  {
  }

  /** `String.hashCode`: `h = 31 * h + c` over the characters, in 32 bits. */
  function StringHashCode(s: string): Int32
    decreases |s|
  {
    if |s| == 0 then 0
    else Wrap32(31 * StringHashCode(s[..|s| - 1]) + s[|s| - 1] as int)
  }

  /** `Objects.hashCode(o)`: 0 for null, else `o.hashCode()`. */
  function ObjectsHashCode(o: Nullable<string>): Int32 {
    match o
    case Null => 0
    case NonNull(s) => StringHashCode(s)
  }

  /** `String.compareTo`: the difference of the first differing characters,
      or else the difference of the lengths. */
  function StringCompareTo(a: string, b: string): int
    decreases |a|
  {
    if |a| == 0 || |b| == 0 then |a| - |b|
    else if a[0] != b[0] then a[0] as int - b[0] as int
    else StringCompareTo(a[1..], b[1..])
  }

  /** `compareTo` returns 0 exactly for equal strings. */
  lemma {:induction false} StringCompareToZeroIffEqual(a: string, b: string)
    ensures StringCompareTo(a, b) == 0 <==> a == b
    decreases |a|
  {
    if |a| == 0 || |b| == 0 {
    } else if a[0] != b[0] {
    } else {
      StringCompareToZeroIffEqual(a[1..], b[1..]);
      assert a == [a[0]] + a[1..] && b == [b[0]] + b[1..];
    }
  }

  /** Swapping the arguments of `compareTo` negates the result. */
  lemma {:induction false} StringCompareToAntisymmetric(a: string, b: string)
    ensures StringCompareTo(a, b) == -StringCompareTo(b, a)
    decreases |a|
  {
    if |a| == 0 || |b| == 0 {
    } else if a[0] != b[0] {
    } else {
      StringCompareToAntisymmetric(a[1..], b[1..]);
    }
  }

  /** `compareTo` is transitive: it orders strings lexicographically. */
  lemma {:induction false} StringCompareToTransitive(a: string, b: string, c: string)
    requires StringCompareTo(a, b) <= 0 && StringCompareTo(b, c) <= 0
    ensures StringCompareTo(a, c) <= 0
    decreases |a|
  {
    if |a| == 0 || |b| == 0 || |c| == 0 {
      if |b| == 0 {
        assert |a| == 0;
      }
    } else if a[0] != b[0] || b[0] != c[0] {
    } else {
      StringCompareToTransitive(a[1..], b[1..], c[1..]);
    }
  }
}
