/** Go's integer types and the conversion `T(x)` between them: the value is
    taken modulo 2^width and, for a signed type, read as two's complement.
    int, uint and uintptr are taken to be 64 bits wide. */
module IntKinds {

  datatype IntKind =
    | Int | Int8 | Int16 | Int32 | Int64
    | Uint | Uint8 | Uint16 | Uint32 | Uint64 | Uintptr
  {
    predicate Signed() {
      Int? || Int8? || Int16? || Int32? || Int64?
    }

    /** 2^width: the number of distinct values of the type. */
    function Modulus(): nat {
      match this
      case Int8 | Uint8 => 0x100
      case Int16 | Uint16 => 0x1_0000
      case Int32 | Uint32 => 0x1_0000_0000
      case Int | Int64 | Uint | Uint64 | Uintptr => 0x1_0000_0000_0000_0000
    }

    function Min(): int {
      if Signed() then -(Modulus() / 2) else 0
    }

    function Max(): int {
      if Signed() then Modulus() / 2 - 1 else Modulus() - 1
    }

    /** `x` is a value of this type. */
    predicate Holds(x: int) {
      Min() <= x <= Max()
    }
  }

  /** Go's conversion `T(x)` of an integer `x` to kind `k`: the one value of
      the type congruent to `x` modulo 2^width. */
  function Convert(k: IntKind, x: int): (r: int)
    ensures k.Holds(r)
    ensures r % k.Modulus() == x % k.Modulus()
  {
    var m := x % k.Modulus();
    if k.Signed() && m >= k.Modulus() / 2 then m - k.Modulus() else m
  }

  /** Convert is the only in-range value congruent to its input: a value of
      the type that agrees with `x` modulo 2^width is Convert(k, x). */
  lemma ConvertUnique(k: IntKind, x: int, y: int)
    requires k.Holds(y) && y % k.Modulus() == x % k.Modulus()
    ensures Convert(k, x) == y
  {
    var m := k.Modulus();
    assert y % m == if y >= 0 then y else y + m by {
      match k
      case Int8 | Uint8 =>
      case Int16 | Uint16 =>
      case Int32 | Uint32 =>
      case Int | Int64 | Uint | Uint64 | Uintptr =>
    }
  }

  /** Converting a value that already belongs to the type changes nothing. */
  lemma ConvertIdentity(k: IntKind, x: int)
    requires k.Holds(x)
    ensures Convert(k, x) == x
  {
    ConvertUnique(k, x, x);
  }

  /** Widening a value of any kind to uint64 and converting back gives the
      value unchanged, whatever its sign. */
  lemma WidenNarrow(k: IntKind, x: int)
    requires k.Holds(x)
    ensures Convert(k, Convert(Uint64, x)) == x
  {
    if x >= 0 {
      ConvertIdentity(Uint64, x);
      ConvertIdentity(k, x);
    } else {
      var w := x + 0x1_0000_0000_0000_0000;
      ConvertUnique(Uint64, x, w);
      assert w % k.Modulus() == x % k.Modulus() by {
        match k
        case Int8 | Uint8 =>
        case Int16 | Uint16 =>
        case Int32 | Uint32 =>
        case Int | Int64 | Uint | Uint64 | Uintptr =>
      }
      ConvertUnique(k, w, x);
    }
  }

  /** Every kind, even int8, holds 0 to 127. */
  lemma SmallHolds(k: IntKind, x: int)
    requires 0 <= x <= 127
    ensures k.Holds(x)
  {
  }

  /** Narrowing 300 to uint8 gives 44 and to int8 gives 44; 200 to int8 gives -56. */
  lemma ConvertExamples()
    ensures Convert(Uint8, 300) == 44
    ensures Convert(Int8, 300) == 44
    ensures Convert(Int8, 200) == -56
    ensures Convert(Uint64, -1) == 0xFFFF_FFFF_FFFF_FFFF
    ensures Convert(Int64, 0xFFFF_FFFF_FFFF_FFFF) == -1
  {
  }
}
