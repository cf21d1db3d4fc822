/** Types and small helpers shared by every module of the model. */
module Common {
  datatype Option<+T> = None | Some(value: T)

  /** Go's `byte`. Because it is a subset of `int`, a `seq<byte>` can be ordered by `Order.Compare`. */
  type byte = x: int | 0 <= x < 256

  /** Go's `[]byte` and `[32]byte`. */
  type Bytes = seq<byte>

  /** Go's `uint64`, with its wrap-around written out wherever the source computes with it. */
  const U64_SIZE: int := 0x1_0000_0000_0000_0000
  type u64 = x: int | 0 <= x < 0x1_0000_0000_0000_0000

  function Wrap64(x: int): (r: u64) {
    x % U64_SIZE
  }

  lemma WrapSmall(x: int)
    requires 0 <= x < U64_SIZE
    ensures Wrap64(x) == x
  {
  }

  /** Wrapping early or late makes no difference to a sum or a product. */
  lemma WrapAdd(a: int, b: int)
    ensures Wrap64(Wrap64(a) + b) == Wrap64(a + b)
  {
    WrapShift(a + b, -(a / U64_SIZE));
  }

  lemma WrapMul(e: int, a: int)
    ensures Wrap64(e * Wrap64(a)) == Wrap64(e * a)
  {
    var q := a / U64_SIZE;
    assert e * (a - q * U64_SIZE) == e * a + (-(e * q)) * U64_SIZE;
    WrapShift(e * a, -(e * q));
  }

  lemma WrapShift(x: int, k: int)
    ensures Wrap64(x + k * U64_SIZE) == Wrap64(x)
  {
  }

  function Last<T>(s: seq<T>): T
    requires s != []
  {
    s[|s| - 1]
  }

  function DropLast<T>(s: seq<T>): seq<T>
    requires s != []
  {
    s[..|s| - 1]
  }
}
