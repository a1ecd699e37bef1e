/** C integer types, addresses and return codes shared by every library of the repository. */
module CTypes {
  const TWO32: int := 0x1_0000_0000
  const TWO64: int := 0x1_0000_0000_0000_0000
  const INT_MAX: int := 0x7fff_ffff
  const INT_MIN: int := -0x8000_0000

  type uint32 = x: int | 0 <= x < TWO32
  type uint64 = x: int | 0 <= x < TWO64
  type int32 = x: int | INT_MIN <= x <= INT_MAX

  const RL_TRUE: int32 := 1
  const RL_FALSE: int32 := 0
  const RL_SUCCESS: int32 := 0
  const RL_FAILED: int32 := -1

  /** The value of a C pointer; NULL is the only address that is never allocated. */
  type Addr = nat
  const NULL: Addr := 0

  datatype Option<+T> = None | Some(value: T)

  /** Conversion to `unsigned int`. */
  function Wrap32(x: int): uint32 {
    x % TWO32
  }

  /** Conversion to `unsigned long long` and to a 64-bit `size_t`. */
  function Wrap64(x: int): uint64 {
    x % TWO64
  }

  /** Conversion of an integer to a 32-bit two's complement `int`. */
  function ToInt32(x: int): int32 {
    var y := x % TWO32;
    if y <= INT_MAX then y else y - TWO32
  }

  function Sum(xs: seq<int>): int {
    if xs == [] then 0 else xs[0] + Sum(xs[1..])
  }

  // ----- wrapping forgets whole turns and nothing else -----

  lemma Wrap32Turns(x: int) returns (turns: int)
    ensures x == Wrap32(x) + turns * TWO32
  {
    turns := x / TWO32;
  }

  lemma Wrap32Is(x: int, r: int, turns: int)
    requires 0 <= r < TWO32 && x == r + turns * TWO32
    ensures Wrap32(x) == r
  {
    var k := Wrap32Turns(x);
    assert k == turns;
  }

  lemma Wrap32Same(x: int, y: int, turns: int)
    requires x == y + turns * TWO32
    ensures Wrap32(x) == Wrap32(y)
  {
    var k := Wrap32Turns(y);
    Wrap32Is(x, Wrap32(y), k + turns);
  }

  /** A sum may be wrapped at any time. */
  lemma Wrap32Sum(x: int, y: int)
    ensures Wrap32(Wrap32(x) + y) == Wrap32(x + y)
  {
    var k := Wrap32Turns(x);
    Wrap32Same(x + y, Wrap32(x) + y, k);
  }

  lemma Wrap64Turns(x: int) returns (turns: int)
    ensures x == Wrap64(x) + turns * TWO64
  {
    turns := x / TWO64;
  }

  lemma Wrap64Is(x: int, r: int, turns: int)
    requires 0 <= r < TWO64 && x == r + turns * TWO64
    ensures Wrap64(x) == r
  {
    var k := Wrap64Turns(x);
    assert k == turns;
  }

  lemma MulMono(x: int, y: int, t: int)
    requires x <= y && t >= 0
    ensures x * t <= y * t
  {
  }
}
