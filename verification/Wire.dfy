/** Fixed-width integers as the node lays them out in memory: little-endian,
    two's complement.  A `char` stands for a C++ `char`, that is, for one byte;
    a numeric field looks only at the low eight bits of each `char`. */
module Wire {

  datatype Option<+T> = None | Some(value: T)

  type Int8 = x: int | -0x80 <= x < 0x80
  type UInt8 = x: int | 0 <= x < 0x100
  type Int32 = x: int | -0x8000_0000 <= x < 0x8000_0000
  type UInt32 = x: int | 0 <= x < 0x1_0000_0000
  type Int64 = x: int | -0x8000_0000_0000_0000 <= x < 0x8000_0000_0000_0000
  type UInt64 = x: int | 0 <= x < 0x1_0000_0000_0000_0000

  /** A `std::string`; its length is a 64-bit `size_t`. */
  type Text = s: string | |s| < 0x1_0000_0000_0000_0000

  /** The number of values that `k` bytes can hold. */
  function Range(k: nat): (r: nat)
    ensures r >= 1
  {
    if k == 0 then 1 else 256 * Range(k - 1)
  }

  lemma Ranges()
    ensures Range(1) == 0x100
    ensures Range(4) == 0x1_0000_0000
    ensures Range(8) == 0x1_0000_0000_0000_0000
  {
    assert Range(1) == 256 * Range(0);
    assert Range(3) == 256 * Range(2) && Range(2) == 256 * Range(1);
    assert Range(4) == 256 * Range(3);
    assert Range(6) == 256 * Range(5) && Range(5) == 256 * Range(4);
    assert Range(8) == 256 * Range(7) && Range(7) == 256 * Range(6);
  }

  /** The low `k` bytes of `n`, least significant first.  Division here rounds
      down, so a negative `n` comes out in two's complement. */
  function Bytes(n: int, k: nat): (s: string)
    ensures |s| == k
    decreases k, n
  {
    if k == 0 then "" else [(n % 256) as char] + Bytes(n / 256, k - 1)
  }

  /** Each byte is a digit to the base 256, the least significant one first. */
  lemma {:induction false} BytesAt(n: int, k: nat, i: nat)
    requires i < k
    ensures Bytes(n, k)[i] as int == n / Range(i) % 256
    decreases k
  {
    if i > 0 {
      BytesAt(n / 256, k - 1, i - 1);
      DivideTwice(n, Range(i - 1));
    }
  }

  lemma DivideTwice(n: int, r: nat)
    requires r > 0
    ensures n / 256 / r == n / (256 * r)
  {
    var q, m := n / (256 * r), n % (256 * r);
    assert r * (256 * q) == 256 * r * q;
    Quotient(n, 256, r * q + m / 256, m % 256) by {
      assert 256 * (r * q + m / 256) + m % 256 == n;
    }
    Quotient(n / 256, r, q, m / 256);
  }

  lemma Quotient(n: int, d: nat, q: int, m: nat)
    requires n == d * q + m && m < d
    ensures n / d == q
  {
    var x := n / d;
    assert d * x <= n < d * x + d;
    if x > q {
      Product(d, x - q);
    }
    if x < q {
      Product(d, q - x);
    }
  }

  lemma Product(d: nat, k: nat)
    requires k >= 1
    ensures d * k >= d
  {
  }

  /** Reads bytes as an unsigned number. */
  function Unsigned(s: string): (n: nat)
    ensures n < Range(|s|)
  {
    if s == "" then 0 else s[0] as int % 256 + 256 * Unsigned(s[1..])
  }

  /** Reads bytes as a two's complement number. */
  function Signed(s: string): (n: int)
    ensures 0 <= 2 * n + Range(|s|) < 2 * Range(|s|)
  {
    var n := Unsigned(s);
    if 2 * n < Range(|s|) then n else n - Range(|s|)
  }

  lemma {:induction false} UnsignedOfBytes(n: int, k: nat)
    requires 0 <= n + Range(k) < 2 * Range(k)
    ensures Unsigned(Bytes(n, k)) == if n >= 0 then n else n + Range(k)
    decreases k
  {
    if k > 0 {
      UnsignedOfBytes(n / 256, k - 1);
      assert Bytes(n, k)[1..] == Bytes(n / 256, k - 1);
    }
  }

  /** Both readings undo the writing, for every number that fits. */
  lemma SignedOfBytes(n: int, k: nat)
    requires 0 <= 2 * n + Range(k) < 2 * Range(k)
    ensures Signed(Bytes(n, k)) == n
  {
    UnsignedOfBytes(n, k);
  }

  function ReadInt8(c: char): Int8 {
    var n := c as int % 256;
    if n < 0x80 then n else n - 0x100
  }

  function ReadInt32(s: string): Int32
    requires |s| == 4
  {
    Ranges();
    Signed(s)
  }

  function ReadUInt32(s: string): UInt32
    requires |s| == 4
  {
    Ranges();
    Unsigned(s)
  }

  function ReadInt64(s: string): Int64
    requires |s| == 8
  {
    Ranges();
    Signed(s)
  }

  function ReadUInt64(s: string): UInt64
    requires |s| == 8
  {
    Ranges();
    Unsigned(s)
  }

  /** Conversion of a wider number to a 32-bit `int`. */
  function Wrap32(n: int): Int32 {
    var m := n % 0x1_0000_0000;
    if m < 0x8000_0000 then m else m - 0x1_0000_0000
  }

  lemma Associative(a: string, b: string, c: string)
    ensures a + b + c == a + (b + c)
  {
  }

  /** `std::copy` of a whole byte string into a buffer. */
  method Copy(source: string, buffer: array<char>, at: nat)
    requires at + |source| <= buffer.Length
    modifies buffer
    ensures buffer[..] == old(buffer[..at]) + source + old(buffer[at + |source|..])
  {
    forall i | 0 <= i < |source| {
      buffer[at + i] := source[i];
    }
  }
}
