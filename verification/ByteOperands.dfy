// Byte order conversions. Words are integers in their C range; shifts are
// multiplication and division by powers of two, and the `|` of values without a
// common bit is their sum.
module ByteOperands {
  type byte = n: int | 0 <= n < 0x100
  type uint16 = n: int | 0 <= n < 0x1_0000
  type uint32 = n: int | 0 <= n < 0x1_0000_0000

  function SwapBytes16(val: uint16): uint16 {
    (val * 0x100 + val / 0x100) % 0x1_0000
  }

  function SwapBytes32(val: uint32): uint32 {
    val % 0x100 * 0x100_0000 + val / 0x100 % 0x100 * 0x1_0000 + val / 0x1_0000 % 0x100 * 0x100 +
    val / 0x100_0000 % 0x100
  }

  function ToUint16(leftMost: byte, rightMost: byte): uint16 {
    rightMost + leftMost * 0x100
  }

  function ToUint32FromHalves(msBytes: uint16, lsBytes: uint16): uint32 {
    lsBytes + msBytes * 0x1_0000
  }

  function ToUint32(leftMost: byte, left: byte, right: byte, rightMost: byte): uint32 {
    ToUint32FromHalves(ToUint16(leftMost, left), ToUint16(right, rightMost))
  }

  function ToArray16(val: uint16): seq<byte> {
    [val / 0x100, val % 0x100]
  }

  function ToArray32(val: uint32): seq<byte> {
    [val / 0x100_0000 % 0x100, val / 0x1_0000 % 0x100, val / 0x100 % 0x100, val % 0x100]
  }

  // ---- Little-endian words ----

  // The number that bytes write, the first one being the least significant.
  function Word(s: seq<byte>): nat {
    if s == [] then 0 else s[0] + 0x100 * Word(s[1..])
  }

  // The n lowest bytes of a number, least significant first.
  function Digits(v: nat, n: nat): (s: seq<byte>)
    ensures |s| == n
  {
    if n == 0 then [] else [v % 0x100] + Digits(v / 0x100, n - 1)
  }

  lemma {:induction false} DigitsOfWord(s: seq<byte>)
    ensures Digits(Word(s), |s|) == s
  {
    if s != [] {
      Lowest(s[0], Word(s[1..]));
      DigitsOfWord(s[1..]);
    }
  }

  lemma Lowest(a: byte, n: nat)
    ensures (a + 0x100 * n) % 0x100 == a && (a + 0x100 * n) / 0x100 == n
  {
  }

  lemma {:induction false} WordOfDigits(v: nat, n: nat)
    requires n == 0 ==> v == 0
    requires n == 1 ==> v < 0x100
    requires n == 2 ==> v < 0x1_0000
    requires n == 3 ==> v < 0x100_0000
    requires n == 4 ==> v < 0x1_0000_0000
    requires n <= 4
    ensures Word(Digits(v, n)) == v
  {
    if n > 0 {
      WordOfDigits(v / 0x100, n - 1);
      assert Digits(v, n)[1..] == Digits(v / 0x100, n - 1);
    }
  }

  lemma {:induction false} WordBound(s: seq<byte>)
    ensures |s| <= 1 ==> Word(s) < 0x100
    ensures |s| <= 2 ==> Word(s) < 0x1_0000
    ensures |s| <= 3 ==> Word(s) < 0x100_0000
    ensures |s| <= 4 ==> Word(s) < 0x1_0000_0000
  {
    if s != [] { WordBound(s[1..]); }
  }

  function Word16(s: seq<byte>): uint16
    requires |s| == 2
  {
    WordBound(s);
    Word(s)
  }

  function Word32(s: seq<byte>): uint32
    requires |s| == 4
  {
    WordBound(s);
    Word(s)
  }

  function Bytes16(val: uint16): (s: seq<byte>)
    ensures |s| == 2
  {
    Digits(val, 2)
  }

  function Bytes32(val: uint32): (s: seq<byte>)
    ensures |s| == 4
  {
    Digits(val, 4)
  }

  lemma BytesOfWord16(s: seq<byte>)
    requires |s| == 2
    ensures Bytes16(Word16(s)) == s
  {
    DigitsOfWord(s);
  }

  lemma BytesOfWord32(s: seq<byte>)
    requires |s| == 4
    ensures Bytes32(Word32(s)) == s
  {
    DigitsOfWord(s);
  }

  lemma WordOfBytes16(v: uint16)
    ensures Word16(Bytes16(v)) == v
  {
    WordOfDigits(v, 2);
  }

  lemma WordOfBytes32(v: uint32)
    ensures Word32(Bytes32(v)) == v
  {
    WordOfDigits(v, 4);
  }

  // ---- The code's byte swaps read and write little-endian words ----

  function Sum16(a: int, b: int): int {
    a + 0x100 * b
  }

  function Sum32(a: int, b: int, c: int, d: int): int {
    a + 0x100 * b + 0x1_0000 * c + 0x100_0000 * d
  }

  lemma WordSum16(s: seq<byte>)
    requires |s| == 2
    ensures Word(s) == Sum16(s[0], s[1])
  {
    assert Word(s[1..]) == s[1];
  }

  lemma WordSum32(s: seq<byte>)
    requires |s| == 4
    ensures Word(s) == Sum32(s[0], s[1], s[2], s[3])
  {
    WordSum16(s[2..]);
    assert s[1..][1..] == s[2..];
    assert Word(s[1..]) == s[1] + 0x100 * Word(s[2..]);
  }

  lemma Places16(a: int, b: int)
    requires 0 <= a < 0x100 && 0 <= b < 0x100
    ensures var v := Sum16(a, b); 0 <= v < 0x1_0000 && v % 0x100 == a && v / 0x100 == b
  {
  }

  lemma Swap16(a: int, b: int)
    requires 0 <= a < 0x100 && 0 <= b < 0x100
    ensures 0 <= Sum16(a, b) < 0x1_0000 && SwapBytes16(Sum16(a, b)) == Sum16(b, a)
  {
    Places16(a, b);
    Places16(b, a);
    DropHighBytes(b, Sum16(b, a));
    assert Sum16(a, b) * 0x100 + b == 0x1_0000 * b + Sum16(b, a);
  }

  lemma DropHighBytes(n: int, v: int)
    requires 0 <= v < 0x1_0000
    ensures (0x1_0000 * n + v) % 0x1_0000 == v
  {
  }

  lemma Places32(a: int, b: int, c: int, d: int)
    requires 0 <= a < 0x100 && 0 <= b < 0x100 && 0 <= c < 0x100 && 0 <= d < 0x100
    ensures var v := Sum32(a, b, c, d);
            && 0 <= v < 0x1_0000_0000
            && v % 0x100 == a && v / 0x100 % 0x100 == b && v / 0x1_0000 % 0x100 == c && v / 0x100_0000 % 0x100 == d
  {
    var v := Sum32(a, b, c, d);
    assert v / 0x100 == b + 0x100 * c + 0x1_0000 * d;
    assert v / 0x1_0000 == c + 0x100 * d;
    assert v / 0x100_0000 == d;
  }

  lemma Swap32(a: int, b: int, c: int, d: int)
    requires 0 <= a < 0x100 && 0 <= b < 0x100 && 0 <= c < 0x100 && 0 <= d < 0x100
    ensures 0 <= Sum32(a, b, c, d) < 0x1_0000_0000 && SwapBytes32(Sum32(a, b, c, d)) == Sum32(d, c, b, a)
  {
    Places32(a, b, c, d);
  }

  // Swapping the big-endian word of the bytes gives the little-endian one,
  lemma ReadIsLittleEndian16(s: seq<byte>)
    requires |s| == 2
    ensures SwapBytes16(ToUint16(s[0], s[1])) == Word16(s)
  {
    WordSum16(s);
    Swap16(s[1], s[0]);
  }

  lemma ReadIsLittleEndian32(s: seq<byte>)
    requires |s| == 4
    ensures SwapBytes32(ToUint32(s[0], s[1], s[2], s[3])) == Word32(s)
  {
    WordSum32(s);
    Swap32(s[3], s[2], s[1], s[0]);
    assert ToUint32(s[0], s[1], s[2], s[3]) == Sum32(s[3], s[2], s[1], s[0]);
  }

  // and the big-endian bytes of a swapped word are its little-endian ones.
  lemma WriteIsLittleEndian16(v: uint16)
    ensures ToArray16(SwapBytes16(v)) == Bytes16(v)
  {
    var s := Bytes16(v);
    WordOfBytes16(v);
    WordSum16(s);
    Swap16(s[0], s[1]);
    Places16(s[1], s[0]);
    ArrayOfSum16(s[1], s[0]);
  }

  lemma ArrayOfSum16(a: int, b: int)
    requires 0 <= a < 0x100 && 0 <= b < 0x100
    ensures 0 <= Sum16(a, b) < 0x1_0000 && ToArray16(Sum16(a, b)) == [b, a]
  {
    Places16(a, b);
  }

  lemma ArrayOfSum32(a: int, b: int, c: int, d: int)
    requires 0 <= a < 0x100 && 0 <= b < 0x100 && 0 <= c < 0x100 && 0 <= d < 0x100
    ensures 0 <= Sum32(a, b, c, d) < 0x1_0000_0000 && ToArray32(Sum32(a, b, c, d)) == [d, c, b, a]
  {
    Places32(a, b, c, d);
  }

  lemma WriteIsLittleEndian32(v: uint32)
    ensures ToArray32(SwapBytes32(v)) == Bytes32(v)
  {
    var s := Bytes32(v);
    WordOfBytes32(v);
    WordSum32(s);
    Swap32(s[0], s[1], s[2], s[3]);
    ArrayOfSum32(s[3], s[2], s[1], s[0]);
  }
}
