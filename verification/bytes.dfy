/** Bytes, fixed-width integers and their little-endian layout, and alignment. */
module Bytes {

  const TWO_32 := 0x1_0000_0000
  const TWO_64 := 0x1_0000_0000_0000_0000

  type byte = b: int | 0 <= b < 0x100
  type u32 = n: int | 0 <= n < TWO_32
  type u64 = n: int | 0 <= n < TWO_64
  type i64 = n: int | -0x8000_0000_0000_0000 <= n < 0x8000_0000_0000_0000

  /** A string or a key: any bytes, UTF-8 or not. */
  type Str = seq<byte>

  /** The 64-bit hash is a parameter of the model: any deterministic function, so collisions are allowed. */
  type Hash64 = seq<byte> -> u64

  function Min(a: int, b: int): int { if a < b then a else b }

  function Zeros(n: nat): (s: seq<byte>)
    ensures |s| == n
  {
    seq(n, _ => 0)
  }

  // ----- little-endian integers -----

  function Pow256(k: nat): (r: nat)
    ensures r >= 1
  {
    if k == 0 then 1 else 256 * Pow256(k - 1)
  }

  /** The base-256 digit `i` of `n`, counting from the least significant. */
  function DigitOf(n: nat, i: nat): (d: byte) {
    n / Pow256(i) % 256
  }

  /** The `k` low bytes of `n`, least significant first: what copying a `k`-byte integer into a buffer stores. */
  function LE(n: nat, k: nat): (s: seq<byte>)
    ensures |s| == k
  {
    seq(k, i requires 0 <= i < k => DigitOf(n, i))
  }

  function UnLE(s: seq<byte>): (n: nat)
    ensures n < Pow256(|s|)
  {
    if s == [] then 0 else s[0] + 256 * UnLE(s[1..])
  }

  lemma {:induction false} UnLEOfLE(n: nat, k: nat)
    ensures UnLE(LE(n, k)) == n % Pow256(k)
  {
    if k == 0 {
    } else {
      UnLEOfLE(n / 256, k - 1);
      TailOfLE(n, k);
      ModSplit(n, 256, Pow256(k - 1));
    }
  }

  lemma TailOfLE(n: nat, k: nat)
    requires k > 0
    ensures LE(n, k)[0] == n % 256 && LE(n, k)[1..] == LE(n / 256, k - 1)
  {
    FirstDigit(n);
    forall i | 0 <= i < k - 1
      ensures LE(n, k)[1..][i] == LE(n / 256, k - 1)[i]
    {
      NextDigit(n, i);
    }
  }

  lemma FirstDigit(n: nat)
    ensures DigitOf(n, 0) == n % 256
  {
    assert Pow256(0) == 1;
  }

  lemma NextDigit(n: nat, i: nat)
    ensures DigitOf(n, i + 1) == DigitOf(n / 256, i)
  {
    ModSplit(n, 256, Pow256(i));
  }

  lemma {:induction false} ZeroBytes(k: nat)
    ensures LE(0, k) == Zeros(k)
  {
  }

  lemma {:induction false} LEOfUnLE(s: seq<byte>)
    ensures LE(UnLE(s), |s|) == s
  {
    if s != [] {
      var n := UnLE(s);
      LEOfUnLE(s[1..]);
      assert n % 256 == s[0] && n / 256 == UnLE(s[1..]);
      TailOfLE(n, |s|);
      assert LE(n, |s|) == [s[0]] + LE(n, |s|)[1..];
    }
  }

  /** A number modulo `a * b` splits into its remainder by `a` and the quotient's remainder by `b`. */
  lemma ModSplit(n: nat, a: nat, b: nat)
    requires a > 0 && b > 0
    ensures a * b > 0
    ensures n % (a * b) == n % a + a * (n / a % b)
    ensures n / (a * b) == n / a / b
  {
    var q, r := n / a, n % a;
    var q2, r2 := q / b, q % b;
    assert n == a * q + r && q == b * q2 + r2;
    Regroup(a, b, q2, r2);
    MulDistributes(a, b, r2);
    MulAtLeast(a, b - r2);
    MulAtLeast(a, b);
    MulNonNegative(a, r2);
    ModUnique(n, a * b, q2, r + a * r2);
  }

  lemma Regroup(a: int, b: int, q: int, r: int)
    ensures a * (b * q + r) == (a * b) * q + a * r
  {
  }

  lemma MulNonNegative(a: nat, b: nat)
    ensures a * b >= 0
  {
  }

  lemma ModUnique(n: int, m: int, q: int, r: int)
    requires 0 <= r < m && n == m * q + r
    ensures n % m == r && n / m == q
  {
    var q', r' := n / m, n % m;
    var d := q - q';
    assert n == m * q' + r';
    MulDistributes(m, q, q');
    assert m * d == r' - r;
    MulAtLeast(m, d);
    MulAtLeast(m, -d);
  }

  lemma MulDistributes(m: int, a: int, b: int)
    ensures m * (a - b) == m * a - m * b
  {
  }

  lemma MulAtLeast(m: int, d: int)
    requires m > 0
    ensures d >= 1 ==> m * d >= m
    ensures m * -d == -(m * d)
  {
  }

  lemma PowersOf256()
    ensures Pow256(1) == 0x100 && Pow256(2) == 0x1_0000 && Pow256(4) == TWO_32 && Pow256(8) == TWO_64
  {
    assert Pow256(0) == 1;
    assert Pow256(1) == 256 * Pow256(0);
    assert Pow256(2) == 256 * Pow256(1);
    assert Pow256(3) == 256 * Pow256(2);
    assert Pow256(4) == 256 * Pow256(3);
    assert Pow256(5) == 256 * Pow256(4);
    assert Pow256(6) == 256 * Pow256(5);
    assert Pow256(7) == 256 * Pow256(6);
    assert Pow256(8) == 256 * Pow256(7);
  }

  // ----- typed loads from a buffer -----

  function Load(data: seq<byte>, offset: nat, size: nat): (n: nat)
    requires offset + size <= |data|
  {
    UnLE(data[offset..offset + size])
  }

  function Load32(data: seq<byte>, offset: nat): (n: u32)
    requires offset + 4 <= |data|
  {
    PowersOf256();
    Load(data, offset, 4)
  }

  function Load64(data: seq<byte>, offset: nat): (n: u64)
    requires offset + 8 <= |data|
  {
    PowersOf256();
    Load(data, offset, 8)
  }

  function FourBytes(a: nat, b: nat, c: nat, d: nat): (n: nat) {
    a + 0x100 * b + 0x1_0000 * c + 0x100_0000 * d
  }

  /** The words are little-endian. */
  lemma LoadsBytes(data: seq<byte>, o: nat)
    ensures o + 4 <= |data| ==> Load32(data, o) == FourBytes(data[o], data[o + 1], data[o + 2], data[o + 3])
    ensures o + 8 <= |data| ==> Load64(data, o) == Load32(data, o) + 0x1_0000_0000 * Load32(data, o + 4)
  {
    if o + 4 <= |data| {
      UnLEFour(data[o..o + 4]);
    }
    if o + 8 <= |data| {
      UnLEHalves(data[o..o + 8]);
      SliceOfSlice(data, o, o + 8, 0, 4);
      SliceOfSlice(data, o, o + 8, 4, 8);
    }
  }

  lemma UnLEFour(s: seq<byte>)
    requires |s| == 4
    ensures UnLE(s) == FourBytes(s[0], s[1], s[2], s[3])
  {
    UnLEOne(s);
    UnLEOne(s[1..]);
    UnLEOne(s[1..][1..]);
    UnLEOne(s[1..][1..][1..]);
    assert s[1..][1..][1..][1..] == [];
  }

  lemma UnLEOne(s: seq<byte>)
    requires s != []
    ensures UnLE(s) == s[0] + 0x100 * UnLE(s[1..])
  {
  }

  lemma UnLEHalves(s: seq<byte>)
    requires |s| == 8
    ensures UnLE(s) == UnLE(s[0..4]) + 0x1_0000_0000 * UnLE(s[4..8])
  {
    hide UnLE;
    var t := s[4..8];
    assert s[4..] == t;
    UnLEOne(s);
    UnLEOne(s[1..]);
    UnLEOne(s[1..][1..]);
    UnLEOne(s[1..][1..][1..]);
    assert s[1..][1..][1..][1..] == t;
    UnLEFour(s[0..4]);
  }

  /** `piece` stands in `data` at `offset`. */
  ghost predicate At(data: seq<byte>, offset: int, piece: seq<byte>) {
    0 <= offset && offset + |piece| <= |data| && data[offset..offset + |piece|] == piece
  }

  lemma SliceOfSlice<T>(data: seq<T>, lo: nat, hi: nat, a: nat, b: nat)
    requires lo <= hi <= |data| && a <= b <= hi - lo
    ensures data[lo..hi][a..b] == data[lo + a..lo + b]
  {
    var x, y := data[lo..hi][a..b], data[lo + a..lo + b];
    assert |x| == |y| && forall i :: 0 <= i < |x| ==> x[i] == y[i];
  }

  /** A piece of a piece stands where it should. */
  lemma AtPart(data: seq<byte>, offset: int, pre: seq<byte>, mid: seq<byte>, post: seq<byte>)
    requires At(data, offset, pre + mid + post)
    ensures At(data, offset + |pre|, mid)
  {
    var whole := pre + mid + post;
    assert whole[|pre|..|pre| + |mid|] == mid;
    SliceOfSlice(data, offset, offset + |whole|, |pre|, |pre| + |mid|);
  }

  lemma AtParts(data: seq<byte>, offset: int, a: seq<byte>, b: seq<byte>, c: seq<byte>)
    requires At(data, offset, a + b + c)
    ensures At(data, offset, a) && At(data, offset + |a|, b) && At(data, offset + |a| + |b|, c)
  {
    assert a + b + c == [] + a + (b + c) && a + b + c == (a + b) + c + [];
    AtPart(data, offset, [], a, b + c);
    AtPart(data, offset, a, b, c);
    AtPart(data, offset, a + b, c, []);
  }

  lemma AtTwo(data: seq<byte>, offset: int, a: seq<byte>, b: seq<byte>)
    requires At(data, offset, a + b)
    ensures At(data, offset, a) && At(data, offset + |a|, b)
  {
    assert a + b + [] == a + b;
    AtParts(data, offset, a, b, []);
  }

  lemma ByteAt(data: seq<byte>, offset: int, b: byte)
    requires At(data, offset, [b])
    ensures 0 <= offset < |data| && data[offset] == b
  {
    assert data[offset] == data[offset..offset + 1][0];
  }

  lemma AtLoad32(data: seq<byte>, offset: int, n: nat)
    requires At(data, offset, LE(n, 4))
    ensures Load32(data, offset) == n % TWO_32
  {
    UnLEOfLE(n, 4);
    PowersOf256();
  }

  lemma AtLoad64(data: seq<byte>, offset: int, n: nat)
    requires At(data, offset, LE(n, 8))
    ensures Load64(data, offset) == n % TWO_64
  {
    UnLEOfLE(n, 8);
    PowersOf256();
  }

  // ----- alignment -----

  /** (value + alignment - 1) & ~(alignment - 1), for the alignments the format uses. */
  function AlignUp(value: nat, alignment: nat): (r: nat)
    requires alignment in {1, 4, 8}
    ensures value <= r < value + alignment
    ensures value % alignment == 0 ==> r == value
  {
    if alignment == 1 then value
    else if alignment == 4 then (value + 3) / 4 * 4
    else (value + 7) / 8 * 8
  }

  /** Moving a value by a multiple of 8 moves its aligned value by as much. */
  lemma AlignUpShift(value: nat, base: nat, alignment: nat)
    requires alignment in {1, 4, 8} && base % 8 == 0
    ensures AlignUp(base + value, alignment) == base + AlignUp(value, alignment)
  {
    var k := base / 8;
    assert base == 8 * k;
    if alignment == 4 {
      assert (base + value + 3) / 4 == 2 * k + (value + 3) / 4;
    } else if alignment == 8 {
      assert (base + value + 7) / 8 == k + (value + 7) / 8;
    }
  }

  lemma AlignUpAligned(value: nat, alignment: nat)
    requires alignment in {1, 4, 8}
    ensures AlignUp(value, alignment) % alignment == 0
  {
  }
}
