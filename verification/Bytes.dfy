/** Octets, Go strings (which are octet sequences), and the big-endian integers of msg_helpers.go. */
module Bytes {
  type byte = b: int | 0 <= b < 256
  type uint16 = n: int | 0 <= n < 0x1_0000
  type uint32 = n: int | 0 <= n < 0x1_0000_0000

  /** A Go string or a read-only []byte. */
  type str = seq<byte>

  datatype Option<+T> = None | Some(value: T)

  /** The errors the modelled functions return, with NoError for nil.
      IndexPanic stands for a Go slice-bounds panic. */
  datatype Error =
    | NoError | ErrBuf | ErrFqdn | ErrRdata | ErrLongDomain | ErrPointers | ErrRcode | ErrExtendedRcode
    | ErrTruncated | ErrOverflow | ErrBadRdlength | ErrUnmodelled | ErrNoSig | ErrAuth
    | ErrKeyAlg | ErrTime | ErrSig | ErrHex | IndexPanic

  const DOT: byte := 46
  const BACKSLASH: byte := 92
  const COLON: byte := 58

  function U16(n: uint16): (b: str)
    ensures |b| == 2
  {
    [n / 256, n % 256]
  }

  function U32(n: uint32): (b: str)
    ensures |b| == 4
  {
    U16(n / 0x1_0000) + U16(n % 0x1_0000)
  }

  function GetU16(msg: str, off: nat): uint16
    requires off + 2 <= |msg|
  {
    msg[off] as int * 256 + msg[off + 1] as int
  }

  function GetU32(msg: str, off: nat): uint32
    requires off + 4 <= |msg|
  {
    GetU16(msg, off) as int * 0x1_0000 + GetU16(msg, off + 2)
  }

  /** The octets are the digits of the number to the base of 256, most significant first. */
  lemma BigEndian(n: uint16, m: uint32)
    ensures U16(n)[0] as int * 0x100 + U16(n)[1] as int == n
    ensures U32(m)[0] as int * 0x100_0000 + U32(m)[1] as int * 0x1_0000 + U32(m)[2] as int * 0x100 + U32(m)[3] as int
            == m
  {
    var hi, lo := m / 0x1_0000, m % 0x1_0000;
    assert U32(m) == [hi / 256, hi % 256, lo / 256, lo % 256];
  }

  lemma BigEndianRead(msg: str, off: nat)
    ensures off + 2 <= |msg| ==> GetU16(msg, off) == msg[off] as int * 0x100 + msg[off + 1] as int
    ensures off + 4 <= |msg| ==>
              GetU32(msg, off)
              == msg[off] as int * 0x100_0000 + msg[off + 1] as int * 0x1_0000 + msg[off + 2] as int * 0x100
                 + msg[off + 3] as int
  {
  }

  /** Big-endian integers survive being written and read back anywhere in a buffer. */
  lemma GetU16Put(msg: str, off: nat, n: uint16)
    requires off + 2 <= |msg| && msg[off..off + 2] == U16(n)
    ensures GetU16(msg, off) == n
  {
    assert msg[off] == msg[off..off + 2][0] && msg[off + 1] == msg[off..off + 2][1];
  }

  lemma GetU32Put(msg: str, off: nat, n: uint32)
    requires off + 4 <= |msg| && msg[off..off + 4] == U32(n)
    ensures GetU32(msg, off) == n
  {
    hide GetU16, U16;
    var b := msg[off..off + 4];
    assert msg[off..off + 2] == b[..2] == U16(n / 0x1_0000);
    assert msg[off + 2..off + 4] == b[2..] == U16(n % 0x1_0000);
    GetU16Put(msg, off, n / 0x1_0000);
    GetU16Put(msg, off + 2, n % 0x1_0000);
  }

  lemma SubSlice(s: str, o: nat, n: nat, i: nat, j: nat)
    requires i <= j <= n && o + n <= |s|
    ensures s[o..o + n][i..j] == s[o + i..o + j]
  {
    var a, b := s[o..o + n][i..j], s[o + i..o + j];
    assert forall k | 0 <= k < |a| :: a[k] == b[k];
  }

  /** Nothing below off differs between the two contents of a buffer. */
  ghost predicate Kept(before: str, now: str, off: nat) {
    |before| == |now| && if off <= |now| then now[..off] == before[..off] else now == before
  }

  lemma KeptRefl(b: str, off: nat)
    ensures Kept(b, b, off)
  {
  }

  lemma KeptTrans(a: str, b: str, c: str, off: nat, off1: nat)
    requires Kept(a, b, off) && Kept(b, c, off1) && off <= off1
    ensures Kept(a, c, off)
  {
    if off1 <= |c| {
      assert c[..off] == c[..off1][..off] && b[..off] == b[..off1][..off];
    }
  }

  /** Two writes in a row write their concatenation. */
  lemma Splice(b: str, c: str, off: nat, off1: nat, off2: nat, x: str, y: str)
    requires off <= off1 <= off2 <= |c| == |b|
    requires b[off..off1] == x && Kept(b, c, off1) && c[off1..off2] == y
    ensures c[off..off2] == x + y
  {
    assert c[off..off1] == c[..off1][off..];
    assert b[off..off1] == b[..off1][off..];
    assert c[off..off2] == c[off..off1] + c[off1..off2];
  }

  lemma DivIs(n: nat, v: nat, q: nat, r: nat)
    requires v > 0 && r < v && n == q * v + r
    ensures n / v == q
  {
    var k: int := n / v - q;
    Multiple(k, v);
    assert k * v + n % v == r;
  }

  /** A multiple of v is zero or at least v away from zero. */
  lemma Multiple(k: int, v: nat)
    ensures k == 0 || k * v >= v || k * v + v <= 0
  {
    if k >= 1 {
      assert (k - 1) * v >= 0;
    } else if k < 0 {
      assert (-k - 1) * v >= 0;
    }
  }
}
