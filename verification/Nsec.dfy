/** The type bitmap of NSEC records (msg_helpers.go; section 4.1.2 of RFC 4034). */
module Nsec {
  import opened Bytes

  // ---------- Bits of an octet ----------

  /** b & 1<<j != 0 */
  predicate BitSet(b: nat, j: nat) {
    if j == 0 then b % 2 == 1 else BitSet(b / 2, j - 1)
  }

  /** b | 1<<j */
  function OrBit(b: nat, j: nat): (r: nat)
    ensures r >= b
  {
    if j == 0 then b / 2 * 2 + 1 else OrBit(b / 2, j - 1) * 2 + b % 2
  }

  function Pow2(n: nat): (p: nat)
    ensures p >= 1
  {
    if n == 0 then 1 else 2 * Pow2(n - 1)
  }

  lemma {:induction false} OrBitSmall(b: nat, j: nat, n: nat)
    requires b < Pow2(n) && j < n
    ensures OrBit(b, j) < Pow2(n)
    decreases j
  {
    var p := Pow2(n - 1);
    assert Pow2(n) == 2 * p;
    hide Pow2;
    Halves(b, p);
    if j > 0 {
      var r := OrBit(b / 2, j - 1);
      OrBitSmall(b / 2, j - 1, n - 1);
      assert OrBit(b, j) == r * 2 + b % 2;
      hide OrBit;
      assert r < p;
    } else {
      assert OrBit(b, j) == b / 2 * 2 + 1;
      hide OrBit;
    }
  }

  lemma Halves(b: nat, p: nat)
    requires b < 2 * p
    ensures b / 2 < p && b % 2 < 2
  {
  }

  lemma {:induction false} OrBitSets(b: nat, j: nat, k: nat)
    ensures BitSet(OrBit(b, j), k) <==> BitSet(b, k) || k == j
    decreases j
  {
    if j > 0 && k > 0 {
      OrBitSets(b / 2, j - 1, k - 1);
    }
  }

  lemma {:induction false} SameBits(a: nat, b: nat, n: nat)
    requires a < Pow2(n) && b < Pow2(n)
    requires forall k | 0 <= k < n :: BitSet(a, k) <==> BitSet(b, k)
    ensures a == b
    decreases n
  {
    if n > 0 {
      assert BitSet(a, 0) <==> BitSet(b, 0);
      forall k | 0 <= k < n - 1
        ensures BitSet(a / 2, k) <==> BitSet(b / 2, k)
      {
        assert BitSet(a, k + 1) <==> BitSet(b, k + 1);
      }
      SameBits(a / 2, b / 2, n - 1);
    }
  }

  lemma ZeroBits(k: nat)
    ensures !BitSet(0, k)
  {
  }

  lemma {:induction false} SomeBit(b: nat, n: nat)
    requires 0 < b < Pow2(n)
    ensures exists k :: 0 <= k < n && BitSet(b, k)
    decreases n
  {
    if b % 2 == 1 {
      assert BitSet(b, 0);
    } else {
      SomeBit(b / 2, n - 1);
      var k :| 0 <= k < n - 1 && BitSet(b / 2, k);
      assert BitSet(b, k + 1);
    }
  }

  lemma ByteRange(b: byte)
    ensures b < Pow2(8) == 256
  {
  }

  /** The bit for the i-th type of an octet; the first is the leftmost. */
  predicate HasType(b: byte, i: nat)
    requires i < 8
  {
    BitSet(b, 7 - i)
  }

  function WithType(b: byte, i: nat): (r: byte)
    requires i < 8
  {
    ByteRange(b);
    OrBitSmall(b, 7 - i, 8);
    OrBit(b, 7 - i)
  }

  // ---------- Blocks ----------

  datatype AnyBlock = Block(window: byte, octets: seq<byte>)

  /** A window number and 1 to 32 octets of its bitmap. */
  type Block = x: AnyBlock | 1 <= |x.octets| <= 32 witness Block(0, [0])

  function EncodeBlock(x: Block): (s: str)
    ensures |s| == |x.octets| + 2
  {
    [x.window, |x.octets|] + x.octets
  }

  /** Blocks in increasing order of their windows. */
  predicate Valid(bs: seq<Block>) {
    forall j, k | 0 <= j < k < |bs| :: bs[j].window < bs[k].window
  }

  predicate EndsNonzero(b: Block) { b.octets[|b.octets| - 1] != 0 }

  /** No block ends in a zero octet. */
  predicate Canonical(bs: seq<Block>) {
    Valid(bs) && forall k | 0 <= k < |bs| :: EndsNonzero(bs[k])
  }

  function Encode(bs: seq<Block>): str
  {
    if bs == [] then [] else Encode(bs[..|bs| - 1]) + EncodeBlock(bs[|bs| - 1])
  }

  /** Type t is marked in a window's bitmap. */
  predicate MarkedIn(window: byte, octets: seq<byte>, t: uint16) {
    t / 256 == window && t % 256 / 8 < |octets| && HasType(octets[t % 256 / 8], t % 8)
  }

  predicate InBlock(x: Block, t: uint16) {
    MarkedIn(x.window, x.octets, t)
  }

  predicate Marked(bs: seq<Block>, t: uint16) {
    exists k | 0 <= k < |bs| :: InBlock(bs[k], t)
  }

  // ---------- Specification of unpacking ----------

  /** The types marked in octet j of a window, from the i-th on. */
  function OctetTypes(window: byte, j: nat, b: byte, i: nat): (ts: seq<uint16>)
    requires j < 32 && i <= 8
    decreases 8 - i
  {
    if i == 8 then []
    else (if HasType(b, i) then [window * 256 + j * 8 + i] else []) + OctetTypes(window, j, b, i + 1)
  }

  function BlockTypes(window: byte, octets: seq<byte>): seq<uint16>
    requires |octets| <= 32
  {
    if octets == [] then []
    else
      var n := |octets| - 1;
      BlockTypes(window, octets[..n]) + OctetTypes(window, n, octets[n], 0)
  }

  function TypesOf(bs: seq<Block>): seq<uint16>
  {
    if bs == [] then [] else TypesOf(bs[..|bs| - 1]) + BlockTypes(bs[|bs| - 1].window, bs[|bs| - 1].octets)
  }

  datatype BlocksRead = BlocksRead(blocks: seq<Block>, off1: nat, err: Error)

  /** The blocks from off on, behind those read before; the checks of section 4.1.2 of RFC 4034. */
  function ReadBlocks(msg: str, off: nat, done: seq<Block>): (r: BlocksRead)
    requires Valid(done)
    ensures Valid(r.blocks)
    decreases |msg| - off
  {
    if off >= |msg| then BlocksRead(done, off, NoError)
    else if off + 2 > |msg| then BlocksRead(done, |msg|, ErrOverflow)
    else
      var length := msg[off + 1];
      if (done != [] && msg[off] <= done[|done| - 1].window) || length == 0 || length > 32 then
        BlocksRead(done, |msg|, ErrRdata)
      else if off + 2 + length > |msg| then BlocksRead(done, |msg|, ErrOverflow)
      else
        ValidSnoc(done, Block(msg[off], msg[off + 2..off + 2 + length]));
        ReadBlocks(msg, off + 2 + length, done + [Block(msg[off], msg[off + 2..off + 2 + length])])
  }

  /** One round of the reader, by cases. */
  lemma ReadCases(msg: str, off: nat, done: seq<Block>)
    requires Valid(done)
    ensures var r := ReadBlocks(msg, off, done);
            var last: int := if done == [] then -1 else done[|done| - 1].window;
            if off >= |msg| then r == BlocksRead(done, off, NoError)
            else if off + 2 > |msg| then r == BlocksRead(done, |msg|, ErrOverflow)
            else if msg[off] <= last || msg[off + 1] == 0 || msg[off + 1] > 32 then
              r == BlocksRead(done, |msg|, ErrRdata)
            else if off + 2 + msg[off + 1] > |msg| then r == BlocksRead(done, |msg|, ErrOverflow)
            else
              var b: Block := Block(msg[off], msg[off + 2..off + 2 + msg[off + 1]]);
              Valid(done + [b]) && r == ReadBlocks(msg, off + 2 + msg[off + 1], done + [b])
  {
    if off + 2 <= |msg| && (done == [] || done[|done| - 1].window < msg[off]) && 1 <= msg[off + 1] <= 32
       && off + 2 + msg[off + 1] <= |msg| {
      ValidSnoc(done, Block(msg[off], msg[off + 2..off + 2 + msg[off + 1]]));
    }
  }

  lemma ValidSnoc(bs: seq<Block>, b: Block)
    requires Valid(bs) && (bs == [] || bs[|bs| - 1].window < b.window)
    ensures Valid(bs + [b])
  {
    var all := bs + [b];
    forall j, k | 0 <= j < k < |all|
      ensures all[j].window < all[k].window
    {
      if k == |bs| && j < |bs| - 1 {
        assert bs[j].window < bs[|bs| - 1].window;
      }
    }
  }

  method UnpackDataNsec(msg: str, off: nat) returns (nsec: seq<uint16>, off1: nat, err: Error)
    ensures var r := ReadBlocks(msg, off, []);
            nsec == TypesOf(r.blocks) && off1 == r.off1 && err == r.err
  {
    NoneValid();
    hide *;
    nsec := [];
    off1 := off;
    var lastwindow: int := -1;
    ghost var done: seq<Block> := [];
    while off1 < |msg|
      invariant Valid(done) && ReadBlocks(msg, off1, done) == ReadBlocks(msg, off, [])
      invariant nsec == TypesOf(done)
      invariant lastwindow == if done == [] then -1 else done[|done| - 1].window
      decreases |msg| - off1
    {
      ReadCases(msg, off1, done);
      if off1 + 2 > |msg| {
        return nsec, |msg|, ErrOverflow;
      }
      var window, length: int := msg[off1], msg[off1 + 1];
      if window <= lastwindow {
        return nsec, |msg|, ErrRdata;
      }
      if length == 0 {
        return nsec, |msg|, ErrRdata;
      }
      if length > 32 {
        return nsec, |msg|, ErrRdata;
      }
      if off1 + 2 + length > |msg| {
        return nsec, |msg|, ErrOverflow;
      }
      ghost var b: Block := Block(window, msg[off1 + 2..off1 + 2 + length]);
      var types := UnpackWindow(window, msg, off1 + 2, length);
      TypesMore(done, b);
      nsec := nsec + types;
      done := done + [b];
      off1 := off1 + 2 + length;
      lastwindow := window;
    }
    ReadCases(msg, off1, done);
    return nsec, off1, NoError;
  }

  lemma NoneValid()
    ensures Valid([]) && TypesOf([]) == []
  {
  }

  lemma TypesMore(done: seq<Block>, b: Block)
    ensures TypesOf(done + [b]) == TypesOf(done) + BlockTypes(b.window, b.octets)
  {
    hide BlockTypes;
    assert (done + [b])[..|done|] == done;
  }

  /** The loop over the octets of one window. */
  method UnpackWindow(window: byte, msg: str, off: nat, length: nat) returns (nsec: seq<uint16>)
    requires off + length <= |msg| && length <= 32
    ensures nsec == BlockTypes(window, msg[off..off + length])
  {
    hide OctetTypes;
    nsec := [];
    for j := 0 to length
      invariant nsec == BlockTypes(window, msg[off..off + j])
    {
      assert msg[off..off + j + 1][..j] == msg[off..off + j];
      var types := UnpackOctet(window, j, msg[off + j]);
      nsec := nsec + types;
    }
  }

  /** The eight bit tests. */
  method UnpackOctet(window: byte, j: nat, b: byte) returns (nsec: seq<uint16>)
    requires j < 32
    ensures nsec == OctetTypes(window, j, b, 0)
  {
    hide *;
    nsec := [];
    ghost var all := OctetTypes(window, j, b, 0);
    assert [] + all == all;
    for i := 0 to 8
      invariant nsec + OctetTypes(window, j, b, i) == all
    {
      var t: uint16 := window * 256 + j * 8 + i;
      OctetMore(window, j, b, i, nsec);
      if HasType(b, i) {
        nsec := nsec + [t];
      }
    }
    OctetEnd(window, j, b, nsec);
  }

  lemma OctetMore(window: byte, j: nat, b: byte, i: nat, before: seq<uint16>)
    requires j < 32 && i < 8
    ensures var rest := OctetTypes(window, j, b, i + 1);
            before + OctetTypes(window, j, b, i)
            == (if HasType(b, i) then before + [window as int * 256 + j * 8 + i] else before) + rest
  {
    hide HasType;
    var rest := OctetTypes(window, j, b, i + 1);
    var t: uint16 := window * 256 + j * 8 + i;
    assert before + ([t] + rest) == before + [t] + rest;
    assert [] + rest == rest;
  }

  lemma OctetEnd(window: byte, j: nat, b: byte, before: seq<uint16>)
    requires j < 32
    ensures before + OctetTypes(window, j, b, 8) == before
  {
  }

  // ---------- Specification of packing ----------

  function Zeros(n: nat): (z: seq<byte>)
    ensures |z| == n && forall k | 0 <= k < n :: z[k] == 0
  {
    if n == 0 then [] else Zeros(n - 1) + [0]
  }

  /** How many octets the bitmap of a window needs for t. */
  function Length(t: uint16): (n: nat)
    ensures 1 <= n <= 32
  {
    t % 256 / 8 + 1
  }

  /** The bitmap, lengthened with zeros if need be, with t marked in its last octet. */
  function Mark(octets: seq<byte>, t: uint16): (r: seq<byte>)
    requires |octets| <= Length(t)
    ensures |r| == Length(t)
  {
    var o := octets + Zeros(Length(t) - |octets|);
    o[|o| - 1 := WithType(o[|o| - 1], t % 8)]
  }

  /** t belongs to the last block, at or behind its last octet, or to a later window. */
  predicate Follows(bs: seq<Block>, t: uint16) {
    bs == [] ||
    var b := bs[|bs| - 1];
    b.window < t / 256 || (b.window == t / 256 && |b.octets| <= Length(t))
  }

  function AddType(bs: seq<Block>, t: uint16): (r: seq<Block>)
    requires Valid(bs) && Follows(bs, t)
    ensures Valid(r) && r != [] && r[|r| - 1].window == t / 256 && |r[|r| - 1].octets| == Length(t)
  {
    if bs == [] || bs[|bs| - 1].window < t / 256 then
      ValidSnoc(bs, Block(t / 256, Mark([], t)));
      bs + [Block(t / 256, Mark([], t))]
    else
      ValidSnoc(bs[..|bs| - 1], Block(t / 256, Mark(bs[|bs| - 1].octets, t)));
      bs[..|bs| - 1] + [Block(t / 256, Mark(bs[|bs| - 1].octets, t))]
  }

  /** No type lies in an octet before that of the type in front of it. */
  predicate Ordered(types: seq<uint16>) {
    forall j | 1 <= j < |types| :: types[j - 1] / 8 <= types[j] / 8
  }

  function AddAll(types: seq<uint16>): (bs: seq<Block>)
    requires Ordered(types)
    ensures Valid(bs) && (bs == [] <==> types == [])
    ensures types != [] ==>
              var t := types[|types| - 1]; bs[|bs| - 1].window == t / 256 && |bs[|bs| - 1].octets| == Length(t)
  {
    if types == [] then []
    else
      var n := |types| - 1;
      assert Ordered(types[..n]);
      OctetOrder(if n > 0 then types[n - 1] else 0, types[n]);
      AddType(AddAll(types[..n]), types[n])
  }

  /** Types in order of their octets, told by windows and lengths. */
  lemma OctetOrder(t: uint16, u: uint16)
    ensures t / 8 <= u / 8 <==> t / 256 < u / 256 || (t / 256 == u / 256 && Length(t) <= Length(u))
  {
    assert t / 8 == t / 256 * 32 + t % 256 / 8;
    assert u / 8 == u / 256 * 32 + u % 256 / 8;
  }

  function Need(types: seq<uint16>): nat
    requires Ordered(types)
  {
    |Encode(AddAll(types))|
  }

  lemma EncodeLast(bs: seq<Block>)
    requires bs != []
    ensures Encode(bs) == Encode(bs[..|bs| - 1]) + EncodeBlock(bs[|bs| - 1])
  {
  }

  lemma AddTypeLen(bs: seq<Block>, t: uint16)
    requires Valid(bs) && Follows(bs, t)
    ensures |Encode(AddType(bs, t))| >= |Encode(bs)|
    ensures var r := AddType(bs, t);
            |Encode(r)| == |Encode(r[..|r| - 1])| + 2 + Length(t)
  {
    hide Mark, Length;
    var r := AddType(bs, t);
    EncodeLast(r);
    if bs != [] {
      EncodeLast(bs);
      if bs[|bs| - 1].window < t / 256 {
        assert r[..|r| - 1] == bs;
      } else {
        assert r[..|r| - 1] == bs[..|bs| - 1];
      }
    }
  }

  lemma {:induction false} NeedGrows(types: seq<uint16>, j: nat)
    requires Ordered(types) && j <= |types|
    ensures Ordered(types[..j]) && Need(types[..j]) <= Need(types)
    decreases |types| - j
  {
    hide Encode, AddType;
    if j == |types| {
      assert types[..j] == types;
    } else {
      NeedGrows(types, j + 1);
      assert types[..j + 1][..j] == types[..j];
      AddAllStep(types[..j + 1]);
      AddTypeLen(AddAll(types[..j]), types[j]);
    }
  }

  lemma AddAllStep(types: seq<uint16>)
    requires Ordered(types) && types != []
    ensures var n := |types| - 1;
            Ordered(types[..n]) && Follows(AddAll(types[..n]), types[n])
              && AddAll(types) == AddType(AddAll(types[..n]), types[n])
  {
    hide AddType;
    var n := |types| - 1;
    assert Ordered(types[..n]);
    OctetOrder(if n > 0 then types[n - 1] else 0, types[n]);
  }

  // ---------- Packing ----------

  predicate ZeroFrom(msg: str, from: nat, end: nat) {
    end <= |msg| && forall k | from <= k < end :: msg[k] == 0
  }

  /** After some types: the last of them set lastwindow and lastlength, and its block starts at off. */
  ghost predicate Placed(types: seq<uint16>, off0: nat, off: nat, lastwindow: nat, lastlength: nat) {
    Ordered(types) &&
    if types == [] then lastwindow == lastlength == 0 && off == off0
    else
      var bs, t := AddAll(types), types[|types| - 1];
      lastwindow == t / 256 && lastlength == Length(t) && off == off0 + |Encode(bs[..|bs| - 1])|
  }

  /** Where packDataNsec puts the block of t: behind the last block when t starts a new window. */
  function Jump(t: uint16, off: nat, lastwindow: nat, lastlength: nat): nat {
    if t / 256 > lastwindow && lastlength != 0 then off + lastlength + 2 else off
  }

  /** The order test of packDataNsec is the order of the octets, and the block it goes on with is the one
      the type is added to. */
  lemma Place(types: seq<uint16>, t: uint16, off0: nat, off: nat, lastwindow: nat, lastlength: nat)
    requires Placed(types, off0, off, lastwindow, lastlength)
    ensures var off1 := Jump(t, off, lastwindow, lastlength);
            var length1 := if off1 == off then lastlength else 0;
            && (t / 256 < lastwindow || Length(t) < length1 <==> !Ordered(types + [t]))
            && (Ordered(types + [t]) ==>
                  Placed(types + [t], off0, off1, t / 256, Length(t))
                    && off1 + 2 + Length(t) == off0 + Need(types + [t]))
  {
    hide Length, AddType, Encode;
    var all := types + [t];
    assert all[..|types|] == types;
    OrderedSnoc(types, t);
    if types != [] {
      OctetOrder(types[|types| - 1], t);
    }
    if Ordered(all) {
      AddAllStep(all);
      AddTypeLen(AddAll(types), t);
      AddTypeInit(AddAll(types), t);
      if types != [] {
        EncodeLast(AddAll(types));
      } else {
        EncodeNone();
      }
    }
  }

  lemma EncodeNone()
    ensures Encode([]) == []
  {
  }

  lemma OrderedSnoc(types: seq<uint16>, t: uint16)
    requires Ordered(types)
    ensures Ordered(types + [t]) <==> types == [] || types[|types| - 1] / 8 <= t / 8
  {
    var all := types + [t];
    if types != [] {
      assert Ordered(all) ==> all[|types| - 1] / 8 <= all[|types|] / 8;
    }
  }

  lemma AddTypeInit(bs: seq<Block>, t: uint16)
    requires Valid(bs) && Follows(bs, t)
    ensures var r := AddType(bs, t);
            r[..|r| - 1] == if bs == [] || bs[|bs| - 1].window < t / 256 then bs else bs[..|bs| - 1]
  {
  }

  /** The blocks are written from off0 on, the last of them at off; behind it all is zero up to end. */
  ghost predicate Written(msg: str, off0: nat, off: nat, bs: seq<Block>, end: nat) {
    off0 <= off &&
    if bs == [] then off == off0 && ZeroFrom(msg, off0, end)
    else
      var b := bs[|bs| - 1];
      var at := off + 2 + |b.octets|;
      && at <= end && ZeroFrom(msg, at, end)
      && msg[off0..off] == Encode(bs[..|bs| - 1]) && msg[off..at] == EncodeBlock(b)
  }

  /** The three assignments: window, length, and the bit of the type. */
  function Stored(msg: str, off: nat, t: uint16): (r: str)
    requires off + 2 + Length(t) <= |msg|
    ensures |r| == |msg|
  {
    var m := msg[off := t / 256][off + 1 := Length(t)];
    m[off + 1 + Length(t) := WithType(m[off + 1 + Length(t)], t % 8)]
  }

  /** On a bitmap followed by zeros they store the lengthened bitmap with t marked. */
  lemma MarkInPlace(msg: str, off: nat, octets: seq<byte>, t: uint16, end: nat)
    requires |octets| <= Length(t) && off + 2 + Length(t) <= end <= |msg|
    requires msg[off + 2..off + 2 + |octets|] == octets && ZeroFrom(msg, off + 2 + |octets|, end)
    ensures var m := Stored(msg, off, t);
            && m[off..off + 2 + Length(t)] == EncodeBlock(Block(t / 256, Mark(octets, t)))
            && ZeroFrom(m, off + 2 + Length(t), end)
            && m[..off] == msg[..off]
  {
    hide WithType;
    var n := Length(t);
    var m := Stored(msg, off, t);
    var o := octets + Zeros(n - |octets|);
    assert msg[off + 2..off + 2 + n] == o by {
      forall k | 0 <= k < n
        ensures msg[off + 2..off + 2 + n][k] == o[k]
      {
        if k < |octets| {
          assert msg[off + 2 + k] == msg[off + 2..off + 2 + |octets|][k];
        }
      }
    }
    assert msg[off + 1 + n] == o[n - 1];
    assert m[off + 2..off + 2 + n] == o[n - 1 := WithType(o[n - 1], t % 8)];
    assert m[off..off + 2 + n] == [m[off], m[off + 1]] + m[off + 2..off + 2 + n];
  }

  /** The block of t stands behind the closed blocks. */
  lemma WrittenOne(msg: str, off0: nat, off: nat, closed: seq<Block>, b: Block, end: nat)
    requires off0 <= off && off + 2 + |b.octets| <= end
    requires ZeroFrom(msg, off + 2 + |b.octets|, end)
    requires msg[off0..off] == Encode(closed) && msg[off..off + 2 + |b.octets|] == EncodeBlock(b)
    ensures Written(msg, off0, off, closed + [b], end)
  {
    hide Encode, EncodeBlock;
    assert (closed + [b])[..|closed|] == closed;
  }

  lemma PrefixSlice(a: str, b: str, lo: nat, hi: nat)
    requires lo <= hi <= |a| && hi <= |b| && a[..hi] == b[..hi]
    ensures a[lo..hi] == b[lo..hi]
  {
    assert a[lo..hi] == a[..hi][lo..] && b[lo..hi] == b[..hi][lo..];
  }

  lemma WriteSame(msg: str, off0: nat, off: nat, bs: seq<Block>, t: uint16, end: nat)
    requires bs != [] && |bs[|bs| - 1].octets| <= Length(t) && Written(msg, off0, off, bs, end)
    requires off + 2 + Length(t) <= end
    ensures Written(Stored(msg, off, t), off0, off, bs[..|bs| - 1] + [Block(t / 256, Mark(bs[|bs| - 1].octets, t))],
                    end)
  {
    hide Mark, Length, Encode, Stored;
    var b := bs[|bs| - 1];
    assert msg[off..off + 2 + |b.octets|][2..] == msg[off + 2..off + 2 + |b.octets|];
    assert EncodeBlock(b)[2..] == b.octets;
    MarkInPlace(msg, off, b.octets, t, end);
    PrefixSlice(Stored(msg, off, t), msg, off0, off);
    hide Written, ZeroFrom;
    WrittenOne(Stored(msg, off, t), off0, off, bs[..|bs| - 1], Block(t / 256, Mark(b.octets, t)), end);
  }

  lemma WriteNew(msg: str, off0: nat, off: nat, bs: seq<Block>, t: uint16, end: nat)
    requires bs != [] && Written(msg, off0, off, bs, end)
    requires off + 2 + |bs[|bs| - 1].octets| + 2 + Length(t) <= end
    ensures var at := off + 2 + |bs[|bs| - 1].octets|;
            Written(Stored(msg, at, t), off0, at, bs + [Block(t / 256, Mark([], t))], end)
  {
    hide Mark, Length, Encode, Stored, EncodeBlock;
    var at := off + 2 + |bs[|bs| - 1].octets|;
    EncodeLast(bs);
    assert msg[off0..at] == msg[off0..off] + msg[off..at];
    MarkInPlace(msg, at, [], t, end);
    PrefixSlice(Stored(msg, at, t), msg, off0, at);
    hide Written, ZeroFrom;
    WrittenOne(Stored(msg, at, t), off0, at, bs, Block(t / 256, Mark([], t)), end);
  }

  lemma WriteFirst(msg: str, off: nat, t: uint16, end: nat)
    requires ZeroFrom(msg, off, end) && off + 2 + Length(t) <= end
    ensures Written(Stored(msg, off, t), off, off, [Block(t / 256, Mark([], t))], end)
  {
    hide Mark, Length, Stored, EncodeBlock;
    MarkInPlace(msg, off, [], t, end);
    EncodeNone();
    WrittenOne(Stored(msg, off, t), off, off, [], Block(t / 256, Mark([], t)), end);
    assert [] + [Block(t / 256, Mark([], t))] == [Block(t / 256, Mark([], t))];
  }

  lemma WriteStep(msg: str, off0: nat, off: nat, bs: seq<Block>, t: uint16, end: nat)
    requires Valid(bs) && Follows(bs, t) && Written(msg, off0, off, bs, end)
    requires var off1 := if bs != [] && bs[|bs| - 1].window < t / 256 then off + 2 + |bs[|bs| - 1].octets| else off;
             off1 + 2 + Length(t) <= end
    ensures var off1 := if bs != [] && bs[|bs| - 1].window < t / 256 then off + 2 + |bs[|bs| - 1].octets| else off;
            off1 + 2 + Length(t) <= |msg| && Written(Stored(msg, off1, t), off0, off1, AddType(bs, t), end)
  {
    WrittenEnd(msg, off0, off, bs, end);
    hide Mark, Length, Stored, Written;
    if bs == [] {
      WriteFirst(msg, off, t, end);
    } else if bs[|bs| - 1].window < t / 256 {
      WriteNew(msg, off0, off, bs, t, end);
    } else {
      WriteSame(msg, off0, off, bs, t, end);
    }
  }

  lemma WrittenEnd(msg: str, off0: nat, off: nat, bs: seq<Block>, end: nat)
    requires Written(msg, off0, off, bs, end)
    ensures end <= |msg|
    ensures bs == [] ==> off == off0 && ZeroFrom(msg, off, end)
  {
  }

  lemma WrittenAll(msg: str, off0: nat, off: nat, bs: seq<Block>, end: nat)
    requires bs != [] && Written(msg, off0, off, bs, end)
    ensures var at := off + 2 + |bs[|bs| - 1].octets|;
            off0 <= at <= |msg| && msg[off0..at] == Encode(bs)
  {
    hide Encode, EncodeBlock;
    EncodeLast(bs);
    var at := off + 2 + |bs[|bs| - 1].octets|;
    assert msg[off0..at] == msg[off0..off] + msg[off..at];
  }

  lemma LastLength(types: seq<uint16>, off0: nat, off: nat, lastwindow: nat, lastlength: nat)
    requires types != [] && Placed(types, off0, off, lastwindow, lastlength)
    ensures var bs := AddAll(types); bs != [] && |bs[|bs| - 1].octets| == lastlength
  {
    hide Encode;
  }

  lemma PlacedNone(off: nat)
    ensures Placed([], off, off, 0, 0)
  {
  }

  lemma WrittenNone(msg: str, off: nat, end: nat)
    requires ZeroFrom(msg, off, end)
    ensures Ordered([]) && Written(msg, off, off, AddAll([]), end)
  {
  }

  lemma LengthIs(t: uint16)
    ensures (t - t / 256 * 256) / 8 + 1 == Length(t)
  {
  }

  lemma JumpIs(t: uint16, off: nat, lastwindow: nat, lastlength: nat)
    ensures Jump(t, off, lastwindow, lastlength)
            == if t / 256 > lastwindow && lastlength != 0 then off + lastlength + 2 else off
  {
  }

  lemma JumpBlock(types: seq<uint16>, t: uint16, off0: nat, off: nat, lastwindow: nat, lastlength: nat)
    requires Placed(types, off0, off, lastwindow, lastlength)
    ensures Ordered(types) && Valid(AddAll(types))
    ensures var bs := AddAll(types);
            Jump(t, off, lastwindow, lastlength)
            == if bs != [] && bs[|bs| - 1].window < t / 256 then off + 2 + |bs[|bs| - 1].octets| else off
  {
    hide Encode;
  }

  /** The window, the length, and the bit of t, or-ed into its octet. */
  method Store(msg: array<byte>, off: nat, window: byte, length: byte, t: uint16)
    requires window == t / 256 && length as int == Length(t) && off + 2 + length <= msg.Length
    modifies msg
    ensures msg[..] == Stored(old(msg[..]), off, t)
  {
    hide WithType;
    msg[off] := window;
    msg[off + 1] := length;
    msg[off + 1 + length] := WithType(msg[off + 1 + length], t % 8);
  }

  lemma StoredKept(before: str, msg: str, off0: nat, off: nat, t: uint16)
    requires Kept(before, msg, off0) && off0 <= off && off + 2 + Length(t) <= |msg|
    ensures Kept(before, Stored(msg, off, t), off0)
  {
    hide WithType;
  }

  // ---------- Buffers that are not zero ----------

  /** Where the window numbers and lengths of the blocks stand, when the first block stands at off0. */
  function Heads(bs: seq<Block>, off0: nat): set<nat> {
    if bs == [] then {}
    else
      var p := off0 + |Encode(bs[..|bs| - 1])|;
      Heads(bs[..|bs| - 1], off0) + {p, p + 1}
  }

  /** m is z where something was assigned, and z or-ed into b elsewhere. */
  predicate MixedAt(m: byte, z: byte, b: byte, head: bool) {
    if head then m == z else forall j | 0 <= j < 8 :: BitSet(m, j) <==> BitSet(z, j) || BitSet(b, j)
  }

  /** From off on msg is z mixed into before. */
  ghost predicate Mixed(msg: str, z: str, before: str, off: nat, heads: set<nat>) {
    |msg| == |z| == |before| && forall k | off <= k < |msg| :: MixedAt(msg[k], z[k], before[k], k in heads)
  }

  lemma MixedStart(before: str, off: nat)
    requires off <= |before|
    ensures Mixed(before, before[..off] + Zeros(|before| - off), before, off, {})
    ensures ZeroFrom(before[..off] + Zeros(|before| - off), off, |before|)
  {
    var z := before[..off] + Zeros(|before| - off);
    forall k | off <= k < |before|
      ensures MixedAt(before[k], z[k], before[k], false)
    {
      forall j | 0 <= j < 8 ensures !BitSet(z[k], j) { ZeroBits(j); }
    }
  }

  lemma MixedStep(msg: str, z: str, before: str, off: nat, heads: set<nat>, p: nat, t: uint16)
    requires Mixed(msg, z, before, off, heads) && off <= p && p + 2 + Length(t) <= |msg|
    requires forall h | h in heads :: h <= p + 1
    ensures Mixed(Stored(msg, p, t), Stored(z, p, t), before, off, heads + {p, p + 1})
  {
    hide WithType, Length, MixedAt;
    var m1, z1, h1, q := Stored(msg, p, t), Stored(z, p, t), heads + {p, p + 1}, p + 1 + Length(t);
    forall k | off <= k < |msg|
      ensures MixedAt(m1[k], z1[k], before[k], k in h1)
    {
      assert MixedAt(msg[k], z[k], before[k], k in heads);
      MixedPut(msg[k], z[k], before[k], t % 8);
      MixedHead(m1[k], before[k]);
      if k == q {
        assert k !in h1 && m1[k] == WithType(msg[k], t % 8) && z1[k] == WithType(z[k], t % 8);
      } else if k != p && k != p + 1 {
        assert m1[k] == msg[k] && z1[k] == z[k] && (k in h1 <==> k in heads);
      } else {
        assert m1[k] == z1[k] && k in h1;
      }
    }
  }

  lemma MixedHead(m: byte, b: byte)
    ensures MixedAt(m, m, b, true)
  {
  }

  lemma MixedPut(m: byte, z: byte, b: byte, i: nat)
    requires i < 8
    ensures MixedAt(m, z, b, false) ==> MixedAt(WithType(m, i), WithType(z, i), b, false)
  {
    forall j | 0 <= j < 8
      ensures BitSet(WithType(m, i), j) <==> BitSet(m, j) || j == 7 - i
      ensures BitSet(WithType(z, i), j) <==> BitSet(z, j) || j == 7 - i
    {
      OrBitSets(m, 7 - i, j);
      OrBitSets(z, 7 - i, j);
    }
  }

  lemma HeadsStep(bs: seq<Block>, t: uint16, off0: nat)
    requires Valid(bs) && Follows(bs, t)
    ensures var r := AddType(bs, t);
            var p := off0 + |Encode(r[..|r| - 1])|;
            Heads(r, off0) == Heads(bs, off0) + {p, p + 1} && forall h | h in Heads(bs, off0) :: h <= p + 1
  {
    hide Mark, Length, Encode;
    AddTypeInit(bs, t);
    HeadsBelow(bs, off0);
    if bs != [] {
      EncodeLast(bs);
    }
  }

  lemma {:induction false} HeadsBelow(bs: seq<Block>, off0: nat)
    ensures forall h | h in Heads(bs, off0) :: bs != [] && off0 <= h <= off0 + |Encode(bs[..|bs| - 1])| + 1
    decreases |bs|
  {
    hide EncodeBlock;
    if bs != [] {
      HeadsBelow(bs[..|bs| - 1], off0);
      if |bs| > 1 {
        EncodeLast(bs[..|bs| - 1]);
      }
    }
  }

  /** All bits of b are bits of z. */
  predicate Within(b: byte, z: byte) {
    forall j | 0 <= j < 8 :: BitSet(b, j) ==> BitSet(z, j)
  }

  lemma MixedOne(m: byte, z: byte, b: byte, head: bool)
    requires MixedAt(m, z, b, head)
    ensures m == z <==> head || Within(b, z)
  {
    if !head && Within(b, z) {
      ByteRange(m);
      SameBits(m, z, 8);
    }
  }

  /** The bits of before are among those of the bitmaps from off on. */
  ghost predicate Covered(before: str, off: nat, bs: seq<Block>)
    requires off + |Encode(bs)| <= |before|
  {
    forall k | off <= k < off + |Encode(bs)| && k !in Heads(bs, off) :: Within(before[k], Encode(bs)[k - off])
  }

  /** The octets of the bitmaps are or-ed into what was there, window numbers and lengths assigned. */
  ghost predicate OrEd(msg: str, before: str, off: nat, bs: seq<Block>)
    requires off + |Encode(bs)| <= |before| == |msg|
  {
    forall k | off <= k < off + |Encode(bs)| :: MixedAt(msg[k], Encode(bs)[k - off], before[k], k in Heads(bs, off))
  }

  lemma MixedEnd(msg: str, z: str, before: str, off: nat, bs: seq<Block>)
    requires Mixed(msg, z, before, off, Heads(bs, off)) && off + |Encode(bs)| <= |msg|
    requires z[off..off + |Encode(bs)|] == Encode(bs)
    ensures |before| == |msg| && OrEd(msg, before, off, bs)
    ensures msg[off..off + |Encode(bs)|] == Encode(bs) <==> Covered(before, off, bs)
  {
    hide Encode, Heads, MixedAt, Within;
    var e, end := Encode(bs), off + |Encode(bs)|;
    forall k | off <= k < end
      ensures z[k] == e[k - off] && msg[off..end][k - off] == msg[k]
      ensures MixedAt(msg[k], e[k - off], before[k], k in Heads(bs, off))
      ensures msg[k] == e[k - off] <==> k in Heads(bs, off) || Within(before[k], e[k - off])
    {
      assert z[k] == z[off..end][k - off];
      MixedOne(msg[k], z[k], before[k], k in Heads(bs, off));
    }
    if Covered(before, off, bs) {
      forall i | 0 <= i < |e|
        ensures msg[off..end][i] == e[i]
      {
        assert msg[off + i] == e[off + i - off];
      }
    }
  }

  lemma ZeroCovered(before: str, off: nat, bs: seq<Block>)
    requires off + |Encode(bs)| <= |before| && ZeroFrom(before, off, off + |Encode(bs)|)
    ensures Covered(before, off, bs)
  {
    forall j: nat ensures !BitSet(0, j) { ZeroBits(j); }
  }

  /** Packs the types, given in the order of their octets; any other order is refused, and so is a buffer
      without room. The bits are or-ed into what is there, so the octets are those of the bitmap exactly when
      the bits that were there are among those of the types; in a buffer of zeros they are. */
  method PackDataNsec(bitmap: seq<uint16>, msg: array<byte>, off: nat) returns (off1: nat, err: Error)
    modifies msg
    ensures bitmap == [] ==> off1 == off && err == NoError && msg[..] == old(msg[..])
    ensures bitmap != [] ==> (err == NoError <==> Ordered(bitmap) && off + Need(bitmap) <= msg.Length)
    ensures bitmap != [] && err == NoError ==>
              off1 == off + Need(bitmap) && OrEd(msg[..], old(msg[..]), off, AddAll(bitmap))
    ensures bitmap != [] && err == NoError ==>
              (msg[off..off1] == Encode(AddAll(bitmap)) <==> Covered(old(msg[..]), off, AddAll(bitmap)))
    ensures bitmap != [] && err == NoError && ZeroFrom(old(msg[..]), off, off1) ==>
              msg[off..off1] == Encode(AddAll(bitmap))
    ensures Kept(old(msg[..]), msg[..], off)
  {
    hide *;
    if |bitmap| == 0 {
      KeptRefl(msg[..], off);
      return off, NoError;
    }
    off1 := off;
    var lastwindow: nat, lastlength: nat := 0, 0;
    ghost var before := msg[..];
    ghost var end := if Ordered(bitmap) && off + Need(bitmap) <= msg.Length then off + Need(bitmap) else 0;
    ghost var z := before;
    KeptRefl(before, off);
    PlacedNone(off);
    if end > 0 {
      z := before[..off] + Zeros(msg.Length - off);
      MixedStart(before, off);
      ZeroPart(z, off, end);
      WrittenNone(z, off, end);
      NoHeads(off);
    }
    assert bitmap[..0] == [];
    var j: nat := 0;
    while j < |bitmap|
      invariant j <= |bitmap| && off <= off1
      invariant Placed(bitmap[..j], off, off1, lastwindow, lastlength)
      invariant Ordered(bitmap[..j])
      invariant j > 0 ==> off + Need(bitmap[..j]) <= msg.Length && off1 + 2 + lastlength == off + Need(bitmap[..j])
      invariant Kept(before, msg[..], off)
      invariant end > 0 ==> Written(z, off, off1, AddAll(bitmap[..j]), end)
      invariant end > 0 ==> Mixed(msg[..], z, before, off, Heads(AddAll(bitmap[..j]), off))
    {
      var t := bitmap[j];
      var window := t / 256;
      var length := (t - window * 256) / 8 + 1;
      LengthIs(t);
      ghost var types, m0, from, window0, length0 := bitmap[..j], msg[..], off1, lastwindow, lastlength;
      assert types + [t] == bitmap[..j + 1];
      Place(types, t, off, off1, lastwindow, lastlength);
      JumpIs(t, off1, lastwindow, lastlength);
      if window > lastwindow && lastlength != 0 {
        off1 := off1 + lastlength + 2;
        lastlength := 0;
      }
      if window < lastwindow || length < lastlength {
        if Ordered(bitmap) { NeedGrows(bitmap, j + 1); }
        return msg.Length, ErrRdata;
      }
      if Ordered(bitmap) { NeedGrows(bitmap, j + 1); }
      if off1 + 2 + length > msg.Length {
        return msg.Length, ErrOverflow;
      }
      Store(msg, off1, window, length, t);
      StoredKept(before, m0, off, off1, t);
      if end > 0 {
        z := StoreBoth(m0, z, before, types, t, off, from, off1, window0, length0, end);
      }
      lastwindow, lastlength := window, length;
      j := j + 1;
    }
    assert bitmap[..|bitmap|] == bitmap;
    if end > 0 {
      LastLength(bitmap, off, off1, lastwindow, lastlength);
      WrittenAll(z, off, off1, AddAll(bitmap), end);
      NeedIs(bitmap);
      MixedEnd(msg[..], z, before, off, AddAll(bitmap));
      assert msg[..][off..end] == msg[off..end];
      if ZeroFrom(before, off, end) { ZeroCovered(before, off, AddAll(bitmap)); }
    }
    off1 := off1 + lastlength + 2;
    return off1, NoError;
  }

  lemma NeedIs(types: seq<uint16>)
    requires Ordered(types)
    ensures Need(types) == |Encode(AddAll(types))|
  {
    hide Encode, AddAll;
  }

  lemma NoHeads(off: nat)
    ensures Ordered([]) && Heads(AddAll([]), off) == {}
  {
  }

  lemma ZeroPart(z: str, off: nat, end: nat)
    requires ZeroFrom(z, off, |z|) && end <= |z|
    ensures ZeroFrom(z, off, end)
  {
  }

  /** One type more, in a buffer of zeros beside the real one. */
  lemma StoreBoth(msg: str, z: str, before: str, types: seq<uint16>, t: uint16, off: nat, from: nat, off1: nat,
                  lastwindow: nat, lastlength: nat, end: nat)
    returns (z1: str)
    requires Placed(types, off, from, lastwindow, lastlength) && off1 == Jump(t, from, lastwindow, lastlength)
    requires Ordered(types + [t]) && off <= off1 && off1 + 2 + Length(t) <= end
    requires Ordered(types) && Written(z, off, from, AddAll(types), end)
    requires Mixed(msg, z, before, off, Heads(AddAll(types), off))
    ensures off1 + 2 + Length(t) <= |msg|
    ensures Written(z1, off, off1, AddAll(types + [t]), end)
    ensures Mixed(Stored(msg, off1, t), z1, before, off, Heads(AddAll(types + [t]), off))
  {
    hide *;
    var all := types + [t];
    var bs := AddAll(types);
    AddAllStep(all);
    assert all[..|types|] == types;
    JumpBlock(types, t, off, from, lastwindow, lastlength);
    WriteStep(z, off, from, bs, t, end);
    WrittenEnd(z, off, from, bs, end);
    MixedLen(msg, z, before, off, Heads(bs, off));
    z1 := Stored(z, off1, t);
    HeadsStep(bs, t, off);
    PlacedAt(types, t, off, from, off1, lastwindow, lastlength);
    MixedStep(msg, z, before, off, Heads(bs, off), off1, t);
  }

  lemma MixedLen(msg: str, z: str, before: str, off: nat, heads: set<nat>)
    requires Mixed(msg, z, before, off, heads)
    ensures |msg| == |z|
  {
  }

  lemma PlacedAt(types: seq<uint16>, t: uint16, off0: nat, off: nat, off1: nat, lastwindow: nat, lastlength: nat)
    requires Placed(types, off0, off, lastwindow, lastlength) && off1 == Jump(t, off, lastwindow, lastlength)
    requires Ordered(types + [t])
    ensures var bs := AddAll(types + [t]); bs != [] && off1 == off0 + |Encode(bs[..|bs| - 1])|
  {
    hide Length, AddType, Encode, AddAll, Jump;
    Place(types, t, off0, off, lastwindow, lastlength);
  }
}
