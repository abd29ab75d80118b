/** What a type bitmap means, and that packing and unpacking undo each other. */
module NsecRoundTrip {
  import opened Bytes
  import opened Nsec

  // ---------- Reading what was written ----------

  lemma {:induction false} EncodePrefix(bs: seq<Block>, k: nat)
    requires k <= |bs|
    ensures |Encode(bs[..k])| <= |Encode(bs)| && Encode(bs)[..|Encode(bs[..k])|] == Encode(bs[..k])
    decreases |bs|
  {
    hide EncodeBlock;
    if k == |bs| {
      assert bs[..k] == bs;
    } else {
      var init := bs[..|bs| - 1];
      assert init[..k] == bs[..k];
      EncodePrefix(init, k);
    }
  }

  lemma EncodedAt(bs: seq<Block>, k: nat)
    requires k < |bs|
    ensures var at, next := |Encode(bs[..k])|, |Encode(bs[..k + 1])|;
            next == at + 2 + |bs[k].octets| <= |Encode(bs)| && Encode(bs)[at..next] == EncodeBlock(bs[k])
  {
    hide Encode, EncodeBlock;
    EncodePrefix(bs, k + 1);
    assert bs[..k + 1][..k] == bs[..k];
    EncodeLast(bs[..k + 1]);
    var at, next := |Encode(bs[..k])|, |Encode(bs[..k + 1])|;
    assert Encode(bs)[at..next] == Encode(bs)[..next][at..];
  }

  /** The reader finds exactly the blocks that were written. */
  lemma {:induction false} ReadEncoded(head: str, bs: seq<Block>, k: nat)
    requires Valid(bs) && k <= |bs|
    ensures Valid(bs[..k])
    ensures var msg := head + Encode(bs);
            ReadBlocks(msg, |head| + |Encode(bs[..k])|, bs[..k]) == BlocksRead(bs, |msg|, NoError)
    decreases |bs| - k
  {
    hide Encode, EncodeBlock;
    var msg := head + Encode(bs);
    if k == |bs| {
      assert bs[..k] == bs;
    } else {
      EncodedAt(bs, k);
      BlockAt(msg, head, bs, k);
      ReadEncoded(head, bs, k + 1);
      assert bs[..k] + [bs[k]] == bs[..k + 1];
    }
  }

  lemma Shift(head: str, s: str, i: nat, j: nat)
    requires i <= j <= |s|
    ensures (head + s)[|head| + i..|head| + j] == s[i..j]
  {
  }

  lemma BlockAt(msg: str, head: str, bs: seq<Block>, k: nat)
    requires k < |bs| && msg == head + Encode(bs)
    requires var at := |Encode(bs[..k])|;
             at + 2 + |bs[k].octets| <= |Encode(bs)| && Encode(bs)[at..at + 2 + |bs[k].octets|] == EncodeBlock(bs[k])
    ensures var off, b := |head| + |Encode(bs[..k])|, bs[k];
            && off + 2 + |b.octets| <= |msg| && msg[off] == b.window && msg[off + 1] as int == |b.octets|
            && msg[off + 2..off + 2 + |b.octets|] == b.octets
  {
    hide Encode;
    var at, b := |Encode(bs[..k])|, bs[k];
    var off := |head| + at;
    var n := 2 + |b.octets|;
    Shift(head, Encode(bs), at, at + n);
    assert msg[off] == msg[off..off + n][0] && msg[off + 1] == msg[off..off + n][1];
    assert msg[off + 2..off + n] == msg[off..off + n][2..];
  }

  lemma EncodeMore(msg: str, off0: nat, off: nat, done: seq<Block>, b: Block)
    requires off0 <= off && off + 2 + |b.octets| <= |msg| && msg[off0..off] == Encode(done)
    requires msg[off] == b.window && msg[off + 1] as int == |b.octets| && msg[off + 2..off + 2 + |b.octets|] == b.octets
    ensures msg[off0..off + 2 + |b.octets|] == Encode(done + [b])
  {
    hide Encode;
    var n := |b.octets|;
    assert (done + [b])[..|done|] == done;
    EncodeLast(done + [b]);
    assert msg[off..off + 2 + n] == [msg[off], msg[off + 1]] + msg[off + 2..off + 2 + n];
    assert msg[off0..off + 2 + n] == msg[off0..off] + msg[off..off + 2 + n];
  }

  /** Whatever is read without error is the encoding of the blocks read. */
  lemma {:induction false} ReadSound(msg: str, off0: nat, off: nat, done: seq<Block>)
    requires off0 <= off <= |msg| && Valid(done) && msg[off0..off] == Encode(done)
    ensures var r := ReadBlocks(msg, off, done);
            r.err == NoError ==> msg[off0..] == Encode(r.blocks)
    decreases |msg| - off
  {
    hide Encode, Valid;
    if off == |msg| {
      assert msg[off0..] == msg[off0..|msg|];
    } else if ReadBlocks(msg, off, done).err == NoError {
      hide ReadBlocks;
      ReadCases(msg, off, done);
      var n := msg[off + 1];
      var b: Block := Block(msg[off], msg[off + 2..off + 2 + n]);
      EncodeMore(msg, off0, off, done, b);
      ReadSound(msg, off0, off + 2 + n, done + [b]);
    }
  }

  // ---------- The types a bitmap marks ----------

  predicate Increasing(ts: seq<uint16>) {
    forall j, k | 0 <= j < k < |ts| :: ts[j] < ts[k]
  }

  /** t lies in octet j of the window, at or behind bit i, and is marked in b. */
  predicate OctetHas(window: byte, j: nat, b: byte, i: nat, t: uint16) {
    t / 8 == window as int * 32 + j && t % 8 >= i && HasType(b, t % 8)
  }

  lemma OctetHasStep(window: byte, j: nat, b: byte, i: nat, t: uint16)
    requires j < 32 && i < 8
    ensures var here := window as int * 256 + j * 8 + i;
            && (OctetHas(window, j, b, i, t) <==> OctetHas(window, j, b, i + 1, t) || (t == here && HasType(b, i)))
            && (OctetHas(window, j, b, i + 1, t) ==> here < t)
  {
    hide HasType;
    assert t == t / 8 * 8 + t % 8;
  }

  lemma {:induction false} OctetTypesAre(window: byte, j: nat, b: byte, i: nat)
    requires j < 32 && i <= 8
    ensures var ts := OctetTypes(window, j, b, i);
            Increasing(ts) && forall t: uint16 :: t in ts <==> OctetHas(window, j, b, i, t)
    decreases 8 - i
  {
    hide HasType, OctetHas;
    if i == 8 {
      NoOctetHas(window, j, b);
    } else {
      OctetTypesAre(window, j, b, i + 1);
      var rest := OctetTypes(window, j, b, i + 1);
      var here: uint16 := window * 256 + j * 8 + i;
      var first := if HasType(b, i) then [here] else [];
      forall t: uint16
        ensures t in first + rest <==> OctetHas(window, j, b, i, t)
        ensures t in rest ==> here < t
      {
        OctetHasStep(window, j, b, i, t);
      }
      AppendIncreasing(first, rest);
    }
  }

  lemma NoOctetHas(window: byte, j: nat, b: byte)
    ensures forall t: uint16 :: !OctetHas(window, j, b, 8, t)
  {
  }

  lemma Octave(t: uint16)
    ensures t / 8 == t / 256 * 32 + t % 256 / 8 && t % 256 / 8 < 32
  {
  }

  lemma AppendIncreasing(a: seq<uint16>, b: seq<uint16>)
    requires Increasing(a) && Increasing(b) && forall x, y | x in a && y in b :: x < y
    ensures Increasing(a + b)
  {
    var ab := a + b;
    forall j, k | 0 <= j < k < |ab|
      ensures ab[j] < ab[k]
    {
      if j < |a| <= k {
        assert a[j] in a && b[k - |a|] in b;
      }
    }
  }

  lemma MarkedStep(window: byte, octets: seq<byte>, t: uint16)
    requires 1 <= |octets| <= 32
    ensures var n := |octets| - 1;
            MarkedIn(window, octets, t) <==> MarkedIn(window, octets[..n], t) || OctetHas(window, n, octets[n], 0, t)
  {
    hide HasType;
    Octave(t);
  }

  lemma BelowOctet(window: byte, octets: seq<byte>, x: uint16, y: uint16)
    requires 1 <= |octets| <= 32
    requires MarkedIn(window, octets[..|octets| - 1], x) && OctetHas(window, |octets| - 1, octets[|octets| - 1], 0, y)
    ensures x < y
  {
    hide HasType;
    Octave(x);
    assert x / 8 < y / 8;
  }

  lemma {:induction false} BlockTypesAre(window: byte, octets: seq<byte>)
    requires |octets| <= 32
    ensures var ts := BlockTypes(window, octets);
            Increasing(ts) && forall t: uint16 :: t in ts <==> MarkedIn(window, octets, t)
    decreases |octets|
  {
    hide OctetTypes, HasType, OctetHas;
    if octets != [] {
      var n := |octets| - 1;
      BlockTypesAre(window, octets[..n]);
      OctetTypesAre(window, n, octets[n], 0);
      var a, b := BlockTypes(window, octets[..n]), OctetTypes(window, n, octets[n], 0);
      forall t: uint16
        ensures t in a + b <==> MarkedIn(window, octets, t)
      {
        MarkedStep(window, octets, t);
      }
      forall x, y | x in a && y in b
        ensures x < y
      {
        BelowOctet(window, octets, x, y);
      }
      AppendIncreasing(a, b);
    }
  }

  lemma ValidInit(bs: seq<Block>)
    requires Valid(bs) && bs != []
    ensures Valid(bs[..|bs| - 1])
    ensures forall k | 0 <= k < |bs| - 1 :: bs[k].window < bs[|bs| - 1].window
  {
  }

  lemma MarkedLast(bs: seq<Block>, t: uint16)
    requires bs != []
    ensures Marked(bs, t) <==> Marked(bs[..|bs| - 1], t) || InBlock(bs[|bs| - 1], t)
  {
    hide InBlock;
    var init := bs[..|bs| - 1];
    assert forall k | 0 <= k < |init| :: init[k] == bs[k];
  }

  /** The list of types is strictly increasing and holds exactly the marked ones. */
  lemma {:induction false} TypesAre(bs: seq<Block>)
    requires Valid(bs)
    ensures Increasing(TypesOf(bs)) && forall t: uint16 :: t in TypesOf(bs) <==> Marked(bs, t)
    decreases |bs|
  {
    hide BlockTypes, HasType, Marked;
    if bs == [] {
      NoneMarked();
    } else {
      var init, last := bs[..|bs| - 1], bs[|bs| - 1];
      ValidInit(bs);
      TypesAre(init);
      BlockTypesAre(last.window, last.octets);
      var a, b := TypesOf(init), BlockTypes(last.window, last.octets);
      forall t: uint16
        ensures t in a + b <==> Marked(bs, t)
      {
        MarkedLast(bs, t);
      }
      forall x, y | x in a && y in b
        ensures x < y
      {
        MarkedWindow(init, x);
      }
      AppendIncreasing(a, b);
    }
  }

  lemma NoneMarked()
    ensures forall t: uint16 :: !Marked([], t)
  {
  }

  lemma MarkedWindow(bs: seq<Block>, t: uint16)
    requires Marked(bs, t)
    ensures exists k | 0 <= k < |bs| :: bs[k].window == t / 256
  {
    hide HasType;
    var k :| 0 <= k < |bs| && InBlock(bs[k], t);
    assert bs[k].window == t / 256;
  }

  // ---------- Packing marks exactly the types packed ----------

  lemma MarkIs(octets: seq<byte>, t: uint16, u: uint16)
    requires |octets| <= Length(t) && u / 256 == t / 256
    ensures MarkedIn(t / 256, Mark(octets, t), u) <==> MarkedIn(t / 256, octets, u) || u == t
  {
    hide BitSet, OrBit;
    Octave(t);
    Octave(u);
    var m := Mark(octets, t);
    var i, n := u % 256 / 8, Length(t);
    var o := octets + Zeros(n - |octets|);
    ZeroBits(7 - u % 8);
    if i == n - 1 {
      OrBitSets(o[n - 1], 7 - t % 8, 7 - u % 8);
      assert u == t <==> u % 8 == t % 8;
    } else if i < n {
      assert m[i] == o[i];
    }
  }

  lemma MarkCanonical(octets: seq<byte>, t: uint16)
    requires |octets| <= Length(t)
    ensures var m := Mark(octets, t); m[|m| - 1] != 0
  {
    hide BitSet, OrBit;
    var o := octets + Zeros(Length(t) - |octets|);
    OrBitSets(o[|o| - 1], 7 - t % 8, 7 - t % 8);
    ZeroBits(7 - t % 8);
  }

  lemma AddTypeMarks(bs: seq<Block>, t: uint16, u: uint16)
    requires Valid(bs) && Follows(bs, t)
    ensures Marked(AddType(bs, t), u) <==> Marked(bs, u) || u == t
  {
    hide Mark, HasType, Length, Marked;
    var r := AddType(bs, t);
    AddTypeInit(bs, t);
    MarkedLast(r, u);
    var octets := if bs == [] || bs[|bs| - 1].window < t / 256 then [] else bs[|bs| - 1].octets;
    if u / 256 == t / 256 {
      MarkIs(octets, t, u);
    }
    if bs != [] {
      MarkedLast(bs, u);
    }
  }

  lemma AddTypeCanonical(bs: seq<Block>, t: uint16)
    requires Canonical(bs) && Follows(bs, t)
    ensures Canonical(AddType(bs, t))
  {
    hide Mark, Length, Valid, EndsNonzero;
    AddTypeInit(bs, t);
    var r := AddType(bs, t);
    assert EndsNonzero(r[|r| - 1]) by {
      LastMarked(bs, t);
    }
  }

  lemma LastMarked(bs: seq<Block>, t: uint16)
    requires Valid(bs) && Follows(bs, t)
    ensures var r := AddType(bs, t); EndsNonzero(r[|r| - 1])
  {
    hide Mark, Length, Valid;
    MarkCanonical(if bs == [] || bs[|bs| - 1].window < t / 256 then [] else bs[|bs| - 1].octets, t);
  }

  lemma {:induction false} AddAllMarks(types: seq<uint16>)
    requires Ordered(types)
    ensures Canonical(AddAll(types)) && forall u: uint16 :: Marked(AddAll(types), u) <==> u in types
    decreases |types|
  {
    hide AddType, Marked, Canonical;
    if types == [] {
      NoneMarked();
      NoBlocks();
    } else {
      var n := |types| - 1;
      AddAllStep(types);
      AddAllMarks(types[..n]);
      AddTypeCanonical(AddAll(types[..n]), types[n]);
      forall u: uint16
        ensures Marked(AddAll(types), u) <==> u in types
      {
        AddTypeMarks(AddAll(types[..n]), types[n], u);
        assert types == types[..n] + [types[n]];
      }
    }
  }

  lemma NoBlocks()
    ensures Canonical([])
  {
  }

  // ---------- The round trips ----------

  /** Two strictly increasing lists with the same elements are the same. */
  lemma {:induction false} IncreasingUnique(a: seq<uint16>, b: seq<uint16>)
    requires Increasing(a) && Increasing(b) && forall t: uint16 :: t in a <==> t in b
    ensures a == b
    decreases |a|
  {
    if a == [] {
      HasHead(b);
    } else {
      assert a[|a| - 1] in b;
      assert b != [];
      var m, n := |a| - 1, |b| - 1;
      assert b[n] in a;
      var j :| 0 <= j < |a| && a[j] == b[n];
      var k :| 0 <= k < |b| && b[k] == a[m];
      assert a[m] == b[n];
      forall t: uint16
        ensures t in a[..m] <==> t in b[..n]
      {
        InitHas(a, t);
        InitHas(b, t);
      }
      IncreasingUnique(a[..m], b[..n]);
      assert a == a[..m] + [a[m]] && b == b[..n] + [b[n]];
    }
  }

  lemma HasHead(b: seq<uint16>)
    ensures b != [] ==> exists t: uint16 :: t in b
  {
    if b != [] {
      assert b[0] in b;
    }
  }

  lemma InitHas(a: seq<uint16>, t: uint16)
    requires Increasing(a) && a != []
    ensures t in a[..|a| - 1] <==> t in a && t != a[|a| - 1]
  {
    assert a == a[..|a| - 1] + [a[|a| - 1]];
  }

  lemma OrderedIncreasing(ts: seq<uint16>)
    requires Increasing(ts)
    ensures Ordered(ts)
  {
  }

  /** Unpacking what packDataNsec wrote gives the strictly increasing list of the same types, which is
      the very list packed when that was strictly increasing. */
  lemma PackedReads(head: str, types: seq<uint16>)
    requires Ordered(types)
    ensures var msg := head + Encode(AddAll(types));
            var r := ReadBlocks(msg, |head|, []);
            && r.err == NoError && r.off1 == |msg|
            && Increasing(TypesOf(r.blocks)) && (forall t: uint16 :: t in TypesOf(r.blocks) <==> t in types)
            && (Increasing(types) ==> TypesOf(r.blocks) == types)
  {
    hide Encode, AddAll, TypesOf, ReadBlocks, Marked, Canonical;
    var bs := AddAll(types);
    EncodeNone();
    assert bs[..0] == [];
    ReadEncoded(head, bs, 0);
    TypesAre(bs);
    AddAllMarks(types);
    if Increasing(types) {
      IncreasingUnique(TypesOf(bs), types);
    }
  }

  // Blocks without trailing zeros are determined by their types.

  lemma {:induction false} SameOctets(window: byte, a: seq<byte>, b: seq<byte>)
    requires |a| == |b| <= 32
    requires forall t: uint16 :: MarkedIn(window, a, t) <==> MarkedIn(window, b, t)
    ensures a == b
  {
    forall j | 0 <= j < |a|
      ensures a[j] == b[j]
    {
      forall i | 0 <= i < 8
        ensures BitSet(a[j], i) <==> BitSet(b[j], i)
      {
        var t: uint16 := window * 256 + j * 8 + (7 - i);
        TypeAt(window, j, 7 - i);
        assert MarkedIn(window, a, t) <==> MarkedIn(window, b, t);
      }
      ByteRange(a[j]);
      SameBits(a[j], b[j], 8);
    }
  }

  lemma TypeAt(window: byte, j: nat, i: nat)
    requires j < 32 && i < 8
    ensures var t := window as int * 256 + j * 8 + i;
            t < 0x1_0000 && t / 256 == window && t % 256 / 8 == j && t % 8 == i
  {
  }

  /** The last octet of a canonical block marks a type. */
  lemma LastMarks(window: byte, a: seq<byte>)
    requires 1 <= |a| <= 32 && a[|a| - 1] != 0
    ensures exists t: uint16 :: MarkedIn(window, a, t) && t % 256 / 8 == |a| - 1
  {
    ByteRange(a[|a| - 1]);
    SomeBit(a[|a| - 1], 8);
    var k :| 0 <= k < 8 && BitSet(a[|a| - 1], k);
    TypeAt(window, |a| - 1, 7 - k);
    var t: uint16 := window * 256 + (|a| - 1) * 8 + (7 - k);
    assert MarkedIn(window, a, t);
  }

  /** The windows of all blocks are at most that of the last. */
  lemma MarkedBelow(bs: seq<Block>, t: uint16)
    requires Valid(bs) && Marked(bs, t)
    ensures bs != [] && t / 256 <= bs[|bs| - 1].window
    ensures t / 256 == bs[|bs| - 1].window <==> InBlock(bs[|bs| - 1], t)
  {
    hide HasType;
    var k :| 0 <= k < |bs| && InBlock(bs[k], t);
    assert bs[k].window == t / 256;
  }

  lemma MarkedHere(bs: seq<Block>, t: uint16)
    requires bs != [] && InBlock(bs[|bs| - 1], t)
    ensures Marked(bs, t)
  {
    hide InBlock;
  }

  /** The last block of one list marks no type beyond the last block of the other. */
  lemma LastWithin(a: seq<Block>, b: seq<Block>)
    requires Canonical(a) && Canonical(b) && a != []
    requires forall t: uint16 :: Marked(a, t) ==> Marked(b, t)
    ensures b != []
    ensures var x, y := a[|a| - 1], b[|b| - 1];
            x.window <= y.window && (x.window == y.window ==> |x.octets| <= |y.octets|)
  {
    hide HasType, Marked;
    var x := a[|a| - 1];
    LastMarks(x.window, x.octets);
    var t: uint16 :| MarkedIn(x.window, x.octets, t) && t % 256 / 8 == |x.octets| - 1;
    MarkedHere(a, t);
    MarkedBelow(b, t);
  }

  lemma CanonicalInit(bs: seq<Block>)
    requires Canonical(bs) && bs != []
    ensures Canonical(bs[..|bs| - 1])
  {
  }

  /** All types but those of the last window. */
  lemma MarkedInit(bs: seq<Block>, t: uint16)
    requires Valid(bs) && bs != []
    ensures Marked(bs[..|bs| - 1], t) <==> Marked(bs, t) && t / 256 != bs[|bs| - 1].window
    ensures t / 256 == bs[|bs| - 1].window ==> (InBlock(bs[|bs| - 1], t) <==> Marked(bs, t))
  {
    hide HasType;
    MarkedLast(bs, t);
    var init := bs[..|bs| - 1];
    if Marked(init, t) {
      var k :| 0 <= k < |init| && InBlock(init[k], t);
      assert init[k] == bs[k] && bs[k].window < bs[|bs| - 1].window;
    }
  }

  lemma {:induction false} CanonicalUnique(a: seq<Block>, b: seq<Block>)
    requires Canonical(a) && Canonical(b)
    requires forall t: uint16 :: Marked(a, t) <==> Marked(b, t)
    ensures a == b
    decreases |a|
  {
    hide Marked, HasType;
    if b != [] { LastWithin(b, a); }
    if a != [] {
      LastWithin(a, b);
      var x, y := a[|a| - 1], b[|b| - 1];
      forall t: uint16
        ensures MarkedIn(x.window, x.octets, t) <==> MarkedIn(x.window, y.octets, t)
      {
        MarkedInit(a, t);
        MarkedInit(b, t);
      }
      var a1, b1 := a[..|a| - 1], b[..|b| - 1];
      forall t: uint16
        ensures Marked(a1, t) <==> Marked(b1, t)
      {
        MarkedInit(a, t);
        MarkedInit(b, t);
      }
      SameOctets(x.window, x.octets, y.octets);
      CanonicalInit(a);
      CanonicalInit(b);
      CanonicalUnique(a1, b1);
      assert a == a1 + [x] && b == b1 + [y];
    }
  }

  /** Packing the types that were read gives back the very octets read, if and only if no block ends in
      a zero octet. */
  lemma RepackReproduces(msg: str, off: nat)
    requires off <= |msg| && ReadBlocks(msg, off, []).err == NoError
    ensures var bs := ReadBlocks(msg, off, []).blocks;
            && Ordered(TypesOf(bs))
            && (Encode(AddAll(TypesOf(bs))) == msg[off..] <==> Canonical(bs))
  {
    hide Encode, AddAll, TypesOf, ReadBlocks, Marked, Canonical;
    EncodeNone();
    assert msg[off..off] == [];
    ReadSound(msg, off, off, []);
    var bs := ReadBlocks(msg, off, []).blocks;
    TypesAre(bs);
    OrderedIncreasing(TypesOf(bs));
    var again := AddAll(TypesOf(bs));
    AddAllMarks(TypesOf(bs));
    if Canonical(bs) {
      CanonicalUnique(again, bs);
    } else {
      EncodeInjective(again, bs);
    }
  }

  lemma EncodeInjective(a: seq<Block>, b: seq<Block>)
    requires Valid(a) && Valid(b)
    ensures Encode(a) == Encode(b) ==> a == b
  {
    hide Encode, ReadBlocks;
    EncodeNone();
    assert a[..0] == [] && b[..0] == [];
    ReadEncoded([], a, 0);
    ReadEncoded([], b, 0);
  }
}
