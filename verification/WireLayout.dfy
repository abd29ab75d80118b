/** Where everything stands on the wire, octet by octet: the header, question and record formats of sections
    4.1.1 to 4.1.4 of RFC 1035, rdata, and what any octets are read as. */
module WireLayout {
  import opened Bytes
  import opened Hex
  import opened Names
  import opened PackNames
  import opened UnpackNames
  import opened Records
  import opened UnpackRecords
  import opened LabelOps
  import opened AddressText
  import opened MessageTypes
  import opened Messages
  import opened UnpackMessages
  import opened Nsec
  import opened Tsig

  // ---------- The header ----------

  /** The bits of the flag word, from the leftmost: QR, four for the opcode, AA, TC, RD, RA, Z, AD, CD, and
      four for the rcode. */
  lemma FlagBits(h: MsgHdr)
    requires 0 <= h.rcode <= 15 && 0 <= h.opcode <= 15
    ensures var b := Bits(h);
            && (b / 0x8000 == 1 <==> h.response) && b / 0x800 % 16 == h.opcode
            && (b / 0x400 % 2 == 1 <==> h.authoritative) && (b / 0x200 % 2 == 1 <==> h.truncated)
            && (b / 0x100 % 2 == 1 <==> h.recursionDesired) && (b / 0x80 % 2 == 1 <==> h.recursionAvailable)
            && (b / 0x40 % 2 == 1 <==> h.zero) && (b / 0x20 % 2 == 1 <==> h.authenticatedData)
            && (b / 0x10 % 2 == 1 <==> h.checkingDisabled) && b % 16 == h.rcode
  {
    hide Bits;
    var w := WireHeader(h.id, Bits(h), 0, 0, 0, 0);
    BitsBack(h, w);
    FlagsRead(w);
  }

  /** The header fields that any twelve octets are read as. */
  lemma FlagsRead(w: WireHeader)
    ensures var h, b := HdrOf(w), w.bits;
            && h.id == w.id
            && (h.response <==> b / 0x8000 == 1) && h.opcode == b / 0x800 % 16
            && (h.authoritative <==> b / 0x400 % 2 == 1) && (h.truncated <==> b / 0x200 % 2 == 1)
            && (h.recursionDesired <==> b / 0x100 % 2 == 1) && (h.recursionAvailable <==> b / 0x80 % 2 == 1)
            && (h.zero <==> b / 0x40 % 2 == 1) && (h.authenticatedData <==> b / 0x20 % 2 == 1)
            && (h.checkingDisabled <==> b / 0x10 % 2 == 1) && h.rcode == b % 16
  {
    assert w.bits / 0x8000 % 2 == w.bits / 0x8000;
  }

  /** Six numbers of 16 bits: id, flags, and the counts of questions, answers, authorities and additionals. */
  lemma HeaderFields(h: WireHeader)
    ensures var b := HeaderBytes(h);
            && |b| == 12
            && GetU16(b, 0) == h.id && GetU16(b, 2) == h.bits && GetU16(b, 4) == h.qd && GetU16(b, 6) == h.an
            && GetU16(b, 8) == h.ns && GetU16(b, 10) == h.ar
  {
    hide U16, GetU16;
    var b := HeaderBytes(h);
    assert b[0..2] == U16(h.id) && b[2..4] == U16(h.bits) && b[4..6] == U16(h.qd);
    assert b[6..8] == U16(h.an) && b[8..10] == U16(h.ns) && b[10..12] == U16(h.ar);
    GetU16Put(b, 0, h.id);
    GetU16Put(b, 2, h.bits);
    GetU16Put(b, 4, h.qd);
    GetU16Put(b, 6, h.an);
    GetU16Put(b, 8, h.ns);
    GetU16Put(b, 10, h.ar);
  }

  /** What PackBuffer counts. */
  lemma HeaderCounts(dns: Msg)
    requires 0 <= dns.hdr.rcode <= 15
    ensures var h := HeaderOf(dns);
            && h.id == dns.hdr.id && h.bits == Bits(dns.hdr)
            && h.qd == |dns.question| % 0x1_0000 && h.an == |dns.answer| % 0x1_0000 && h.ns == |dns.ns| % 0x1_0000
            && h.ar == |dns.extra| % 0x1_0000
  {
  }

  // ---------- Questions and records ----------

  lemma TypeNumbers(ip: str, n: str, a: uint16, b: uint16, c: uint16)
    ensures TypeOf(A(ip)) == 1 && TypeOf(NS(n)) == 2 && TypeOf(CNAME(n)) == 5 && TypeOf(PTR(n)) == 12
    ensures TypeOf(MX(a, n)) == 15 && TypeOf(AAAA(ip)) == 28 && TypeOf(SRV(a, b, c, n)) == 33
  {
  }

  /** A compression pointer has its two high bits set, and its offset needs no more than 14 bits. */
  lemma PointerOctets(p: nat)
    requires p < 0x4000
    ensures p < MAX_OFFSET && Pointer(p) == [192 + p / 256, p % 256]
  {
  }

  /** A suffix is recorded if it is new and its offset fits a pointer. */
  lemma RecordedWhen(mp: Offsets, key: str, off: nat)
    ensures var r := Record(Some(mp), key, off);
            && r.Some?
            && (key in mp || off >= 0x4000 ==> r.value == mp)
            && (key !in mp && off < 0x4000 ==>
                  r.value.Keys == mp.Keys + {key} && r.value[key] == off && forall k | k in mp :: r.value[k] == mp[k])
  {
  }

  /** The name, then type and class. */
  lemma QuestionFields(q: Question, off: nat, mp: Option<Offsets>, compress: bool)
    requires FitName(q.name)
    ensures var (b, name) := (PackQuestion(q, off, mp, compress).bytes, PackNamed(q.name, off, mp, compress).bytes);
            && |b| == |name| + 4 && b[..|name|] == name
            && GetU16(b, |name|) == q.qtype && GetU16(b, |name| + 2) == q.qclass
  {
    hide U16, GetU16, PackNamed;
    var (b, name) := (PackQuestion(q, off, mp, compress).bytes, PackNamed(q.name, off, mp, compress).bytes);
    assert b[|name|..|name| + 2] == U16(q.qtype) && b[|name| + 2..|name| + 4] == U16(q.qclass);
    GetU16Put(b, |name|, q.qtype);
    GetU16Put(b, |name| + 2, q.qclass);
  }

  /** The name, then type, class, TTL and the length of the rdata that ends the record. */
  lemma RecordFields(r: Rec, off: nat, mp: Option<Offsets>, compress: bool)
    requires FitRec(r)
    ensures var (b, name) := (PackRec(r, off, mp, compress).bytes, PackNamed(r.name, off, mp, compress));
            var n := |name.bytes|;
            && n + 10 <= |b| && b[..n] == name.bytes
            && GetU16(b, n) == r.rrtype && GetU16(b, n + 2) == r.cls && GetU32(b, n + 4) == r.ttl
            && GetU16(b, n + 8) as int == |b| - n - 10
            && b[n + 10..] == PackData(r.data, off + n + 10, name.mp, compress).bytes
  {
    hide *;
    GoodParts(r, off, mp, compress);
    var l := RdataLen(r, off, mp, compress);
    RecUnfolds(r, l, off, mp, compress);
    var name := PackNamed(r.name, off, mp, compress);
    var rd := PackData(r.data, off + |name.bytes| + 10, name.mp, compress);
    Records.MiddleIs(r);
    TenFields(PackRec(r, off, mp, compress).bytes, name.bytes, r.rrtype, r.cls, r.ttl, l, rd.bytes);
  }

  lemma TenFields(b: str, name: str, t: uint16, c: uint16, ttl: uint32, l: uint16, rd: str)
    requires b == name + (U16(t) + U16(c) + U32(ttl)) + U16(l) + rd
    ensures var n := |name|;
            && |b| == n + 10 + |rd| && b[..n] == name && b[n + 10..] == rd
            && GetU16(b, n) == t && GetU16(b, n + 2) == c && GetU32(b, n + 4) == ttl && GetU16(b, n + 8) == l
  {
    hide U16, U32, GetU16, GetU32;
    var n := |name|;
    assert b[n..n + 2] == U16(t) && b[n + 2..n + 4] == U16(c);
    assert b[n + 4..n + 8] == U32(ttl) && b[n + 8..n + 10] == U16(l);
    GetU16Put(b, n, t);
    GetU16Put(b, n + 2, c);
    GetU32Put(b, n + 4, ttl);
    GetU16Put(b, n + 8, l);
  }

  /** The rdata of each type: addresses, names, and the numbers in front of the names of MX and SRV records. Only
      an SRV target is never compressed. */
  lemma RdataFields(d: RData, off: nat, mp: Option<Offsets>, compress: bool)
    requires FitData(d)
    ensures var b := PackData(d, off, mp, compress).bytes;
            match d
            case A(ip) => (|ip| == 4 ==> b == ip) && (|ip| == 16 ==> b == ip[12..])
            case AAAA(ip) => b == ip
            case NS(n) => b == PackNamed(n, off, mp, compress).bytes
            case CNAME(n) => b == PackNamed(n, off, mp, compress).bytes
            case PTR(n) => b == PackNamed(n, off, mp, compress).bytes
            case MX(p, n) => |b| > 2 && GetU16(b, 0) == p && b[2..] == PackNamed(n, off + 2, mp, compress).bytes
            case SRV(p, w, o, n) =>
              && |b| > 6 && GetU16(b, 0) == p && GetU16(b, 2) == w && GetU16(b, 4) == o
              && b[6..] == PackNamed(n, off + 6, mp, false).bytes
  {
    hide U16, GetU16, PackNamed, FitName;
    var b := PackData(d, off, mp, compress).bytes;
    match d
    case MX(p, n) =>
      SomeOctets(n, off + 2, mp, compress);
      assert b[0..2] == U16(p);
      GetU16Put(b, 0, p);
    case SRV(p, w, o, n) =>
      SomeOctets(n, off + 6, mp, false);
      assert b[0..2] == U16(p) && b[2..4] == U16(w) && b[4..6] == U16(o);
      GetU16Put(b, 0, p);
      GetU16Put(b, 2, w);
      GetU16Put(b, 4, o);
    case _ =>
  }

  lemma SomeOctets(n: str, off: nat, mp: Option<Offsets>, compress: bool)
    ensures |PackNamed(n, off, mp, compress).bytes| > 0
  {
    hide Parse, NameKeys, UsedKeys, PackKeyed;
    if n == ROOT {
      RootOctet(off, mp, compress);
    } else {
      PackNamedIs(n, off, mp, compress);
      KeyedOctets(Parse(n).labels, UsedKeys(n, compress), off, mp, compress);
    }
  }

  lemma KeyedOctets(ls: seq<Label>, keys: seq<str>, off: nat, mp: Option<Offsets>, compress: bool)
    requires ShortLabels(ls) && |keys| == |ls|
    ensures |PackKeyed(ls, keys, off, mp, compress).bytes| > 0
  {
  }

  // ---------- What any octets are read as ----------

  /** A record that is read without error is made of the name and the fields behind it, and its rdata ends
      exactly where its length says. */
  lemma RecordRead(msg: str, off: nat)
    requires off < |msg| && UnpackRR(msg, off).err == NoError
    ensures var r, n := UnpackRR(msg, off), UnpackName(msg, off);
            && n.err == NoError && n.off1 + 10 <= |msg| && r.rr.Some?
            && var d := r.rr.value;
               && d.rec.name == n.name && d.rec.rrtype == GetU16(msg, n.off1) && d.rec.cls == GetU16(msg, n.off1 + 2)
               && d.rec.ttl == GetU32(msg, n.off1 + 4) && d.rdlength == GetU16(msg, n.off1 + 8)
               && d.rec.rrtype in {1, 2, 5, 12, 15, 28, 33} && TypeOf(d.rec.data) == d.rec.rrtype
               && r.off1 == n.off1 + 10 + d.rdlength
               && (d.rdlength > 0 ==> r.off1 <= |msg|)
  {
    hide UnpackName, GetU16, GetU32, UnpackData;
    var h := UnpackHeader(msg, off);
    assert h.err == NoError;
    RdataInside(h, h.msg, h.off1);
  }

  /** rdata that is read keeps the type it was read for, and ends within the message. */
  lemma RdataInside(h: HeaderResult, msg: str, off: nat)
    ensures forall empty | Empty(h.h.rrtype) == Some(empty) ::
              var d := UnpackData(h.h, msg, off, empty);
              && TypeOf(d.data) == h.h.rrtype && h.h.rrtype in {1, 2, 5, 12, 15, 28, 33}
              && (h.h.rdlength > 0 && d.err == NoError ==> d.off1 <= |msg|)
  {
    hide GetU16;
    NamesInside(msg);
    hide UnpackName;
  }

  lemma NamesInside(msg: str)
    ensures forall off: nat :: UnpackName(msg, off).off1 <= |msg|
  {
    hide Walk, LabelsLen, NameString;
    forall off: nat
      ensures UnpackName(msg, off).off1 <= |msg|
    {
      WalkInBounds(msg, off, MAX_POINTERS);
    }
  }

  /** rdata of no octets leaves the record empty, and MX and SRV rdata may end behind any of its numbers. */
  lemma ShortRdata(h: Header, msg: str, off: nat, d: RData)
    ensures h.rdlength == 0 ==> UnpackData(h, msg, off, d) == DataResult(d, off, NoError)
    ensures h.rdlength > 0 && d.MX? && off + 2 == |msg| ==>
              UnpackData(h, msg, off, d) == DataResult(MX(GetU16(msg, off), []), off + 2, NoError)
    ensures h.rdlength > 0 && d.SRV? && off + 2 == |msg| ==>
              UnpackData(h, msg, off, d) == DataResult(SRV(GetU16(msg, off), 0, 0, []), off + 2, NoError)
    ensures h.rdlength > 0 && d.SRV? && off + 4 == |msg| ==>
              UnpackData(h, msg, off, d)
              == DataResult(SRV(GetU16(msg, off), GetU16(msg, off + 2), 0, []), off + 4, NoError)
    ensures h.rdlength > 0 && d.SRV? && off + 6 == |msg| ==>
              UnpackData(h, msg, off, d)
              == DataResult(SRV(GetU16(msg, off), GetU16(msg, off + 2), GetU16(msg, off + 4), []), off + 6, NoError)
  {
    hide GetU16, UnpackName;
  }

  /** A question may end behind its name or its type, or within its class; only within its type it is refused. */
  lemma QuestionRead(msg: str, off: nat)
    requires UnpackName(msg, off).err == NoError
    ensures var q, n := UnpackQuestion(msg, off), UnpackName(msg, off);
            && q.q.name == n.name
            && (n.off1 == |msg| ==> q.q.qtype == q.q.qclass == 0 && q.off1 == n.off1 && q.err == NoError)
            && (n.off1 + 1 == |msg| ==> q.err == ErrOverflow)
            && (n.off1 + 2 == |msg| || n.off1 + 3 == |msg| ==>
                  q.q.qtype == GetU16(msg, n.off1) && q.q.qclass == 0 && q.off1 == |msg| && q.err == NoError)
            && (n.off1 + 4 <= |msg| ==>
                  && q.q.qtype == GetU16(msg, n.off1) && q.q.qclass == GetU16(msg, n.off1 + 2)
                  && q.off1 == n.off1 + 4 && q.err == NoError)
  {
    hide GetU16, UnpackName;
  }

  /** Unpack needs twelve octets and then something more. It reads no more questions and records than the header
      counts; a section that cannot be read is empty, as are those behind it; and when nothing is left over and
      TC is set, this is told instead of any other error but one in the questions. */
  lemma MessageRead(msg: str)
    ensures |msg| < 12 ==> ReadMessage(msg).err == ErrOverflow
    ensures |msg| == 12 ==> ReadMessage(msg).err == ErrTruncated
    ensures |msg| > 12 ==>
              var r := ReadMessage(msg);
              var q := ReadQuestions(GetU16(msg, 4), msg, 12);
              var a := ReadRRs(GetU16(msg, 6), msg, q.off1);
              var n := ReadRRs(GetU16(msg, 8), msg, a.off1);
              var e := ReadRRs(GetU16(msg, 10), msg, n.off1);
              && r.m.hdr.id == GetU16(msg, 0) && r.m.question == q.qs && |q.qs| <= GetU16(msg, 4) as int
              && (q.err != NoError ==> r.err == q.err && r.m.answer == r.m.ns == r.m.extra == [])
              && (q.err == NoError ==>
                    && r.m.answer == a.rrs && |a.rrs| <= GetU16(msg, 6) as int
                    && r.m.ns == (if a.err == NoError then n.rrs else []) && |n.rrs| <= GetU16(msg, 8) as int
                    && r.m.extra == (if a.err == NoError && n.err == NoError then e.rrs else [])
                    && |e.rrs| <= GetU16(msg, 10) as int
                    && (a.err != NoError ==> a.rrs == []) && (n.err != NoError ==> n.rrs == [])
                    && (e.err != NoError ==> e.rrs == [])
                    && var err := if a.err != NoError then a.err else if n.err != NoError then n.err else e.err;
                       var all := err != NoError || e.off1 == |msg|;
                       r.err == if all && GetU16(msg, 2) / 0x200 % 2 == 1 then ErrTruncated else err)
  {
    hide ReadQuestions, ReadRRs, GetU16;
    if |msg| > 12 {
      var q := ReadQuestions(GetU16(msg, 4), msg, 12);
      QuestionsCounted(GetU16(msg, 4), msg, 12);
      RecsCounted(GetU16(msg, 6), msg, q.off1);
      var a := ReadRRs(GetU16(msg, 6), msg, q.off1);
      RecsCounted(GetU16(msg, 8), msg, a.off1);
      RecsCounted(GetU16(msg, 10), msg, ReadRRs(GetU16(msg, 8), msg, a.off1).off1);
      MessageParts(msg);
    }
  }

  lemma MessageParts(msg: str)
    requires |msg| > 12
    ensures var h := UnpackMsgHdr(msg, 0);
            && h.err == NoError && h.off1 == 12
            && h.h == WireHeader(GetU16(msg, 0), GetU16(msg, 2), GetU16(msg, 4), GetU16(msg, 6), GetU16(msg, 8),
                                 GetU16(msg, 10))
            && HdrOf(h.h).id == GetU16(msg, 0) && (HdrOf(h.h).truncated <==> GetU16(msg, 2) / 0x200 % 2 == 1)
  {
    hide GetU16;
  }

  lemma {:induction false} QuestionsCounted(n: nat, msg: str, off: nat)
    ensures |ReadQuestions(n, msg, off).qs| <= n
    decreases n
  {
    hide UnpackQuestion;
    if n > 0 { QuestionsCounted(n - 1, msg, UnpackQuestion(msg, off).off1); }
  }

  lemma {:induction false} RecsCounted(n: nat, msg: str, off: nat)
    ensures |ReadRRs(n, msg, off).rrs| <= n
    ensures ReadRRs(n, msg, off).err != NoError ==>
              ReadRRs(n, msg, off).rrs == [] && ReadRRs(n, msg, off).off1 == |msg|
    decreases n
  {
    hide UnpackRR;
    if n > 0 { RecsCounted(n - 1, msg, UnpackRR(msg, off).off1); }
  }

  // ---------- Smaller codes ----------

  /** Two digits for each octet, the high half first; letters are read in either case. */
  lemma {:induction false} HexPairs(s: str)
    requires HexDecode(s).Some?
    ensures var b := HexDecode(s).value;
            && |s| == 2 * |b|
            && forall k | 0 <= k < |b| ::
                 && HexChar(s[2 * k]) && HexChar(s[2 * k + 1])
                 && b[k] as int == 16 * DigitWorth(s[2 * k]) + DigitWorth(s[2 * k + 1])
    decreases |s|
  {
    if s != [] {
      HexPairs(s[2..]);
      var b, more := HexDecode(s).value, HexDecode(s[2..]).value;
      assert b == [HexValue(s[0]) * 16 + HexValue(s[1])] + more;
      forall k | 0 < k < |b|
        ensures && HexChar(s[2 * k]) && HexChar(s[2 * k + 1])
                && b[k] as int == 16 * DigitWorth(s[2 * k]) + DigitWorth(s[2 * k + 1])
      {
        assert s[2..][2 * (k - 1)] == s[2 * k] && s[2..][2 * (k - 1) + 1] == s[2 * k + 1] && b[k] == more[k - 1];
      }
    }
  }

  /** Octets are written in lower-case digits. */
  lemma {:induction false} HexWritten(b: str)
    ensures forall c | c in HexEncode(b) :: 48 <= c <= 57 || 97 <= c <= 102
    decreases |b|
  {
    if b != [] { HexWritten(b[1..]); }
  }

  /** The first type of an octet of an NSEC bitmap is its leftmost bit. */
  lemma TypeBit(b: byte, i: nat)
    requires i < 8
    ensures HasType(b, i) <==> b / [128, 64, 32, 16, 8, 4, 2, 1][i] % 2 == 1
  {
    hide BitSet;
    BitIs(b, 7 - i);
    assert Pow2(0) == 1 && Pow2(1) == 2 && Pow2(2) == 4 && Pow2(3) == 8;
    assert Pow2(4) == 16 && Pow2(5) == 32 && Pow2(6) == 64 && Pow2(7) == 128;
  }

  lemma {:induction false} BitIs(b: nat, j: nat)
    ensures BitSet(b, j) <==> b / Pow2(j) % 2 == 1
    decreases j
  {
    if j > 0 {
      BitIs(b / 2, j - 1);
      HalfDiv(b, Pow2(j - 1));
    }
  }

  lemma HalfDiv(b: nat, p: nat)
    requires p > 0
    ensures b / 2 / p == b / (2 * p)
  {
    var h := b / 2;
    var q, r := h / p, h % p;
    assert b == 2 * h + b % 2 && h == q * p + r;
    assert b == q * (2 * p) + (2 * r + b % 2);
    DivIs(b, 2 * p, q, 2 * r + b % 2);
  }

  /** The TSIG rdata of section 2.3 of RFC 2845: the algorithm, the time, the fudge, the MAC behind its size, the
      original id, the error, and the other data behind its length. */
  lemma TsigFields(t: TsigRR, b: str, alg: str, mac: str, other: str)
    requires GoodTsig(t) && Parse(t.algorithm).Good? && b == TsigRdata(t) && alg == Wire(Labels(t.algorithm))
    requires t.mac == HexEncode(mac) && t.otherData == HexEncode(other)
    ensures var n := |alg|;
            var m := n + 10 + |mac|;
            && |b| == m + 6 + |other| && b[..n] == alg
            && GetU48(b, n) == t.timeSigned % 0x1_0000_0000_0000 && GetU16(b, n + 6) == t.fudge
            && GetU16(b, n + 8) == t.macSize && b[n + 10..m] == mac
            && GetU16(b, m) == t.origId && GetU16(b, m + 2) == t.error && GetU16(b, m + 4) == t.otherLen
            && b[m + 6..] == other
  {
    hide *;
    HexRoundTrip(mac);
    HexRoundTrip(other);
    HexBytesIs(t.mac);
    HexBytesIs(t.otherData);
    RdataIs(t);
    TsigFieldsAt(b, alg, t, mac, other);
  }

  lemma RdataIs(t: TsigRR)
    requires GoodTsig(t) && Parse(t.algorithm).Good?
    ensures TsigRdata(t)
            == Wire(Labels(t.algorithm))
               + (U48(t.timeSigned) + U16(t.fudge) + U16(t.macSize) + HexBytes(t.mac) + U16(t.origId) + U16(t.error)
                  + U16(t.otherLen) + HexBytes(t.otherData))
  {
    hide GoodTsig, Parse, Labels, Wire, HexBytes, U16, U48;
  }

  lemma TsigFieldsAt(b: str, alg: str, t: TsigRR, mac: str, other: str)
    requires b == alg + (U48(t.timeSigned) + U16(t.fudge) + U16(t.macSize) + mac + U16(t.origId) + U16(t.error)
                         + U16(t.otherLen) + other)
    ensures var n := |alg|;
            var m := n + 10 + |mac|;
            && |b| == m + 6 + |other| && b[..n] == alg
            && GetU48(b, n) == t.timeSigned % 0x1_0000_0000_0000 && GetU16(b, n + 6) == t.fudge
            && GetU16(b, n + 8) == t.macSize && b[n + 10..m] == mac
            && GetU16(b, m) == t.origId && GetU16(b, m + 2) == t.error && GetU16(b, m + 4) == t.otherLen
            && b[m + 6..] == other
  {
    hide U16, U48, GetU16, GetU48;
    var n, m := |alg|, |alg| + 10 + |mac|;
    assert b[n..n + 6] == U48(t.timeSigned) && b[n + 6..n + 8] == U16(t.fudge);
    assert b[n + 8..n + 10] == U16(t.macSize) && b[m..m + 2] == U16(t.origId);
    assert b[m + 2..m + 4] == U16(t.error) && b[m + 4..m + 6] == U16(t.otherLen);
    GetU48Put(b, n, t.timeSigned);
    GetU16Put(b, n + 6, t.fudge);
    GetU16Put(b, n + 8, t.macSize);
    GetU16Put(b, m, t.origId);
    GetU16Put(b, m + 2, t.error);
    GetU16Put(b, m + 4, t.otherLen);
  }
}
