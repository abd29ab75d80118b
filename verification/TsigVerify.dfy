/** stripTsig, TsigGenerate and TsigVerify (tsig.go), and that a generated signature verifies. */
module TsigVerify {
  import opened Bytes
  import opened Hex
  import opened Names
  import opened PackNames
  import opened UnpackNames
  import opened Compression
  import opened LabelOps
  import opened Records
  import opened UnpackRecords
  import opened MessageTypes
  import opened Messages
  import opened UnpackMessages
  import opened PrintedNames
  import opened LowerNames
  import opened Tsig

  // ---------- Unpacking the TSIG record ----------

  datatype Int48Result = Int48Result(i: uint48, off1: nat, err: Error)

  function UnpackUint48(msg: str, off: nat): Int48Result {
    if off + 6 > |msg| then Int48Result(0, |msg|, ErrOverflow) else Int48Result(GetU48(msg, off), off + 6, NoError)
  }

  datatype HexResult = HexResult(s: str, off1: nat, err: Error)

  function UnpackStringHex(msg: str, off: nat, end: nat): HexResult
    requires off <= end
  {
    if end > |msg| then HexResult([], |msg|, ErrOverflow) else HexResult(HexEncode(msg[off..end]), end, NoError)
  }

  datatype TsigRead = TsigRead(t: TsigRR, off1: nat, err: Error)

  function Blank(h: Header): TsigRR {
    TsigRR(h.name, h.cls, h.ttl, [], 0, 0, 0, [], 0, 0, 0, [])
  }

  /** unpackTSIG: fields missing at the end of the rdata stay zero, but for the MAC and what follows its size. */
  function UnpackTsig(h: Header, msg: str, off: nat): TsigRead {
    var t := Blank(h);
    if h.rdlength == 0 then TsigRead(t, off, NoError)
    else
      var n := UnpackName(msg, off);
      var t := t.(algorithm := n.name);
      if n.err != NoError || n.off1 == |msg| then TsigRead(t, n.off1, n.err) else UnpackTimes(t, msg, n.off1)
  }

  function UnpackTimes(t: TsigRR, msg: str, off: nat): TsigRead {
    var a := UnpackUint48(msg, off);
    var t := t.(timeSigned := a.i);
    if a.err != NoError || a.off1 == |msg| then TsigRead(t, a.off1, a.err)
    else
      var f := UnpackUint16(msg, a.off1);
      var t := t.(fudge := f.i);
      if f.err != NoError || f.off1 == |msg| then TsigRead(t, f.off1, f.err) else UnpackMac(t, msg, f.off1)
  }

  function UnpackMac(t: TsigRR, msg: str, off: nat): TsigRead {
    var s := UnpackUint16(msg, off);
    var t := t.(macSize := s.i);
    if s.err != NoError || s.off1 == |msg| then TsigRead(t, s.off1, s.err)
    else
      var m := UnpackStringHex(msg, s.off1, s.off1 + s.i);
      var t := t.(mac := m.s);
      if m.err != NoError then TsigRead(t, m.off1, m.err) else UnpackOther(t, msg, m.off1)
  }

  function UnpackOther(t: TsigRR, msg: str, off: nat): TsigRead {
    var o := UnpackUint16(msg, off);
    var t := t.(origId := o.i);
    if o.err != NoError || o.off1 == |msg| then TsigRead(t, o.off1, o.err)
    else
      var e := UnpackUint16(msg, o.off1);
      var t := t.(error := e.i);
      if e.err != NoError || e.off1 == |msg| then TsigRead(t, e.off1, e.err)
      else
        var l := UnpackUint16(msg, e.off1);
        var t := t.(otherLen := l.i);
        if l.err != NoError || l.off1 == |msg| then TsigRead(t, l.off1, l.err)
        else
          var d := UnpackStringHex(msg, l.off1, l.off1 + l.i);
          TsigRead(t.(otherData := d.s), d.off1, d.err)
  }

  /** A record of the additional section: the TSIG record if it is one. */
  datatype ExtraRead = ExtraRead(tsig: Option<TsigRR>, off1: nat, err: Error)

  /** UnpackRR, for TSIG and the types of this model. */
  function UnpackExtra(msg: str, off: nat): ExtraRead {
    var r := UnpackHeader(msg, off);
    if r.err == NoError && off != |msg| && r.h.rrtype == TYPE_TSIG then
      var d := UnpackTsig(r.h, r.msg, r.off1);
      if d.off1 != r.off1 + r.h.rdlength then ExtraRead(None, r.off1 + r.h.rdlength, ErrBadRdlength)
      else ExtraRead(Some(d.t), d.off1, d.err)
    else
      var x := UnpackRR(msg, off);
      ExtraRead(None, x.off1, x.err)
  }

  // ---------- The round trip of the TSIG record ----------

  /** The sizes are those of the data. */
  predicate Sized(t: TsigRR) {
    |HexBytes(t.mac)| == t.macSize as int && |HexBytes(t.otherData)| == t.otherLen as int
  }

  /** The record that comes back: names as printed, the low 48 bits of the time, hexadecimal in lower case. */
  function PrintedTsig(t: TsigRR): TsigRR {
    t.(name := Printed(t.name), algorithm := Printed(t.algorithm), timeSigned := t.timeSigned % 0x1_0000_0000_0000,
       mac := HexEncode(HexBytes(t.mac)), otherData := HexEncode(HexBytes(t.otherData)))
  }

  lemma OtherReads(t: TsigRR, t0: TsigRR, msg: str, off: nat)
    requires off <= |msg| && msg[off..] == U16(t.origId) + U16(t.error) + U16(t.otherLen) + HexBytes(t.otherData)
    requires |HexBytes(t.otherData)| == t.otherLen as int && t0.otherData == []
    ensures UnpackOther(t0, msg, off)
            == TsigRead(t0.(origId := t.origId, error := t.error, otherLen := t.otherLen,
                            otherData := HexEncode(HexBytes(t.otherData))),
                        |msg|, NoError)
  {
    hide GetU16, U16, HexBytes;
    var s := msg[off..];
    assert msg[off..off + 2] == s[..2] == U16(t.origId);
    assert msg[off + 2..off + 4] == s[2..4] == U16(t.error);
    assert msg[off + 4..off + 6] == s[4..6] == U16(t.otherLen);
    assert msg[off + 6..] == s[6..] == HexBytes(t.otherData);
    GetU16Put(msg, off, t.origId);
    GetU16Put(msg, off + 2, t.error);
    assert msg[off + 6..off + 6 + t.otherLen] == msg[off + 6..];
    assert t.otherLen == 0 ==> HexBytes(t.otherData) == [] && HexEncode([]) == [];
    GetU16Put(msg, off + 4, t.otherLen);
  }

  lemma MacReads(t: TsigRR, t0: TsigRR, msg: str, off: nat)
    requires off <= |msg| && |HexBytes(t.mac)| == t.macSize as int
    requires msg[off..] == U16(t.macSize) + HexBytes(t.mac)
             + (U16(t.origId) + U16(t.error) + U16(t.otherLen) + HexBytes(t.otherData))
    requires |HexBytes(t.otherData)| == t.otherLen as int && t0.otherData == []
    ensures UnpackMac(t0, msg, off)
            == TsigRead(t0.(macSize := t.macSize, mac := HexEncode(HexBytes(t.mac)),
                            origId := t.origId, error := t.error,
                            otherLen := t.otherLen, otherData := HexEncode(HexBytes(t.otherData))), |msg|, NoError)
  {
    hide GetU16, U16, HexBytes, UnpackOther;
    var s, n := msg[off..], |HexBytes(t.mac)|;
    assert msg[off..off + 2] == s[..2] == U16(t.macSize);
    assert msg[off + 2..off + 2 + n] == s[2..2 + n] == HexBytes(t.mac);
    assert msg[off + 2 + n..] == s[2 + n..];
    GetU16Put(msg, off, t.macSize);
    OtherReads(t, t0.(macSize := t.macSize, mac := HexEncode(HexBytes(t.mac))), msg, off + 2 + n);
  }

  lemma TimesRead(t: TsigRR, t0: TsigRR, msg: str, off: nat)
    requires off <= |msg| && Sized(t) && msg[off..] == TsigTail(t) && t0.otherData == []
    ensures UnpackTimes(t0, msg, off)
            == TsigRead(t0.(timeSigned := t.timeSigned % 0x1_0000_0000_0000, fudge := t.fudge, macSize := t.macSize,
                            mac := HexEncode(HexBytes(t.mac)), origId := t.origId, error := t.error,
                            otherLen := t.otherLen, otherData := HexEncode(HexBytes(t.otherData))), |msg|, NoError)
  {
    hide GetU16, GetU48, U16, U48, HexBytes, UnpackMac, HexEncode;
    var s := msg[off..];
    var rest := U16(t.origId) + U16(t.error) + U16(t.otherLen) + HexBytes(t.otherData);
    assert s == U48(t.timeSigned) + U16(t.fudge) + (U16(t.macSize) + HexBytes(t.mac) + rest);
    assert msg[off..off + 6] == s[..6] == U48(t.timeSigned);
    assert msg[off + 6..off + 8] == s[6..8] == U16(t.fudge);
    assert msg[off + 8..] == s[8..] == U16(t.macSize) + HexBytes(t.mac) + rest;
    GetU48Put(msg, off, t.timeSigned);
    GetU16Put(msg, off + 6, t.fudge);
    MacReads(t, t0.(timeSigned := t.timeSigned % 0x1_0000_0000_0000, fudge := t.fudge), msg, off + 8);
  }

  lemma PlainNameReads(buf: str, s: str, more: str)
    requires FitName(s)
    ensures Parse(s).Good?
    ensures UnpackName(buf + Wire(Labels(s)) + more, |buf|)
            == NameResult(Printed(s), |buf| + |Wire(Labels(s))|, NoError)
  {
    hide Parse, Labels, UnpackName, PackName, Wire, Depth, NameString, LabelsLen;
    GoodNamePackable(s, None);
    PackNameWire(Labels(s), |buf|, false);
    NoMap(buf);
    UnpackPacked(buf, Labels(s), None, map[], false, more);
    NoDepth(Labels(s));
    NameReads(s, None, 0, |buf + Wire(Labels(s)) + more|, |buf| + |Wire(Labels(s))|);
  }

  lemma NoMap(buf: str)
    ensures Sound(buf, None, map[])
  {
  }

  lemma {:induction false} NoDepth(ls: seq<Label>)
    ensures Depth(ls, None, map[], false) == 0
    decreases |ls|
  {
    if ls != [] {
      NoDepth(ls[1..]);
    }
  }

  /** The TSIG record at the end of a message reads back. */
  lemma TsigReads(buf: str, t: TsigRR)
    requires GoodTsig(t) && Sized(t)
    ensures UnpackExtra(buf + TsigBytes(t), |buf|) == ExtraRead(Some(PrintedTsig(t)), |buf + TsigBytes(t)|, NoError)
  {
    hide *;
    TsigBytesParts(t);
    TsigRdataIs(t);
    var w, a := Wire(Labels(t.name)), Wire(Labels(t.algorithm));
    var mid := Mid10(HeaderRec(t), |TsigRdata(t)|);
    MidIs(t);
    var msg := buf + TsigBytes(t);
    var b1 := buf + w + mid;
    Layout(buf, w, mid, a, TsigTail(t), msg);
    PlainNameReads(buf, t.name, mid + a + TsigTail(t));
    HeaderAt(msg, |buf|, Printed(t.name), |buf| + |w|, HeaderRec(t), |TsigRdata(t)|);
    PlainNameReads(b1, t.algorithm, TsigTail(t));
    var h := Header(Printed(t.name), TYPE_TSIG, t.cls, t.ttl, |TsigRdata(t)|);
    BlankData(h);
    TimesRead(t, Blank(h).(algorithm := Printed(t.algorithm)), msg, |b1| + |a|);
    assert msg[..|msg|] == msg;
    TailLen(t);
    ExtraIs(msg, |buf|, t, h, |b1|, |b1| + |a|);
  }

  lemma MidIs(t: TsigRR)
    requires GoodTsig(t)
    ensures Mid10(HeaderRec(t), |TsigRdata(t)|) == Middle(HeaderRec(t)) + U16(|TsigRdata(t)|)
    ensures HeaderRec(t) == Rec(t.name, TYPE_TSIG, t.cls, t.ttl, A([]))
  {
    hide TsigRdata;
  }

  lemma TsigRdataIs(t: TsigRR)
    requires GoodTsig(t)
    ensures FitName(t.name) && FitName(t.algorithm) && Parse(t.algorithm).Good?
    ensures TsigRdata(t) == Wire(Labels(t.algorithm)) + TsigTail(t)
  {
    hide FitName, Parse, Labels, Wire, TsigTail;
    GoodNameWire(t.algorithm);
    TsigRdataLen(t);
  }

  lemma BlankData(h: Header)
    ensures Blank(h).otherData == []
  {
  }

  lemma TailLen(t: TsigRR)
    ensures |TsigTail(t)| >= 16
  {
    hide U48, U16;
  }

  lemma Layout(buf: str, w: str, mid: str, a: str, tail: str, msg: str)
    requires |mid| == 10 && |a + tail| < 0x1_0000
    requires msg == buf + (w + (mid + (a + tail))) || msg == buf + (w + (mid[..8] + mid[8..] + (a + tail)))
    ensures msg == buf + w + (mid + a + tail) == buf + w + mid + a + tail
    ensures msg[|buf| + |w|..|buf| + |w| + 10] == mid && |buf| + |w| + 10 + |a + tail| == |msg|
    ensures msg[|buf| + |w| + 10 + |a|..] == tail
  {
    assert mid[..8] + mid[8..] == mid;
  }

  lemma ExtraIs(msg: str, off: nat, t: TsigRR, h: Header, o1: nat, o2: nat)
    requires GoodTsig(t) && off < |msg| && o1 <= o2 < |msg| && h.rrtype == TYPE_TSIG && h.rdlength > 0
    requires h == Header(Printed(t.name), TYPE_TSIG, t.cls, t.ttl, h.rdlength) && o1 + h.rdlength == |msg|
    requires UnpackHeader(msg, off) == HeaderResult(h, o1, msg, NoError)
    requires UnpackName(msg, o1) == NameResult(Printed(t.algorithm), o2, NoError)
    requires UnpackTimes(Blank(h).(algorithm := Printed(t.algorithm)), msg, o2)
             == TsigRead(Blank(h).(algorithm := Printed(t.algorithm),
                                   timeSigned := t.timeSigned % 0x1_0000_0000_0000, fudge := t.fudge,
                                   macSize := t.macSize, mac := HexEncode(HexBytes(t.mac)),
                                   origId := t.origId, error := t.error,
                                   otherLen := t.otherLen, otherData := HexEncode(HexBytes(t.otherData))),
                          |msg|, NoError)
    ensures UnpackExtra(msg, off) == ExtraRead(Some(PrintedTsig(t)), |msg|, NoError)
  {
    hide UnpackHeader, UnpackName, UnpackTimes, Printed, HexEncode, HexBytes, GoodTsig, UnpackRR;
  }

  // ---------- stripTsig ----------

  datatype Skipped = Skipped(off1: nat, err: Error)

  /** The question loop of stripTsig, which does not watch for progress. */
  function SkipQuestions(n: nat, msg: str, off: nat): Skipped {
    if n == 0 then Skipped(off, NoError)
    else
      var q := UnpackQuestion(msg, off);
      if q.err != NoError then Skipped(q.off1, q.err) else SkipQuestions(n - 1, msg, q.off1)
  }

  /** Where the record begins that ended the search, the TSIG record, and whether it is one. */
  datatype Stripped = Stripped(off: nat, t: TsigRR, found: bool, err: Error)

  const NO_TSIG := TsigRR([], 0, 0, [], 0, 0, 0, [], 0, 0, 0, [])

  /** Looks for the first TSIG record among the next n; at is where the record before began. Finding none
      is not an error. */
  function FindTsig(n: nat, msg: str, off: nat, at: nat): Stripped {
    if n == 0 then Stripped(at, NO_TSIG, false, NoError)
    else
      var e := UnpackExtra(msg, off);
      if e.err != NoError then Stripped(off, NO_TSIG, false, e.err)
      else if e.tsig.Some? then Stripped(off, e.tsig.value, true, NoError)
      else FindTsig(n - 1, msg, e.off1, off)
  }

  const RCODE_NOT_AUTH := 9

  function Strip(msg: str): Stripped {
    var h := UnpackMsgHdr(msg, 0);
    if h.err != NoError then Stripped(0, NO_TSIG, false, h.err)
    else if h.h.ar == 0 then Stripped(0, NO_TSIG, false, ErrNoSig)
    else if h.h.bits % 16 == RCODE_NOT_AUTH then Stripped(0, NO_TSIG, false, ErrAuth)
    else
      var q := SkipQuestions(h.h.qd, msg, h.off1);
      if q.err != NoError then Stripped(0, NO_TSIG, false, q.err)
      else
        var a := ReadRRs(h.h.an, msg, q.off1);
        if a.err != NoError then Stripped(0, NO_TSIG, false, a.err)
        else
          var n := ReadRRs(h.h.ns, msg, a.off1);
          if n.err != NoError then Stripped(0, NO_TSIG, false, n.err) else FindTsig(h.h.ar, msg, n.off1, 0)
  }

  /** One record fewer in the additional section. */
  function Restored(msg: str): (r: str)
    requires 12 <= |msg|
    ensures |r| == |msg|
  {
    msg[..10] + U16((GetU16(msg, 10) - 1) % 0x1_0000) + msg[12..]
  }

  method StripTsig(msg: array<byte>) returns (tsigoff: nat, rr: TsigRR, err: Error)
    modifies msg
    ensures var s := Strip(old(msg[..]));
            && err == s.err
            && (err == NoError ==> tsigoff == s.off && rr == s.t && 12 <= msg.Length)
            && (err == NoError && s.found ==> msg[..] == Restored(old(msg[..])))
            && (!s.found ==> msg[..] == old(msg[..]))
  {
    hide UnpackQuestion, ReadRRs, UnpackExtra, U16, GetU16;
    ghost var m := msg[..];
    tsigoff, rr := 0, NO_TSIG;
    var h := UnpackMsgHdr(msg[..], 0);
    if h.err != NoError {
      return 0, NO_TSIG, h.err;
    }
    if h.h.ar == 0 {
      return 0, NO_TSIG, ErrNoSig;
    }
    if h.h.bits % 16 == RCODE_NOT_AUTH {
      return 0, NO_TSIG, ErrAuth;
    }
    var off := h.off1;
    for i := 0 to h.h.qd
      invariant SkipQuestions(h.h.qd - i, m, off) == SkipQuestions(h.h.qd, m, h.off1)
      invariant msg[..] == m
    {
      var q := UnpackQuestion(msg[..], off);
      off := q.off1;
      if q.err != NoError {
        return 0, NO_TSIG, q.err;
      }
    }
    ghost var afterQuestions := off;
    var ignored: seq<Decoded>;
    ignored, off, err := UnpackRRSlice(h.h.an, msg[..], off);
    if err != NoError {
      return 0, NO_TSIG, err;
    }
    ignored, off, err := UnpackRRSlice(h.h.ns, msg[..], off);
    if err != NoError {
      return 0, NO_TSIG, err;
    }
    ghost var begin := off;
    for i := 0 to h.h.ar
      invariant FindTsig(h.h.ar - i, m, off, tsigoff) == FindTsig(h.h.ar, m, begin, 0)
      invariant msg[..] == m && rr == NO_TSIG
    {
      tsigoff := off;
      var extra := UnpackExtra(msg[..], off);
      off := extra.off1;
      if extra.err != NoError {
        return 0, NO_TSIG, extra.err;
      }
      if extra.tsig.Some? {
        rr := extra.tsig.value;
        var arcount := GetU16(msg[..], 10);
        PutUint16(msg, 10, (arcount - 1) % 0x1_0000);
        PatchedBuffer(m, msg[..], 10, U16((arcount - 1) % 0x1_0000));
        return tsigoff, rr, NoError;
      }
    }
    return tsigoff, rr, NoError;
  }

  /** binary.BigEndian.PutUint16 */
  method PutUint16(msg: array<byte>, off: nat, n: uint16)
    requires off + 2 <= msg.Length
    modifies msg
    ensures msg[..off] == old(msg[..off]) && msg[off..off + 2] == U16(n) && msg[off + 2..] == old(msg[off + 2..])
  {
    msg[off], msg[off + 1] := n / 256, n % 256;
  }

  // ---------- TsigGenerate ----------

  const HMAC_MD5: str :=
    [104, 109, 97, 99, 45, 109, 100, 53, 46, 115, 105, 103, 45, 97, 108, 103, 46, 114, 101, 103, 46, 105, 110, 116, 46]
  const HMAC_SHA1: str := [104, 109, 97, 99, 45, 115, 104, 97, 49, 46]
  const HMAC_SHA256: str := [104, 109, 97, 99, 45, 115, 104, 97, 50, 53, 54, 46]
  const HMAC_SHA512: str := [104, 109, 97, 99, 45, 115, 104, 97, 53, 49, 50, 46]

  predicate KnownAlgorithm(alg: str) {
    alg in {HMAC_MD5, HMAC_SHA1, HMAC_SHA256, HMAC_SHA512}
  }

  /** A keyed hash, chosen by the algorithm's name; nothing is assumed of it but the size of its result. */
  type Hash = (str, str) -> str

  const MAX_MAC := 64

  /** The record TsigGenerate appends. */
  function SignedTsig(t: TsigRR, id: uint16, mac: str): TsigRR {
    TsigRR(t.name, CLASS_ANY, 0, t.algorithm, t.timeSigned, t.fudge, |mac| % 0x1_0000, HexEncode(mac), id, 0, 0, [])
  }

  function PutCount(msg: str, n: uint16): (r: str)
    requires 12 <= |msg|
    ensures |r| == |msg|
  {
    msg[..10] + U16(n) + msg[12..]
  }

  /** The keyed hash over message and variables. */
  function MacOf(m: Msg, d: TsigRR, hash: Hash, requestMAC: str, timersOnly: bool): str
    requires FitMsg(m) && GoodTsig(d)
  {
    hash(LowerAll(d.algorithm), MacInput(PackMsg(m).bytes, d, requestMAC, timersOnly))
  }

  predicate Signable(m: Msg, d: TsigRR, hash: Hash, requestMAC: str, timersOnly: bool)
    requires FitMsg(m) && GoodTsig(d)
  {
    && KnownAlgorithm(LowerAll(d.algorithm))
    && |MacOf(m, d, hash, requestMAC, timersOnly)| <= MAX_MAC
  }

  lemma SignedGood(d: TsigRR, id: uint16, mac: str)
    requires GoodTsig(d) && |mac| <= MAX_MAC
    ensures GoodTsig(SignedTsig(d, id, mac)) && Sized(SignedTsig(d, id, mac)) && HexBytes(HexEncode(mac)) == mac
  {
    hide *;
    HexRoundTrip(mac);
    HexNothing();
    SignedParts(d, id, mac);
    GoodTsigParts(d);
    HexBytesIs(HexEncode(mac));
    HexBytesIs([]);
    GoodTsigIs(SignedTsig(d, id, mac));
  }

  lemma SignedParts(d: TsigRR, id: uint16, mac: str)
    requires |mac| <= MAX_MAC
    ensures var t := SignedTsig(d, id, mac);
            && t.name == d.name && t.algorithm == d.algorithm && t.mac == HexEncode(mac) && t.otherData == []
               && t.otherLen == 0
            && t.macSize as int == |mac| && |t.mac| <= 128
            && (|HexBytes(t.mac)| == t.macSize as int && |HexBytes(t.otherData)| == t.otherLen as int ==> Sized(t))
  {
    hide HexEncode, HexBytes;
  }

  lemma GoodTsigParts(t: TsigRR)
    requires GoodTsig(t)
    ensures FitName(t.name) && FitName(t.algorithm)
    ensures FitName(LowerAll(t.name)) && FitName(LowerAll(t.algorithm))
  {
    hide FitName, LowerAll, HexDecode;
  }

  lemma GoodTsigIs(t: TsigRR)
    requires FitName(t.name) && FitName(t.algorithm)
    requires FitName(LowerAll(t.name)) && FitName(LowerAll(t.algorithm))
    requires HexDecode(t.mac).Some? && HexDecode(t.otherData).Some? && |t.mac| <= 128 && t.otherData == []
    ensures GoodTsig(t)
  {
    hide FitName, LowerAll, HexDecode;
  }

  lemma HexNothing()
    ensures HexDecode([]) == Some([])
  {
  }

  function SignedRecord(m: Msg, d: TsigRR, hash: Hash, requestMAC: str, timersOnly: bool): (t: TsigRR)
    requires FitMsg(m) && GoodTsig(d) && Signable(m, d, hash, requestMAC, timersOnly)
    ensures GoodTsig(t) && Sized(t)
  {
    SignedGood(d, m.hdr.id, MacOf(m, d, hash, requestMAC, timersOnly));
    SignedTsig(d, m.hdr.id, MacOf(m, d, hash, requestMAC, timersOnly))
  }

  function Packed(m: Msg): (b: str)
    requires FitMsg(m)
    ensures |b| >= 12
  {
    MsgLong(m);
    PackMsg(m).bytes
  }

  lemma MsgLong(m: Msg)
    requires FitMsg(m)
    ensures |PackMsg(m).bytes| >= 12
  {
    hide PackQuestions, PackRecs, FitQuestions, FitRecs;
  }

  /** A message with one more additional record: packed, then the TSIG record, and the count n patched in. */
  function Emitted(packed: str, t: TsigRR, n: uint16): str
    requires 12 <= |packed| && GoodTsig(t)
  {
    PutCount(packed + TsigBytes(t), n)
  }

  /** The signed message. */
  function Signed(m: Msg, d: TsigRR, hash: Hash, requestMAC: str, timersOnly: bool): str
    requires FitMsg(m) && GoodTsig(d) && Signable(m, d, hash, requestMAC, timersOnly)
  {
    Emitted(Packed(m), SignedRecord(m, d, hash, requestMAC, timersOnly), (|m.extra| + 1) % 0x1_0000)
  }

  /** Packs the record into a buffer of its own, appends it, and updates the count in the message. */
  method Emit(mbuf: str, t: TsigRR, n: uint16) returns (wire: str, err: Error)
    ensures 12 <= |mbuf| && GoodTsig(t) ==> err == NoError && wire == Emitted(mbuf, t, n)
  {
    hide *;
    var tbuf := new byte[TsigLen(t)](_ => 0);
    ghost var good := GoodTsig(t) && 12 <= |mbuf|;
    if good { TsigBytesParts(t); EmittedIs(mbuf, t, n); }
    var off;
    off, err := PackTsig(t, tbuf, 0);
    if err != NoError {
      return [], err;
    }
    if off > tbuf.Length || |mbuf| + off < 12 {
      return [], IndexPanic;
    }
    var all := mbuf + tbuf[..off];
    var out := new byte[|all|](i requires 0 <= i < |all| => all[i]);
    assert out[..] == all;
    PutUint16(out, 10, n);
    PatchedBuffer(all, out[..], 10, U16(n));
    wire := out[..];
    if good {
      assert tbuf[0..off] == tbuf[..off];
      PutCountIs(all, n);
    }
  }

  lemma EmittedIs(packed: str, t: TsigRR, n: uint16)
    requires 12 <= |packed| && GoodTsig(t)
    ensures Emitted(packed, t, n) == PutCount(packed + TsigBytes(t), n)
  {
    hide PutCount, TsigBytes, GoodTsig;
  }

  /** Signs m; the TSIG stub is given beside the message. */
  method TsigGenerate(m: Msg, stub: TsigRR, hash: Hash, requestMAC: str, timersOnly: bool, now: uint64)
    returns (wire: str, mac: str, err: Error)
    modifies m.answer, m.ns, m.extra
    ensures FitMsg(m) && GoodTsig(Defaulted(stub, now)) && !KnownAlgorithm(LowerAll(stub.algorithm)) ==>
              err == ErrKeyAlg
    ensures FitMsg(m) && GoodTsig(Defaulted(stub, now))
            && Signable(m, Defaulted(stub, now), hash, requestMAC, timersOnly) ==>
              && err == NoError && wire == Signed(m, Defaulted(stub, now), hash, requestMAC, timersOnly)
              && mac == HexEncode(MacOf(m, Defaulted(stub, now), hash, requestMAC, timersOnly))
  {
    hide *;
    ghost var d := Defaulted(stub, now);
    ghost var good := FitMsg(m) && GoodTsig(d) && Signable(m, d, hash, requestMAC, timersOnly);
    wire, mac := [], [];
    SameAlgorithm(stub, now);
    if good { SignableParts(m, d, hash, requestMAC, timersOnly); SignedIs(m, d, hash, requestMAC, timersOnly); }
    var mbuf;
    mbuf, err := PackBuffer(m, null);
    if err != NoError {
      return;
    }
    var buf, rr := TsigBuffer(mbuf, stub, requestMAC, timersOnly, now);
    if !KnownAlgorithm(LowerAll(rr.algorithm)) {
      return [], [], ErrKeyAlg;
    }
    var sum := hash(LowerAll(rr.algorithm), buf);
    mac := HexEncode(sum);
    wire, err := Emit(mbuf, SignedTsig(rr, m.hdr.id, sum), (|m.extra| + 1) % 0x1_0000);
    if err != NoError {
      return [], [], err;
    }
  }

  lemma SignedIs(m: Msg, d: TsigRR, hash: Hash, requestMAC: str, timersOnly: bool)
    requires FitMsg(m) && GoodTsig(d) && Signable(m, d, hash, requestMAC, timersOnly)
    ensures Signed(m, d, hash, requestMAC, timersOnly)
            == Emitted(Packed(m), SignedRecord(m, d, hash, requestMAC, timersOnly), (|m.extra| + 1) % 0x1_0000)
  {
    hide FitMsg, GoodTsig, Packed, SignedRecord, Emitted, Signable;
  }

  lemma SameAlgorithm(stub: TsigRR, now: uint64)
    ensures Defaulted(stub, now).algorithm == stub.algorithm
  {
  }

  lemma SignableParts(m: Msg, d: TsigRR, hash: Hash, requestMAC: str, timersOnly: bool)
    requires FitMsg(m) && GoodTsig(d) && Signable(m, d, hash, requestMAC, timersOnly)
    ensures KnownAlgorithm(LowerAll(d.algorithm)) && Packed(m) == PackMsg(m).bytes
    ensures var mac := MacOf(m, d, hash, requestMAC, timersOnly);
            && mac == hash(LowerAll(d.algorithm), MacInput(PackMsg(m).bytes, d, requestMAC, timersOnly))
            && |mac| <= 64 && HexBytes(HexEncode(mac)) == mac
            && SignedRecord(m, d, hash, requestMAC, timersOnly) == SignedTsig(d, m.hdr.id, mac)
  {
    hide FitMsg, GoodTsig, MacInput, PackMsg, LowerAll, SignedTsig, Sized, HexBytes, KnownAlgorithm, HexEncode;
    SignedGood(d, m.hdr.id, MacOf(m, d, hash, requestMAC, timersOnly));
  }

  lemma PutCountIs(msg: str, n: uint16)
    requires 12 <= |msg|
    ensures PutCount(msg, n) == msg[..10] + U16(n) + msg[12..]
  {
  }

  // ---------- TsigVerify ----------

  /** The tests after the record is stripped: time, algorithm, MAC. */
  function Checked(t: TsigRR, input: str, hash: Hash, now: uint64): Error {
    var ti: int := if now < t.timeSigned then t.timeSigned - now else now - t.timeSigned;
    if (t.fudge as int) < ti then ErrTime
    else if !KnownAlgorithm(LowerAll(t.algorithm)) then ErrKeyAlg
    else if Some(hash(LowerAll(t.algorithm), input)) != HexDecode(t.mac) then ErrSig
    else NoError
  }

  /** What TsigVerify makes of any message. */
  function Verdict(wire: str, hash: Hash, requestMAC: str, timersOnly: bool, now: uint64): Error {
    var s := Strip(wire);
    if s.err != NoError then s.err
    else if !s.found then ErrKeyAlg
    else
      FoundIs(wire, now);
      StripInBounds(wire);
      FoundLong(wire);
      var d := Defaulted(s.t, now);
      Checked(d, MacInput(Restored(wire)[..s.off], d, requestMAC, timersOnly), hash, now)
  }

  lemma FoundLong(msg: str)
    ensures Strip(msg).err == NoError ==> 12 <= |msg|
  {
    hide SkipQuestions, ReadRRs, FindTsig;
  }

  method TsigVerify(msg: array<byte>, hash: Hash, requestMAC: str, timersOnly: bool, now: uint64) returns (err: Error)
    modifies msg
    ensures err == Verdict(old(msg[..]), hash, requestMAC, timersOnly, now)
  {
    hide Strip, Verdict, Restored, FitName, LowerAll, HexDecode, MacInput, KnownAlgorithm, HexEncode, HashableTsig;
    ghost var m := msg[..];
    UnfoundIs(m);
    VerdictIs(m, hash, requestMAC, timersOnly, now);
    HexNothing();
    var tsigoff, tsig;
    tsigoff, tsig, err := StripTsig(msg);
    if err != NoError {
      return;
    }
    var msgMAC := HexDecode(tsig.mac);
    if msgMAC == None {
      return ErrHex;
    }
    StripInBounds(m);
    if tsigoff > msg.Length {
      return IndexPanic;
    }
    var buf, d := TsigBuffer(msg[..tsigoff], tsig, requestMAC, timersOnly, now);
    var ti: int := now - d.timeSigned;
    if now < d.timeSigned {
      ti := d.timeSigned - now;
    }
    if (d.fudge as int) < ti {
      return ErrTime;
    }
    if !KnownAlgorithm(LowerAll(d.algorithm)) {
      return ErrKeyAlg;
    }
    if hash(LowerAll(d.algorithm), buf) != msgMAC.value {
      return ErrSig;
    }
    return NoError;
  }

  /** The search ends within the message. */
  lemma {:induction false} FindInBounds(n: nat, msg: str, off: nat, at: nat)
    requires at <= |msg|
    ensures FindTsig(n, msg, off, at).err == NoError ==> FindTsig(n, msg, off, at).off <= |msg|
    decreases n
  {
    hide UnpackTsig, UnpackRR;
    if n > 0 && UnpackExtra(msg, off).err == NoError {
      ExtraInBounds(msg, off);
      FindInBounds(n - 1, msg, UnpackExtra(msg, off).off1, off);
    }
  }

  lemma ExtraInBounds(msg: str, off: nat)
    ensures UnpackExtra(msg, off).err == NoError ==> off <= |msg|
  {
    hide UnpackTsig, UnpackData, UnpackHeader;
    HeaderInBounds(msg, off);
  }

  lemma HeaderInBounds(msg: str, off: nat)
    ensures UnpackHeader(msg, off).err == NoError ==> off <= |msg|
  {
    hide GetU16, GetU32, NameString, LabelsLen;
    if off > |msg| {
      assert UnpackName(msg, off).err == ErrBuf;
    }
  }

  lemma StripInBounds(msg: str)
    ensures Strip(msg).err == NoError ==> Strip(msg).off <= |msg|
  {
    hide FindTsig, ReadRRs, SkipQuestions, UnpackMsgHdr;
    var h := UnpackMsgHdr(msg, 0);
    var q := SkipQuestions(h.h.qd, msg, h.off1);
    var a := ReadRRs(h.h.an, msg, q.off1);
    var n := ReadRRs(h.h.ns, msg, a.off1);
    FindInBounds(h.h.ar, msg, n.off1, 0);
  }

  lemma {:induction false} FindNone(n: nat, msg: str, off: nat, at: nat)
    ensures !FindTsig(n, msg, off, at).found ==> FindTsig(n, msg, off, at).t == NO_TSIG
    decreases n
  {
    hide UnpackExtra;
    if n > 0 {
      FindNone(n - 1, msg, UnpackExtra(msg, off).off1, off);
    }
  }

  /** Without a TSIG record there is an empty one, whose algorithm is none of those known. */
  lemma UnfoundIs(msg: str)
    ensures !Strip(msg).found ==> Strip(msg).t == NO_TSIG
    ensures !KnownAlgorithm(LowerAll(NO_TSIG.algorithm))
  {
    hide FindTsig, ReadRRs, SkipQuestions, UnpackMsgHdr;
    var h := UnpackMsgHdr(msg, 0);
    var q := SkipQuestions(h.h.qd, msg, h.off1);
    var a := ReadRRs(h.h.an, msg, q.off1);
    var n := ReadRRs(h.h.ns, msg, a.off1);
    FindNone(h.h.ar, msg, n.off1, 0);
  }

  /** What a name reads as fits, or there is none. */
  lemma ReadName(msg: str, off: nat)
    ensures UnpackName(msg, off).err == NoError ==> FitName(UnpackName(msg, off).name)
  {
    hide NameString, Parse, LabelsLen, Walk;
    WalkInBounds(msg, off, MAX_POINTERS);
    var w := Walk(msg, off, MAX_POINTERS);
    if w.Walked? { NameStringLabels(w.labels); }
  }

  /** The fields of a record that can be read: names that fit, and hexadecimal text. */
  predicate Readable(t: TsigRR) {
    && FitName(t.name) && (t.algorithm == [] || FitName(t.algorithm))
    && HexDecode(t.mac).Some? && HexDecode(t.otherData).Some?
  }

  lemma OtherReadable(t: TsigRR, msg: str, off: nat)
    requires Readable(t)
    ensures Readable(UnpackOther(t, msg, off).t)
  {
    hide FitName, HexEncode, HexDecode, GetU16;
    HexNothing();
    var e := UnpackUint16(msg, UnpackUint16(msg, off).off1);
    var l := UnpackUint16(msg, e.off1);
    if l.off1 + l.i <= |msg| { HexRoundTrip(msg[l.off1..l.off1 + l.i]); }
  }

  lemma MacReadable(t: TsigRR, msg: str, off: nat)
    requires Readable(t)
    ensures Readable(UnpackMac(t, msg, off).t)
  {
    hide FitName, HexEncode, HexDecode, GetU16, UnpackOther;
    HexNothing();
    var s := UnpackUint16(msg, off);
    if s.off1 + s.i <= |msg| { HexRoundTrip(msg[s.off1..s.off1 + s.i]); }
    var m := UnpackStringHex(msg, s.off1, s.off1 + s.i);
    var t1 := t.(macSize := s.i, mac := m.s);
    assert Readable(t1);
    OtherReadable(t1, msg, m.off1);
  }

  lemma TsigReadable(h: Header, msg: str, off: nat)
    requires FitName(h.name)
    ensures UnpackTsig(h, msg, off).err == NoError ==> Readable(UnpackTsig(h, msg, off).t)
  {
    hide FitName, HexEncode, HexDecode, GetU16, GetU48, UnpackMac, UnpackName;
    HexNothing();
    ReadName(msg, off);
    var n := UnpackName(msg, off);
    if h.rdlength != 0 && n.err == NoError && n.off1 != |msg| {
      var t := Blank(h).(algorithm := n.name);
      var a := UnpackUint48(msg, n.off1);
      var f := UnpackUint16(msg, a.off1);
      MacReadable(t.(timeSigned := a.i, fudge := f.i), msg, f.off1);
    }
  }

  lemma ExtraReadable(msg: str, off: nat)
    ensures var e := UnpackExtra(msg, off); e.err == NoError && e.tsig.Some? ==> Readable(e.tsig.value)
  {
    hide Readable, UnpackTsig, UnpackRR, GetU16, GetU32, FitName, UnpackName;
    var r := UnpackHeader(msg, off);
    ReadName(msg, off);
    if r.err == NoError && off != |msg| {
      assert r.h.name == UnpackName(msg, off).name;
      TsigReadable(r.h, r.msg, r.off1);
    }
  }

  lemma {:induction false} FoundReadable(n: nat, msg: str, off: nat, at: nat)
    ensures FindTsig(n, msg, off, at).found ==> Readable(FindTsig(n, msg, off, at).t)
    decreases n
  {
    hide Readable, UnpackExtra;
    if n > 0 {
      ExtraReadable(msg, off);
      FoundReadable(n - 1, msg, UnpackExtra(msg, off).off1, off);
    }
  }

  /** A TSIG record that is found can be hashed, whatever its fields. */
  lemma FoundIs(msg: str, now: uint64)
    ensures Strip(msg).found ==> HashableTsig(Defaulted(Strip(msg).t, now)) && HexDecode(Strip(msg).t.mac).Some?
  {
    hide FindTsig, ReadRRs, SkipQuestions, UnpackMsgHdr, FitName, LowerAll, HexDecode;
    var h := UnpackMsgHdr(msg, 0);
    var q := SkipQuestions(h.h.qd, msg, h.off1);
    var a := ReadRRs(h.h.an, msg, q.off1);
    var n := ReadRRs(h.h.ns, msg, a.off1);
    FoundReadable(h.h.ar, msg, n.off1, 0);
    if Strip(msg).found {
      var t := Strip(msg).t;
      LowerFits(t.name);
      EmptyLower();
      if t.algorithm != [] { LowerFits(t.algorithm); }
    }
  }

  // ---------- What was signed verifies ----------

  /** stripTsig passes over the questions as Unpack does, error or not. */
  lemma {:induction false} SkipSame(n: nat, msg: str, off: nat)
    ensures SkipQuestions(n, msg, off) == Skipped(ReadQuestions(n, msg, off).off1, ReadQuestions(n, msg, off).err)
    decreases n
  {
    hide UnpackQuestion;
    if n > 0 {
      var q := UnpackQuestion(msg, off);
      SkipSame(n - 1, msg, q.off1);
      if q.err == NoError && q.off1 == off {
        SkipStuck(n, msg, off);
      }
    }
  }

  lemma {:induction false} SkipStuck(n: nat, msg: str, off: nat)
    requires UnpackQuestion(msg, off).err == NoError && UnpackQuestion(msg, off).off1 == off
    ensures SkipQuestions(n, msg, off) == Skipped(off, NoError)
    decreases n
  {
    hide UnpackQuestion;
    if n > 0 {
      SkipStuck(n - 1, msg, off);
    }
  }

  lemma PlainExtra(msg: str, off: nat)
    requires UnpackRR(msg, off).err == NoError && UnpackRR(msg, off).rr.Some?
    ensures UnpackExtra(msg, off) == ExtraRead(None, UnpackRR(msg, off).off1, NoError)
  {
    hide UnpackHeader, UnpackData, UnpackTsig;
  }

  /** Behind k readable records of other types the TSIG record is found. */
  lemma {:induction false} FindPast(k: nat, msg: str, off: nat, at: nat, t: TsigRR)
    requires ReadRRs(k, msg, off).err == NoError && |ReadRRs(k, msg, off).rrs| == k
    requires var e := UnpackExtra(msg, ReadRRs(k, msg, off).off1); e.err == NoError && e.tsig == Some(t)
    ensures FindTsig(k + 1, msg, off, at) == Stripped(ReadRRs(k, msg, off).off1, t, true, NoError)
    decreases k
  {
    hide UnpackRR, UnpackExtra;
    if k > 0 {
      PlainExtra(msg, off);
      FindPast(k - 1, msg, UnpackRR(msg, off).off1, off, t);
    }
  }

  lemma PointersExtra(msg: str, off: nat)
    requires UnpackRR(msg, off).err == ErrPointers
    ensures UnpackExtra(msg, off).err == ErrPointers
  {
    hide UnpackHeader, UnpackData, UnpackTsig;
  }

  /** Behind records one of which has a name that cannot be reached, it is not. */
  lemma {:induction false} FindFails(k: nat, msg: str, off: nat, at: nat)
    requires ReadRRs(k, msg, off).err == ErrPointers
    ensures FindTsig(k + 1, msg, off, at).err == ErrPointers
    decreases k
  {
    hide UnpackRR, UnpackExtra;
    if k > 0 {
      if UnpackRR(msg, off).err == NoError {
        PlainExtra(msg, off);
        FindFails(k - 1, msg, UnpackRR(msg, off).off1, off);
      } else {
        PointersExtra(msg, off);
      }
    }
  }

  lemma PutHeader(w: WireHeader, rest: str, n: uint16)
    ensures PutCount(HeaderBytes(w) + rest, n) == HeaderBytes(w.(ar := n)) + rest
  {
    hide U16;
    var h := HeaderBytes(w);
    assert (h + rest)[..10] == h[..10] == HeaderBytes(w.(ar := n))[..10];
    assert (h + rest)[12..] == rest;
    assert HeaderBytes(w.(ar := n)) == HeaderBytes(w.(ar := n))[..10] + U16(n);
  }

  lemma RestoreHeader(w: WireHeader, rest: str)
    requires w.ar >= 1
    ensures Restored(HeaderBytes(w) + rest) == HeaderBytes(w.(ar := w.ar - 1)) + rest
  {
    hide HeaderBytes, GetU16, U16;
    HeaderBack(w, rest);
    assert GetU16(HeaderBytes(w) + rest, 10) == w.ar by { ArIs(HeaderBytes(w) + rest, w); }
    PutHeader(w, rest, w.ar - 1);
  }

  lemma ArIs(msg: str, w: WireHeader)
    requires UnpackMsgHdr(msg, 0) == HeaderRead(w, 12, NoError)
    ensures 12 <= |msg| && GetU16(msg, 10) == w.ar
  {
  }

  lemma RcodeBits(h: MsgHdr)
    requires 0 <= h.rcode <= 0xF
    ensures Bits(h) % 16 == h.rcode
  {
    hide Bit, OpLow, OpTop;
  }

  /** Stripping the record that was appended to a message gives that record and the message without it, unless
      the message has the rcode NOTAUTH, or names that cannot be reached. */
  lemma StripEmitted(m: Msg, t: TsigRR)
    requires GoodMsg(m) && CountsFit(m) && |m.extra| + 1 < 0x1_0000
    requires GoodTsig(t) && Sized(t)
    ensures var wire := Emitted(Packed(m), t, |m.extra| + 1);
            && |wire| >= |Packed(m)|
            && Restored(wire)[..|Packed(m)|] == Packed(m)
            && if m.hdr.rcode == RCODE_NOT_AUTH then Strip(wire).err == ErrAuth
               else if !MsgReach(m) then Strip(wire).err == ErrPointers
               else Strip(wire) == Stripped(|Packed(m)|, PrintedTsig(t), true, NoError)
  {
    hide *;
    var n := |m.extra| + 1;
    EmittedIs(Packed(m), t, n);
    PackedIs(m);
    HeaderIs(m);
    MsgIsParts(m);
    var w := HeaderOf(m);
    var w1 := w.(ar := n);
    var rest := Parts(m) + TsigBytes(t);
    Concat3(HeaderBytes(w), Parts(m), TsigBytes(t));
    PutHeader(w, rest, n);
    var h := HeaderBytes(w1);
    var wire := h + rest;
    Concat3(h, Parts(m), TsigBytes(t));
    HeaderBack(w1, rest);
    RcodeBits(m.hdr);
    NotAuthIs();
    PartsBack(h, m, TsigBytes(t));
    StripShape(wire, w1);
    RestoreHeader(w1, rest);
    assert w1.(ar := w1.ar - 1) == w;
    var q := ReadQuestions(|m.question|, wire, 12);
    var a := ReadRRs(|m.answer|, wire, q.off1);
    var x := ReadRRs(|m.ns|, wire, a.off1);
    var e := ReadRRs(|m.extra|, wire, x.off1);
    SkipSame(|m.question|, wire, 12);
    if MsgReach(m) {
      EchoLens(m);
      TsigReads(h + Parts(m), t);
      FindPast(|m.extra|, wire, x.off1, 0, PrintedTsig(t));
    } else {
      FirstIs(q.err, a.err, x.err, e.err);
      if e.err == ErrPointers { FindFails(|m.extra|, wire, x.off1, 0); }
    }
  }

  lemma NotAuthIs()
    ensures RCODE_NOT_AUTH == 9
  {
  }

  lemma PackedIs(m: Msg)
    requires FitMsg(m)
    ensures Packed(m) == PackMsg(m).bytes
  {
    hide PackMsg, FitMsg;
  }

  /** As many come back as were packed. */
  lemma EchoLens(m: Msg)
    requires GoodMsg(m)
    ensures |PrintedQuestions(m.question)| == |m.question| && |AnswerBack(m)| == |m.answer| && |NsBack(m)| == |m.ns|
            && |ExtraBack(m)| == |m.extra|
  {
    hide GoodMsg, QuestionPart, AnswerPart, NsPart, GoodRecs;
    GoodSections(m);
  }

  lemma StripShape(msg: str, w: WireHeader)
    requires UnpackMsgHdr(msg, 0) == HeaderRead(w, 12, NoError) && w.ar != 0
    ensures var q := SkipQuestions(w.qd, msg, 12);
            var a := ReadRRs(w.an, msg, q.off1);
            var n := ReadRRs(w.ns, msg, a.off1);
            if w.bits % 16 == RCODE_NOT_AUTH then Strip(msg).err == ErrAuth
            else if q.err != NoError then Strip(msg).err == q.err
            else if a.err != NoError then Strip(msg).err == a.err
            else if n.err != NoError then Strip(msg).err == n.err
            else Strip(msg) == FindTsig(w.ar, msg, n.off1, 0)
  {
    hide SkipQuestions, ReadRRs, FindTsig, UnpackMsgHdr;
  }

  lemma U16Injective(a: uint16, b: uint16)
    ensures U16(a) == U16(b) ==> a == b
  {
    GetU16Put(U16(a), 0, a);
    assert U16(a)[0..2] == U16(a);
    if U16(a) == U16(b) {
      GetU16Put(U16(a), 0, b);
    }
  }

  lemma U32Injective(a: uint32, b: uint32)
    ensures U32(a) == U32(b) ==> a == b
  {
    hide U32;
    assert U32(a)[0..4] == U32(a);
    GetU32Put(U32(a), 0, a);
    if U32(a) == U32(b) {
      GetU32Put(U32(a), 0, b);
    }
  }

  lemma LowBits(n: uint64)
    ensures U48(n % 0x1_0000_0000_0000) == U48(n)
  {
    hide U16, U32;
    LowParts(n / 0x1_0000_0000_0000, n % 0x1_0000_0000_0000);
  }

  lemma LowParts(q: nat, r: nat)
    requires r < 0x1_0000_0000_0000
    ensures var n := q * 0x1_0000_0000_0000 + r;
            n % 0x1_0000_0000 == r % 0x1_0000_0000 && n / 0x1_0000_0000 % 0x1_0000 == r / 0x1_0000_0000 % 0x1_0000
  {
    var n, hi := q * 0x1_0000_0000_0000 + r, r / 0x1_0000_0000;
    DivIs(n, 0x1_0000_0000, q * 0x1_0000 + hi, r % 0x1_0000_0000);
    DivIs(q * 0x1_0000 + hi, 0x1_0000, q, hi);
  }

  /** Fields of fixed size around common text: equal exactly when field by field equal. */
  lemma FieldsAgree(n: str, t: str, t1: str, a: str, e: str, e1: str, l: str, l1: str, x: str)
    requires |t| == |t1| == 4 && |e| == |e1| == |l| == |l1| == 2
    ensures n + t + a + e + l + x == n + t1 + a + e1 + l1 <==> t == t1 && e == e1 && l == l1 && x == []
  {
    var p, q := n + t + a + e + l + x, n + t1 + a + e1 + l1;
    if p == q {
      var k := |n|;
      assert |x| == 0;
      assert p[k..k + 4] == t && q[k..k + 4] == t1;
      k := k + 4 + |a|;
      assert p[k..k + 2] == e && q[k..k + 2] == e1;
      assert p[k + 2..k + 4] == l && q[k + 2..k + 4] == l1;
    } else if x == [] {
      assert p == n + t + a + e + l;
    }
  }

  /** The stub carries nothing that the emitted record leaves out. */
  predicate PlainStub(d: TsigRR) {
    d.ttl == 0 && d.error == 0 && d.otherLen == 0 && HexBytes(d.otherData) == []
  }

  lemma Rewire(d: TsigRR)
    requires GoodTsig(d)
    ensures var n, c, a := Wire(Labels(LowerAll(d.name))), U16(CLASS_ANY), Wire(Labels(LowerAll(d.algorithm)));
            TsigWire(d) == n + (c + U32(d.ttl) + (a + U48(d.timeSigned) + U16(d.fudge)) + U16(d.error) + U16(d.otherLen)
                                + HexBytes(d.otherData))
  {
    hide FitName, Parse, Labels, Wire, LowerAll, HexBytes, U16, U32, U48, HexDecode, TsigWire;
    TsigWireParts(d);
    var n, c, a := Wire(Labels(LowerAll(d.name))), U16(CLASS_ANY), Wire(Labels(LowerAll(d.algorithm)));
    Regroup6(n, c, U32(d.ttl), a, U48(d.timeSigned), U16(d.fudge), U16(d.error), U16(d.otherLen),
             HexBytes(d.otherData));
  }

  lemma Regroup6(n: str, c: str, t: str, a: str, s: str, f: str, e: str, l: str, x: str)
    ensures n + c + t + a + s + f + e + l + x == n + (c + t + (a + s + f) + e + l + x)
  {
  }

  /** Names on the wire end where they end, so equal octets mean equal names. */
  lemma {:induction false} WirePrefix(a: seq<Label>, b: seq<Label>, x: str, y: str)
    requires ValidLabels(a) && ValidLabels(b) && ShortLabels(a) && ShortLabels(b)
    ensures Wire(a) + x == Wire(b) + y <==> a == b && x == y
    decreases |a|
  {
    var p, q := Wire(a) + x, Wire(b) + y;
    WireStart(a, x);
    WireStart(b, y);
    if p == q {
      if a == [] || b == [] {
        assert p[1..] == q[1..];
      } else {
        var n := |a[0]|;
        assert p[1..1 + n] == q[1..1 + n] && p[1 + n..] == q[1 + n..];
        assert forall l | l in a[1..] :: l in a;
        assert forall l | l in b[1..] :: l in b;
        WirePrefix(a[1..], b[1..], x, y);
        assert a == [a[0]] + a[1..] && b == [b[0]] + b[1..];
      }
    }
  }

  lemma WireStart(a: seq<Label>, x: str)
    requires ValidLabels(a) && ShortLabels(a)
    ensures var p := Wire(a) + x;
            |p| >= 1 &&
            if a == [] then p[0] == 0 && p[1..] == x
            else var n := |a[0]|;
                 1 <= n == p[0] as int && 1 + n <= |p| && p[1..1 + n] == a[0] && ShortLabels(a[1..])
                   && p[1 + n..] == Wire(a[1..]) + x
  {
    if a != [] {
      assert a[0] in a;
      assert forall l | l in a[1..] :: l in a;
      WireMore(a);
      hide Wire, LabelBytes;
      Concat3([|a[0]|] + a[0], Wire(a[1..]), x);
    }
  }

  /** The names of known algorithms are printed as they are written. */
  lemma AlgorithmPrinted(a: str)
    requires FitName(a) && KnownAlgorithm(LowerAll(a))
    ensures Printed(a) == a
  {
    hide WrittenOut, Clear, Printed;
    KnownClear();
    forall c | c in a
      ensures c == DOT || (IsPrintable(c) && !IsSpecial(c))
    {
      var k :| 0 <= k < |a| && a[k] == c;
      assert LowerAll(a)[k] == Lower(c);
      assert Lower(c) in LowerAll(a);
    }
    assert Clear(a) by { AllClear(a); }
    ClearNames(a);
    PrintedSame(a);
  }

  lemma AllClear(a: str)
    requires forall c | c in a :: c == DOT || (IsPrintable(c) && !IsSpecial(c))
    ensures Clear(a) && NoBackslash(a)
  {
  }

  lemma KnownClear()
    ensures forall a: str, c | KnownAlgorithm(a) && c in a :: c == DOT || c == 45 || 48 <= c <= 57 || 97 <= c <= 122
  {
  }

  /** Signer and verifier hash the same octets, if and only if only the timers are hashed, or the stub has no
      TTL, no error and no other data, which TsigGenerate hashes but does not send, and no capital of the key's
      name is written as a \DDD escape, which lower case does not reach until the name is printed again. */
  lemma MacInputsAgree(msg: str, d: TsigRR, id: uint16, mac: str, requestMAC: str, timersOnly: bool)
    requires GoodTsig(d) && |mac| <= MAX_MAC && KnownAlgorithm(LowerAll(d.algorithm))
    ensures var t := PrintedTsig(SignedTsig(d, id, mac));
            && GoodTsig(t)
            && (MacInput(msg, t, requestMAC, timersOnly) == MacInput(msg, d, requestMAC, timersOnly)
                <==> timersOnly || (PlainStub(d) && !CodedUpper(d.name)))
  {
    hide FitName, Parse, Labels, Wire, LowerAll, HexBytes, U16, U32, U48, HexDecode, HexEncode, MacWire, TsigWire,
         Printed,
         CodedUpper, KnownAlgorithm, ValidLabels, ShortLabels;
    var t := PrintedTsig(SignedTsig(d, id, mac));
    SignedGood(d, id, mac);
    HexRoundTrip(mac);
    HexNothing();
    NoData();
    LowBits(d.timeSigned);
    AlgorithmPrinted(d.algorithm);
    PrintedLower(d.name);
    if !timersOnly {
      LowerFits(d.name);
      TsigWireParts(d);
      NamesValid(d.name);
      Rewire(d);
      Rewire(t);
      var c, a := U16(CLASS_ANY), Wire(Labels(LowerAll(d.algorithm)));
      var s := a + U48(d.timeSigned) + U16(d.fudge);
      FieldsAgree(c, U32(d.ttl), U32(0), s, U16(d.error), U16(0), U16(d.otherLen), U16(0), HexBytes(d.otherData));
      U32Injective(d.ttl, 0);
      U16Injective(d.error, 0);
      U16Injective(d.otherLen, 0);
      var z := c + U32(0) + s + U16(0) + U16(0);
      assert z + [] == z;
      WirePrefix(Labels(LowerAll(Printed(d.name))), Labels(LowerAll(d.name)), z,
                 c + U32(d.ttl) + s + U16(d.error) + U16(d.otherLen) + HexBytes(d.otherData));
      var head := (if requestMAC != [] then MacWire(requestMAC) else []) + msg;
      SamePrefix(head, TsigWire(t), TsigWire(d));
    }
  }

  lemma NamesValid(s: str)
    requires FitName(LowerAll(s)) && FitName(LowerAll(Printed(s)))
    ensures Parse(LowerAll(s)).Good? && Parse(LowerAll(Printed(s))).Good?
    ensures ValidLabels(Labels(LowerAll(s))) && ValidLabels(Labels(LowerAll(Printed(s))))
    ensures ShortLabels(Labels(LowerAll(s))) && ShortLabels(Labels(LowerAll(Printed(s))))
  {
    hide Parse, LowerAll, Printed;
  }

  lemma NoData()
    ensures HexBytes([]) == [] && HexEncode([]) == []
  {
  }

  lemma SamePrefix(h: str, x: str, y: str)
    ensures h + x == h + y <==> x == y
  {
    assert (h + x)[|h|..] == x && (h + y)[|h|..] == y;
  }

  /** Signer and verifier hash the same octets. */
  predicate Agrees(d: TsigRR, timersOnly: bool) {
    timersOnly || (PlainStub(d) && !CodedUpper(d.name))
  }

  predicate InTime(d: TsigRR, now: uint64) {
    (if now < d.timeSigned then d.timeSigned - now else now - d.timeSigned) <= d.fudge
  }

  /** Whatever the keyed hash is: TsigVerify refuses what TsigGenerate signed when its rcode is NOTAUTH, when a
      name leads through too many pointers, and when the clock is off by more than the fudge. Otherwise it
      accepts it exactly when the hash of what it rebuilds is the MAC, and what it rebuilds are the octets that
      were hashed exactly when Agrees holds. */
  lemma SignedVerifies(m: Msg, d: TsigRR, hash: Hash, requestMAC: str, timersOnly: bool, now: uint64)
    requires GoodMsg(m) && CountsFit(m) && |m.extra| + 1 < 0x1_0000 && GoodTsig(d)
    requires 0 < d.timeSigned < 0x1_0000_0000_0000 && d.fudge > 0
    requires Signable(m, d, hash, requestMAC, timersOnly)
    ensures var wire := Signed(m, d, hash, requestMAC, timersOnly);
            var t := PrintedTsig(SignedRecord(m, d, hash, requestMAC, timersOnly));
            && HashableTsig(t)
            && var input := MacInput(Packed(m), t, requestMAC, timersOnly);
               && (input == MacInput(Packed(m), d, requestMAC, timersOnly) <==> Agrees(d, timersOnly))
               && Verdict(wire, hash, requestMAC, timersOnly, now)
                  == (if m.hdr.rcode == RCODE_NOT_AUTH then ErrAuth
                      else if !MsgReach(m) then ErrPointers
                      else if !InTime(d, now) then ErrTime
                      else if hash(LowerAll(d.algorithm), input) != MacOf(m, d, hash, requestMAC, timersOnly)
                      then ErrSig
                      else NoError)
  {
    hide *;
    var mac := MacOf(m, d, hash, requestMAC, timersOnly);
    SignableParts(m, d, hash, requestMAC, timersOnly);
    SignedIs(m, d, hash, requestMAC, timersOnly);
    var t := SignedRecord(m, d, hash, requestMAC, timersOnly);
    StripEmitted(m, t);
    MaxMacIs();
    MacInputsAgree(Packed(m), d, m.hdr.id, mac, requestMAC, timersOnly);
    AgreesIs(d, timersOnly);
    GoodTsigParts(d);
    AlgorithmPrinted(d.algorithm);
    var wire := Signed(m, d, hash, requestMAC, timersOnly);
    VerdictIs(wire, hash, requestMAC, timersOnly, now);
    CheckedIs(d, m.hdr.id, mac, MacInput(Packed(m), PrintedTsig(t), requestMAC, timersOnly), hash, now);
  }

  /** So with a stub on which they agree, TsigVerify accepts what TsigGenerate signed if and only if the rcode is
      not NOTAUTH, every name can be reached, and the clock is within the fudge. */
  lemma AgreedVerifies(m: Msg, d: TsigRR, hash: Hash, requestMAC: str, timersOnly: bool, now: uint64)
    requires GoodMsg(m) && CountsFit(m) && |m.extra| + 1 < 0x1_0000 && GoodTsig(d)
    requires 0 < d.timeSigned < 0x1_0000_0000_0000 && d.fudge > 0
    requires Signable(m, d, hash, requestMAC, timersOnly) && Agrees(d, timersOnly)
    ensures Verdict(Signed(m, d, hash, requestMAC, timersOnly), hash, requestMAC, timersOnly, now) == NoError
            <==> m.hdr.rcode != 9 && MsgReach(m)
                 && d.timeSigned as int - d.fudge as int <= now as int <= d.timeSigned as int + d.fudge as int
  {
    hide *;
    InTimeIs(d, now);
    SignedVerifies(m, d, hash, requestMAC, timersOnly, now);
    SignableParts(m, d, hash, requestMAC, timersOnly);
    PackedIs(m);
  }

  /** With any other stub there is a keyed hash under which it refuses it. */
  lemma DisagreedRefused(m: Msg, d: TsigRR, requestMAC: str, timersOnly: bool, now: uint64) returns (hash: Hash)
    requires GoodMsg(m) && CountsFit(m) && |m.extra| + 1 < 0x1_0000 && GoodTsig(d)
    requires KnownAlgorithm(LowerAll(d.algorithm))
    requires 0 < d.timeSigned < 0x1_0000_0000_0000 && d.fudge > 0 && !Agrees(d, timersOnly)
    ensures Signable(m, d, hash, requestMAC, timersOnly)
    ensures Verdict(Signed(m, d, hash, requestMAC, timersOnly), hash, requestMAC, timersOnly, now) != NoError
  {
    hide *;
    var input := MacInput(PackMsg(m).bytes, d, requestMAC, timersOnly);
    hash := (alg, x) => if x == input then [] else [0];
    TinyHash(m, d, hash, requestMAC, timersOnly);
    SignedVerifies(m, d, hash, requestMAC, timersOnly, now);
    SignableParts(m, d, hash, requestMAC, timersOnly);
    PackedIs(m);
  }

  lemma TinyHash(m: Msg, d: TsigRR, hash: Hash, requestMAC: str, timersOnly: bool)
    requires FitMsg(m) && GoodTsig(d) && KnownAlgorithm(LowerAll(d.algorithm))
    requires hash(LowerAll(d.algorithm), MacInput(PackMsg(m).bytes, d, requestMAC, timersOnly)) == []
    ensures Signable(m, d, hash, requestMAC, timersOnly)
  {
    hide FitMsg, GoodTsig, MacInput, PackMsg, KnownAlgorithm;
  }

  /** What is refused before any record is looked at. */
  lemma StripRefuses(msg: str)
    ensures |msg| < 12 ==> Strip(msg).err == ErrOverflow
    ensures |msg| >= 12 && msg[10] == 0 && msg[11] == 0 ==> Strip(msg).err == ErrNoSig
    ensures |msg| >= 12 && (msg[10] != 0 || msg[11] != 0) && msg[3] % 16 == 9 ==> Strip(msg).err == ErrAuth
  {
    hide SkipQuestions, ReadRRs, FindTsig;
    if |msg| >= 12 {
      assert GetU16(msg, 2) % 16 == msg[3] % 16;
      assert GetU16(msg, 10) == 0 <==> msg[10] == 0 && msg[11] == 0;
    }
  }

  lemma InTimeIs(d: TsigRR, now: uint64)
    ensures RCODE_NOT_AUTH == 9
    ensures InTime(d, now)
            <==> d.timeSigned as int - d.fudge as int <= now as int <= d.timeSigned as int + d.fudge as int
  {
  }

  lemma AgreesIs(d: TsigRR, timersOnly: bool)
    ensures Agrees(d, timersOnly) <==> timersOnly || (PlainStub(d) && !CodedUpper(d.name))
  {
    hide PlainStub, CodedUpper;
  }

  lemma VerdictIs(wire: str, hash: Hash, requestMAC: str, timersOnly: bool, now: uint64)
    ensures var s, v := Strip(wire), Verdict(wire, hash, requestMAC, timersOnly, now);
            && (s.err != NoError ==> v == s.err)
            && (s.err == NoError && !s.found ==> v == ErrKeyAlg)
            && (s.err == NoError && s.found ==>
                  && HexDecode(s.t.mac).Some?
                  && 12 <= |wire| && s.off <= |wire| && HashableTsig(Defaulted(s.t, now))
                  && var d := Defaulted(s.t, now);
                     v == Checked(d, MacInput(Restored(wire)[..s.off], d, requestMAC, timersOnly), hash, now))
  {
    hide Strip, Restored, MacInput, Checked, HashableTsig, HexDecode;
    FoundIs(wire, now);
    StripInBounds(wire);
    FoundLong(wire);
  }

  lemma MaxMacIs()
    ensures MAX_MAC == 64
  {
  }

  lemma CheckedIs(d: TsigRR, id: uint16, mac: str, input: str, hash: Hash, now: uint64)
    requires Printed(d.algorithm) == d.algorithm
    requires 0 < d.timeSigned < 0x1_0000_0000_0000 && d.fudge > 0
    requires KnownAlgorithm(LowerAll(d.algorithm))
    ensures var t := PrintedTsig(SignedTsig(d, id, mac));
            && Defaulted(t, now) == t
            && Checked(t, input, hash, now)
               == if !InTime(d, now) then ErrTime
                  else if hash(LowerAll(d.algorithm), input) != mac then ErrSig else NoError
  {
    hide HexDecode, HexEncode, LowerAll, KnownAlgorithm, Printed;
    HexRoundTrip(mac);
  }
}
