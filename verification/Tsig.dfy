/** Transaction signatures (tsig.go; RFC 2845): the TSIG record and the octets that its MAC is taken of. */
module Tsig {
  import opened Bytes
  import opened Hex
  import opened Names
  import opened PackNames
  import opened UnpackNames
  import opened LabelOps
  import opened Records
  import opened Messages

  const TYPE_TSIG: uint16 := 250
  const CLASS_ANY: uint16 := 255
  const DEFAULT_FUDGE: uint16 := 300
  const DEFAULT_MSG_SIZE := 4096

  type uint48 = n: int | 0 <= n < 0x1_0000_0000_0000
  type uint64 = n: int | 0 <= n < 0x1_0000_0000_0000_0000

  datatype TsigRR = TsigRR(
    name: str, cls: uint16, ttl: uint32, algorithm: str, timeSigned: uint64, fudge: uint16, macSize: uint16, mac: str,
    origId: uint16, error: uint16, otherLen: uint16, otherData: str)

  // ---------- 48-bit integers and hexadecimal fields ----------

  /** The low 48 bits of a time. */
  function U48(n: uint64): (b: str)
    ensures |b| == 6
  {
    U16(n / 0x1_0000_0000 % 0x1_0000) + U32(n % 0x1_0000_0000)
  }

  function GetU48(msg: str, off: nat): uint48
    requires off + 6 <= |msg|
  {
    GetU16(msg, off) as int * 0x1_0000_0000 + GetU32(msg, off + 2)
  }

  /** The six octets are the digits of the number to the base of 256, most significant first. */
  lemma GetU48Is(msg: str, off: nat)
    requires off + 6 <= |msg|
    ensures GetU48(msg, off) as int
            == msg[off] as int * 0x100_0000_0000 + msg[off + 1] as int * 0x1_0000_0000
               + msg[off + 2] as int * 0x100_0000 + msg[off + 3] as int * 0x1_0000 + msg[off + 4] as int * 0x100
               + msg[off + 5] as int
  {
    BigEndianRead(msg, off);
    BigEndianRead(msg, off + 2);
  }

  lemma GetU48Put(msg: str, off: nat, n: uint64)
    requires off + 6 <= |msg| && msg[off..off + 6] == U48(n)
    ensures GetU48(msg, off) == n % 0x1_0000_0000_0000
  {
    hide GetU16, GetU32, U16, U32;
    var b := msg[off..off + 6];
    assert msg[off..off + 2] == b[..2] == U16(n / 0x1_0000_0000 % 0x1_0000);
    assert msg[off + 2..off + 6] == b[2..] == U32(n % 0x1_0000_0000);
    GetU16Put(msg, off, n / 0x1_0000_0000 % 0x1_0000);
    GetU32Put(msg, off + 2, n % 0x1_0000_0000);
  }

  method PackUint48(i: uint64, msg: array<byte>, off: nat) returns (off1: nat, err: Error)
    modifies msg
    ensures if off + 6 > msg.Length then off1 == msg.Length && err == ErrOverflow && msg[..] == old(msg[..])
            else off1 == off + 6 && err == NoError && Kept(old(msg[..]), msg[..], off) && msg[off..off1] == U48(i)
                 && msg[off1..] == old(msg[off1..])
  {
    if off + 6 > msg.Length {
      return msg.Length, ErrOverflow;
    }
    var hi, lo: uint32 := i / 0x1_0000_0000 % 0x1_0000, i % 0x1_0000_0000;
    msg[off], msg[off + 1] := hi / 256, hi % 256;
    msg[off + 2], msg[off + 3] := lo / 0x1_0000 / 256, lo / 0x1_0000 % 256;
    msg[off + 4], msg[off + 5] := lo % 0x1_0000 / 256, lo % 0x1_0000 % 256;
    return off + 6, NoError;
  }

  /** The octets of a hexadecimal field; none when it is not hexadecimal. */
  function HexBytes(s: str): str {
    match HexDecode(s)
    case Some(b) => b
    case None => []
  }

  method PackStringHex(s: str, msg: array<byte>, off: nat) returns (off1: nat, err: Error)
    modifies msg
    ensures var h := HexDecode(s);
            if h.None? || off + |h.value| > msg.Length then
              off1 == msg.Length && err != NoError && msg[..] == old(msg[..])
            else
              && off1 == off + |h.value| && err == NoError && Kept(old(msg[..]), msg[..], off)
              && msg[off..off1] == h.value && msg[off1..] == old(msg[off1..])
  {
    var h := HexDecode(s);
    if h == None {
      return msg.Length, ErrHex;
    }
    if off + |h.value| > msg.Length {
      return msg.Length, ErrOverflow;
    }
    CopyInto(h.value, msg, off);
    return off + |h.value|, NoError;
  }

  // ---------- What the MAC is taken of ----------

  /** packMacWire into a buffer as long as the hexadecimal request MAC. */
  function MacWire(requestMAC: str): (b: str)
    ensures |b| <= |requestMAC|
  {
    var n := |requestMAC|;
    if n < 2 then seq(n, _ => 0)
    else
      var size := U16(n / 2 % 0x1_0000);
      match HexDecode(requestMAC)
      case Some(h) => if 2 + |h| <= n then size + h else size + seq(n - 2, _ => 0)
      case None => size + seq(n - 2, _ => 0)
  }

  /** The octets of a name without compression; none for no name at all. */
  function WireOf(name: str): str
    requires name == [] || FitName(name)
  {
    if name == [] then [] else Wire(Labels(name))
  }

  /** The names that the MAC covers are missing, or fit in lower case. */
  predicate HashableTsig(t: TsigRR) {
    && (LowerAll(t.name) == [] || FitName(LowerAll(t.name)))
    && (LowerAll(t.algorithm) == [] || FitName(LowerAll(t.algorithm)))
  }

  /** The TSIG variables of section 3.4.2 of RFC 2845 up to the other data, with names in lower case. */
  function Variables(t: TsigRR): str
    requires HashableTsig(t)
  {
    WireOf(LowerAll(t.name)) + U16(CLASS_ANY) + U32(t.ttl) + WireOf(LowerAll(t.algorithm))
    + U48(t.timeSigned) + U16(t.fudge) + U16(t.error) + U16(t.otherLen)
  }

  /** All variables. Other data that is not hexadecimal, or does not fit in the scratch buffer, is an error that
      tsigBuffer ignores: it then takes the whole buffer. */
  function TsigWire(t: TsigRR): str
    requires HashableTsig(t)
  {
    var v := Variables(t);
    match HexDecode(t.otherData)
    case Some(h) => if |v| + |h| <= DEFAULT_MSG_SIZE then v + h else Padded(v)
    case None => Padded(v)
  }

  /** The scratch buffer with v at its front. */
  function Padded(v: str): str {
    v + seq(if |v| < DEFAULT_MSG_SIZE then DEFAULT_MSG_SIZE - |v| else 0, _ => 0)
  }

  /** Only time and fudge, for the later messages of a stream. */
  function TimerWire(t: TsigRR): str {
    U48(t.timeSigned) + U16(t.fudge)
  }

  /** The TSIG record has names that pack, and data that fits the scratch buffer. */
  predicate GoodTsig(t: TsigRR): (good: bool)
    ensures good ==> HashableTsig(t)
  {
    && FitName(t.name) && FitName(t.algorithm)
    && FitName(LowerAll(t.name)) && FitName(LowerAll(t.algorithm))
    && HexDecode(t.mac).Some? && HexDecode(t.otherData).Some?
    && |t.mac| <= 0x2000 && |t.otherData| <= 0x1000
  }

  /** tsigBuffer fills in what the stub left open. */
  function Defaulted(t: TsigRR, now: uint64): TsigRR {
    t.(timeSigned := if t.timeSigned == 0 then now else t.timeSigned,
       fudge := if t.fudge == 0 then DEFAULT_FUDGE else t.fudge)
  }

  function MacInput(msgbuf: str, t: TsigRR, requestMAC: str, timersOnly: bool): str
    requires timersOnly || HashableTsig(t)
  {
    (if requestMAC != [] then MacWire(requestMAC) else []) + msgbuf + if timersOnly then TimerWire(t) else TsigWire(t)
  }

  // ---------- Writing field by field ----------

  /** From off on, acc is written, up to cur. */
  ghost predicate So(before: str, now: str, off: nat, cur: nat, acc: str) {
    Kept(before, now, off) && cur == off + |acc| <= |now| && now[off..cur] == acc
  }

  lemma SoStart(before: str, off: nat)
    requires off <= |before|
    ensures So(before, before, off, off, [])
  {
  }

  lemma SoStep(before: str, now: str, now1: str, off: nat, cur: nat, cur1: nat, acc: str, x: str)
    requires So(before, now, off, cur, acc) && Kept(now, now1, cur) && cur1 == cur + |x| <= |now1|
    requires now1[cur..cur1] == x
    ensures So(before, now1, off, cur1, acc + x)
  {
    KeptTrans(before, now, now1, off, cur);
    Splice(now, now1, off, cur, cur1, acc, x);
  }

  lemma SoEnd(before: str, now: str, off: nat, cur: nat, acc: str)
    requires So(before, now, off, cur, acc)
    ensures Kept(before, now, off) && cur == off + |acc| <= |now| && now[off..cur] == acc
  {
  }

  lemma GoodNameWire(s: str)
    requires FitName(s)
    ensures Parse(s).Good? && NameLen(s) <= 255
    ensures forall off: nat :: PackNamed(s, off, None, false) == Out(Wire(Labels(s)), None)
    ensures |Wire(Labels(s))| == NameLen(s)
  {
    hide ParseFrom, PackName, PackNamed;
    var ls := Labels(s);
    forall off: nat
      ensures PackNamed(s, off, None, false) == Out(Wire(ls), None)
    {
      PackNameWire(ls, off, false);
    }
  }

  /** A name without compression. */
  method PackPlainName(s: str, msg: array<byte>, off: nat) returns (off1: nat, err: Error)
    modifies msg
    ensures (s == [] || FitName(s)) && off + 255 <= msg.Length ==>
              && err == NoError && off1 == off + |WireOf(s)| <= msg.Length
              && Kept(old(msg[..]), msg[..], off) && msg[off..off1] == WireOf(s) && Beyond(msg, old(msg[..]), off1)
  {
    hide Parse, Labels, PackNamed, Wire, NameLen, Kept, FitName;
    off1, err := Records.PackDomainName(s, msg, off, null, false);
    if s != [] && FitName(s) { GoodNameWire(s); }
  }

  /** The buffer holds acc and behind it zeros. */
  ghost predicate Filled(now: str, acc: str) {
    |acc| <= |now| && now[..|acc|] == acc && forall k | |acc| <= k < |now| :: now[k] == 0
  }

  lemma FillStart(now: str)
    requires forall k | 0 <= k < |now| :: now[k] == 0
    ensures Filled(now, [])
  {
  }

  lemma FillStep(before: str, now: str, acc: str, x: str)
    requires Filled(before, acc) && |now| == |before| && |acc| + |x| <= |now|
    requires Kept(before, now, |acc|) && now[|acc|..|acc| + |x|] == x
    requires now[|acc| + |x|..] == before[|acc| + |x|..]
    ensures Filled(now, acc + x)
  {
    assert now[..|acc| + |x|] == now[..|acc|] + now[|acc|..|acc| + |x|];
    forall k | |acc| + |x| <= k < |now|
      ensures now[k] == 0
    {
      assert now[k] == now[|acc| + |x|..][k - |acc| - |x|] == before[k];
    }
  }

  lemma BeyondIs(msg: array<byte>, before: str, off: nat)
    requires Beyond(msg, before, off) && off <= msg.Length
    ensures |before| == msg.Length && msg[off..] == before[off..]
  {
  }

  lemma FilledAll(now: str, acc: str)
    requires Filled(now, acc) && |now| == DEFAULT_MSG_SIZE
    ensures now == Padded(acc)
  {
  }

  /** Into an empty scratch buffer; what it returns on an error is the length of the buffer. */
  method PackTsigWire(t: TsigRR, msg: array<byte>) returns (off: nat, err: Error)
    modifies msg
    ensures HashableTsig(t) && |old(msg[..])| == DEFAULT_MSG_SIZE && Filled(old(msg[..]), []) ==>
              off == |TsigWire(t)| <= msg.Length && msg[..off] == TsigWire(t)
  {
    hide *;
    ghost var good := HashableTsig(t) && |msg[..]| == DEFAULT_MSG_SIZE && Filled(msg[..], []);
    ghost var acc := [];
    if good { VariableParts(t); }
    off, err := FillName(LowerAll(t.name), msg, 0, acc);
    if err != NoError { return; }
    if good { acc := acc + WireOf(LowerAll(t.name)); }
    off, err := FillUint16(CLASS_ANY, msg, off, acc);
    if err != NoError { return; }
    acc := acc + U16(CLASS_ANY);
    off, err := FillUint32(t.ttl, msg, off, acc);
    if err != NoError { return; }
    acc := acc + U32(t.ttl);
    off, err := FillName(LowerAll(t.algorithm), msg, off, acc);
    if err != NoError { return; }
    if good { acc := acc + WireOf(LowerAll(t.algorithm)); }
    off, err := FillUint48(t.timeSigned, msg, off, acc);
    if err != NoError { return; }
    acc := acc + U48(t.timeSigned);
    off, err := FillUint16(t.fudge, msg, off, acc);
    if err != NoError { return; }
    acc := acc + U16(t.fudge);
    off, err := FillUint16(t.error, msg, off, acc);
    if err != NoError { return; }
    acc := acc + U16(t.error);
    off, err := FillUint16(t.otherLen, msg, off, acc);
    if err != NoError { return; }
    acc := acc + U16(t.otherLen);
    off, err := FillData(t.otherData, msg, off, acc);
    if good { StartNothing(t); WireCases(t); }
  }

  // The packers again, into a buffer that is filled up to off.

  method FillName(s: str, msg: array<byte>, off: nat, ghost acc: str) returns (off1: nat, err: Error)
    modifies msg
    ensures (s == [] || FitName(s)) && Filled(old(msg[..]), acc) && off == |acc| && off + 255 <= msg.Length ==>
              err == NoError && off1 == off + |WireOf(s)| && Filled(msg[..], acc + WireOf(s))
  {
    hide Filled, WireOf, FitName, Kept, Beyond;
    ghost var m := msg[..];
    off1, err := PackPlainName(s, msg, off);
    if (s == [] || FitName(s)) && Filled(m, acc) && off == |acc| && off + 255 <= msg.Length {
      BeyondIs(msg, m, off1);
      FillStep(m, msg[..], acc, WireOf(s));
    }
  }

  /** The last field; on an error the length of the buffer is returned. */
  method FillData(s: str, msg: array<byte>, off: nat, ghost acc: str) returns (off1: nat, err: Error)
    modifies msg
    ensures Filled(old(msg[..]), acc) && off == |acc| && msg.Length == DEFAULT_MSG_SIZE ==>
              var h := HexDecode(s);
              var all := if h.Some? && |acc| + |h.value| <= DEFAULT_MSG_SIZE then acc + h.value else Padded(acc);
              off1 == |all| <= msg.Length && msg[..off1] == all
  {
    hide Filled, HexDecode, Kept, Padded;
    ghost var m := msg[..];
    off1, err := PackStringHex(s, msg, off);
    if Filled(m, acc) && off == |acc| && msg.Length == DEFAULT_MSG_SIZE {
      FilledFront(m, acc);
      if err != NoError {
        FilledAll(m, acc);
        assert msg[..off1] == msg[..];
      } else {
        FillStep(m, msg[..], acc, HexDecode(s).value);
        FilledFront(msg[..], acc + HexDecode(s).value);
      }
    }
  }

  method FillUint16(n: uint16, msg: array<byte>, off: nat, ghost acc: str) returns (off1: nat, err: Error)
    modifies msg
    ensures Filled(old(msg[..]), acc) && off == |acc| && off + 2 <= msg.Length ==>
              err == NoError && off1 == off + 2 && Filled(msg[..], acc + U16(n))
  {
    hide Filled, U16, Kept;
    ghost var m := msg[..];
    off1, err := PackUint16(n, msg, off);
    if Filled(m, acc) && off == |acc| && off + 2 <= msg.Length { FillStep(m, msg[..], acc, U16(n)); }
  }

  method FillUint32(n: uint32, msg: array<byte>, off: nat, ghost acc: str) returns (off1: nat, err: Error)
    modifies msg
    ensures Filled(old(msg[..]), acc) && off == |acc| && off + 4 <= msg.Length ==>
              err == NoError && off1 == off + 4 && Filled(msg[..], acc + U32(n))
  {
    hide Filled, U32, Kept;
    ghost var m := msg[..];
    off1, err := PackUint32(n, msg, off);
    if Filled(m, acc) && off == |acc| && off + 4 <= msg.Length { FillStep(m, msg[..], acc, U32(n)); }
  }

  method FillUint48(n: uint64, msg: array<byte>, off: nat, ghost acc: str) returns (off1: nat, err: Error)
    modifies msg
    ensures Filled(old(msg[..]), acc) && off == |acc| && off + 6 <= msg.Length ==>
              err == NoError && off1 == off + 6 && Filled(msg[..], acc + U48(n))
  {
    hide Filled, U48, Kept;
    ghost var m := msg[..];
    off1, err := PackUint48(n, msg, off);
    if Filled(m, acc) && off == |acc| && off + 6 <= msg.Length { FillStep(m, msg[..], acc, U48(n)); }
  }

  lemma FilledFront(now: str, acc: str)
    requires Filled(now, acc)
    ensures |acc| <= |now| && now[..|acc|] == acc
  {
  }

  lemma StartNothing(t: TsigRR)
    requires HashableTsig(t)
    ensures [] + WireOf(LowerAll(t.name)) + U16(CLASS_ANY) + U32(t.ttl) + WireOf(LowerAll(t.algorithm))
            + U48(t.timeSigned)
            + U16(t.fudge) + U16(t.error) + U16(t.otherLen) == Variables(t)
  {
    hide FitName, WireOf, LowerAll, U16, U32, U48;
    assert [] + WireOf(LowerAll(t.name)) == WireOf(LowerAll(t.name));
  }

  lemma WireCases(t: TsigRR)
    requires HashableTsig(t)
    ensures var v, h := Variables(t), HexDecode(t.otherData);
            TsigWire(t) == if h.Some? && |v| + |h.value| <= DEFAULT_MSG_SIZE then v + h.value else Padded(v)
    ensures |Variables(t)| <= DEFAULT_MSG_SIZE ==> |Padded(Variables(t))| == DEFAULT_MSG_SIZE
  {
    hide HashableTsig, Variables, HexDecode;
  }

  lemma VariableParts(t: TsigRR)
    requires HashableTsig(t)
    ensures var n, a := LowerAll(t.name), LowerAll(t.algorithm);
            (n == [] || FitName(n)) && (a == [] || FitName(a)) && |WireOf(n)| <= 255 && |WireOf(a)| <= 255
    ensures |Variables(t)| <= 528 && DEFAULT_MSG_SIZE == 4096
  {
    hide FitName, Parse, Labels, Wire, NameLen;
    var n, a := LowerAll(t.name), LowerAll(t.algorithm);
    if n != [] { GoodNameWire(n); }
    if a != [] { GoodNameWire(a); }
  }

  lemma HexBytesIs(s: str)
    requires HexDecode(s).Some?
    ensures HexBytes(s) == HexDecode(s).value && 2 * |HexBytes(s)| == |s|
  {
  }

  lemma TsigWireParts(t: TsigRR)
    requires GoodTsig(t)
    ensures var n, a := LowerAll(t.name), LowerAll(t.algorithm);
            && FitName(n) && FitName(a) && Parse(n).Good? && Parse(a).Good?
            && NameLen(n) <= 255 && NameLen(a) <= 255 && |Wire(Labels(n))| <= 255 && |Wire(Labels(a))| <= 255
            && HexDecode(t.otherData).Some? && |HexBytes(t.otherData)| <= 0x800 && |t.otherData| <= 0x1000
            && TsigWire(t) == Wire(Labels(n)) + U16(CLASS_ANY) + U32(t.ttl) + Wire(Labels(a))
                              + U48(t.timeSigned) + U16(t.fudge) + U16(t.error) + U16(t.otherLen)
                                + HexBytes(t.otherData)
    ensures DEFAULT_MSG_SIZE == 4096
  {
    hide FitName, Parse, Labels, Wire, NameLen, HexDecode;
    VariableParts(t);
    GoodNameWire(LowerAll(t.name));
    GoodNameWire(LowerAll(t.algorithm));
    HexBytesIs(t.otherData);
    WireCases(t);
    assert LowerAll(t.name) != [] && LowerAll(t.algorithm) != [] by { NamesThere(t); }
  }

  lemma NamesThere(t: TsigRR)
    requires GoodTsig(t)
    ensures LowerAll(t.name) != [] && LowerAll(t.algorithm) != []
  {
    hide Parse, LowerAll;
  }

  method PackTimerWire(t: TsigRR, msg: array<byte>) returns (off: nat, err: Error)
    requires msg.Length == DEFAULT_MSG_SIZE
    modifies msg
    ensures err == NoError && off == |TimerWire(t)| <= msg.Length && msg[..off] == TimerWire(t)
  {
    hide U48, U16;
    off, err := PackUint48(t.timeSigned, msg, 0);
    ghost var b := msg[..];
    off, err := PackUint16(t.fudge, msg, off);
    Splice(b, msg[..], 0, 6, 8, U48(t.timeSigned), U16(t.fudge));
    assert msg[..][0..8] == msg[..8];
  }

  method PackMacWire(requestMAC: str, msg: array<byte>) returns (off: nat, err: Error)
    requires msg.Length == |requestMAC| && forall k | 0 <= k < msg.Length :: msg[k] == 0
    modifies msg
    ensures off == |MacWire(requestMAC)| <= msg.Length && msg[..off] == MacWire(requestMAC)
  {
    hide U16, HexDecode;
    var n := |requestMAC|;
    off, err := PackUint16(n / 2 % 0x1_0000, msg, 0);
    if err != NoError {
      assert msg[..n] == seq(n, _ => 0);
      return;
    }
    ghost var b := msg[..];
    assert b[..2] == U16(n / 2 % 0x1_0000) && b[2..] == seq(n - 2, _ => 0);
    off, err := PackStringHex(requestMAC, msg, off);
    if err != NoError {
      assert msg[..n] == b[..2] + b[2..];
    } else {
      Splice(b, msg[..], 0, 2, off, b[..2], HexDecode(requestMAC).value);
      assert msg[..][0..off] == msg[..off];
    }
  }

  /** Builds the octets to sign. The stub's open fields are filled in; the filled stub is returned. */
  method TsigBuffer(msgbuf: str, rr: TsigRR, requestMAC: str, timersOnly: bool, now: uint64)
    returns (buf: str, rr1: TsigRR)
    ensures rr1 == Defaulted(rr, now)
    ensures timersOnly || HashableTsig(rr1) ==> buf == MacInput(msgbuf, rr1, requestMAC, timersOnly)
    // the size and the octets of the request MAC, if there is one, then the message, then what is signed besides
    ensures timersOnly || HashableTsig(rr1) ==>
              forall mac: str | |mac| < 0x1_0000 && requestMAC == HexEncode(mac) ::
                InputLayout(buf, msgbuf, rr1, mac, timersOnly)
  {
    hide MacWire, TsigWire, TimerWire, FitName, HexDecode, LowerAll, MacInput, HashableTsig, HexEncode, InputLayout;
    rr1 := rr;
    if rr1.timeSigned == 0 {
      rr1 := rr1.(timeSigned := now);
    }
    if rr1.fudge == 0 {
      rr1 := rr1.(fudge := DEFAULT_FUDGE);
    }
    buf := [];
    if requestMAC != [] {
      var mac := new byte[|requestMAC|](_ => 0);
      var size, err := PackMacWire(requestMAC, mac);
      buf := mac[..size];
    }
    var tsigvar := new byte[DEFAULT_MSG_SIZE](_ => 0);
    FillStart(tsigvar[..]);
    var n: nat, ignored: Error;
    if timersOnly {
      n, ignored := PackTimerWire(rr1, tsigvar);
    } else {
      n, ignored := PackTsigWire(rr1, tsigvar);
      if n > DEFAULT_MSG_SIZE { // a slice panic; no good record gets here
        return [], rr1;
      }
    }
    if requestMAC != [] {
      buf := buf + msgbuf + tsigvar[..n];
    } else {
      buf := msgbuf + tsigvar[..n];
      assert [] + msgbuf == msgbuf;
    }
    if timersOnly || HashableTsig(rr1) {
      MacInputIs(msgbuf, rr1, requestMAC, timersOnly);
      forall mac: str | |mac| < 0x1_0000 && requestMAC == HexEncode(mac)
        ensures InputLayout(buf, msgbuf, rr1, mac, timersOnly)
      {
        MacInputLayout(msgbuf, rr1, mac, timersOnly);
      }
    }
  }

  lemma MacInputIs(msgbuf: str, t: TsigRR, requestMAC: str, timersOnly: bool)
    requires timersOnly || HashableTsig(t)
    ensures MacInput(msgbuf, t, requestMAC, timersOnly)
            == (if requestMAC != [] then MacWire(requestMAC) else []) + msgbuf
               + if timersOnly then TimerWire(t) else TsigWire(t)
  {
  }

  /** Where the request MAC, the message and the timers are. */
  predicate InputLayout(buf: str, msgbuf: str, t: TsigRR, mac: str, timersOnly: bool)
    requires timersOnly || HashableTsig(t)
  {
    var n := if mac == [] then 0 else if |mac| == 1 then 2 else 2 + |mac|;
    && n + |msgbuf| <= |buf|
    && (mac != [] ==> GetU16(buf, 0) as int == |mac|) && (|mac| != 1 && n > 0 ==> buf[2..n] == mac)
    && buf[n..n + |msgbuf|] == msgbuf
    && (timersOnly ==>
          && |buf| == n + |msgbuf| + 8
          && GetU48(buf, n + |msgbuf|) == t.timeSigned % 0x1_0000_0000_0000
          && GetU16(buf, n + |msgbuf| + 6) == t.fudge)
    && (!timersOnly ==> buf[n + |msgbuf|..] == TsigWire(t))
  }

  lemma MacInputLayout(msgbuf: str, t: TsigRR, mac: str, timersOnly: bool)
    requires (timersOnly || HashableTsig(t)) && |mac| < 0x1_0000
    ensures InputLayout(MacInput(msgbuf, t, HexEncode(mac), timersOnly), msgbuf, t, mac, timersOnly)
  {
    hide *;
    var requestMAC := HexEncode(mac);
    var head := if requestMAC != [] then MacWire(requestMAC) else [];
    var tail := if timersOnly then TimerWire(t) else TsigWire(t);
    MacInputIs(msgbuf, t, requestMAC, timersOnly);
    var buf := MacInput(msgbuf, t, requestMAC, timersOnly);
    MacWireIs(mac, head);
    ThreeParts(head, msgbuf, tail);
    if mac != [] { GetU16Put(buf, 0, |mac|); }
    if timersOnly { TimerReads(buf, |head| + |msgbuf|, t); }
    LayoutIs(buf, msgbuf, t, mac, timersOnly);
  }

  lemma ThreeParts(x: str, y: str, z: str)
    ensures var b := x + y + z;
            var n := |x| + |y|;
            && b[|x|..n] == y && b[n..] == z
            && (|x| >= 2 ==> b[0..2] == x[..2] && b[2..|x|] == x[2..])
  {
  }

  lemma LayoutIs(buf: str, msgbuf: str, t: TsigRR, mac: str, timersOnly: bool)
    requires timersOnly || HashableTsig(t)
    requires var n := if mac == [] then 0 else if |mac| == 1 then 2 else 2 + |mac|;
             && n + |msgbuf| <= |buf|
             && (mac != [] ==> GetU16(buf, 0) as int == |mac|) && (|mac| != 1 && n > 0 ==> buf[2..n] == mac)
             && buf[n..n + |msgbuf|] == msgbuf
             && (timersOnly ==>
                   && |buf| == n + |msgbuf| + 8
                   && GetU48(buf, n + |msgbuf|) == t.timeSigned % 0x1_0000_0000_0000
                   && GetU16(buf, n + |msgbuf| + 6) == t.fudge)
             && (!timersOnly ==> buf[n + |msgbuf|..] == TsigWire(t))
    ensures InputLayout(buf, msgbuf, t, mac, timersOnly)
  {
    hide GetU16, GetU48, TsigWire, HashableTsig;
  }

  lemma MacWireIs(mac: str, head: str)
    requires |mac| < 0x1_0000
    requires head == if HexEncode(mac) != [] then MacWire(HexEncode(mac)) else []
    ensures |head| == if mac == [] then 0 else if |mac| == 1 then 2 else 2 + |mac|
    ensures mac != [] ==> head[..2] == U16(|mac|)
    ensures |mac| > 1 ==> head[2..] == mac
  {
    hide *;
    HexRoundTrip(mac);
    if |mac| == 1 {
      MacWireTwo(HexEncode(mac), mac);
    } else if |mac| > 1 {
      MacWireHex(HexEncode(mac), mac);
    }
  }

  lemma MacWireTwo(s: str, h: str)
    requires |s| == 2 && |h| == 1 && HexDecode(s) == Some(h)
    ensures MacWire(s) == U16(1) && U16(1)[..2] == U16(1)
  {
    hide HexDecode, U16;
  }

  lemma MacWireHex(s: str, h: str)
    requires |s| == 2 * |h| >= 4 && HexDecode(s) == Some(h) && |h| < 0x1_0000
    ensures MacWire(s) == U16(|h|) + h
  {
    hide HexDecode, U16;
  }

  lemma TimerReads(buf: str, off: nat, t: TsigRR)
    requires off <= |buf| && buf[off..] == TimerWire(t)
    ensures |buf| == off + 8
    ensures GetU48(buf, off) == t.timeSigned % 0x1_0000_0000_0000 && GetU16(buf, off + 6) == t.fudge
  {
    hide U48, U16, GetU48, GetU16;
    var w := TimerWire(t);
    assert buf[off..off + 6] == buf[off..][..6] == U48(t.timeSigned);
    assert buf[off + 6..off + 8] == buf[off..][6..8] == U16(t.fudge);
    GetU48Put(buf, off, t.timeSigned);
    GetU16Put(buf, off + 6, t.fudge);
  }

  /** The TSIG variables read field by field, in the order of section 3.4.2 of RFC 2845. */
  lemma VariablesRead(t: TsigRR, name: str, alg: str)
    requires HashableTsig(t) && name == WireOf(LowerAll(t.name)) && alg == WireOf(LowerAll(t.algorithm))
    ensures var v := TsigWire(t);
            var n, m := |name|, |name| + 6 + |alg|;
            && m + 12 <= |v| && v[..n] == name && v[n + 6..m] == alg
            && GetU16(v, n) == 255 && GetU32(v, n + 2) == t.ttl
            && GetU48(v, m) == t.timeSigned % 0x1_0000_0000_0000
            && GetU16(v, m + 6) == t.fudge && GetU16(v, m + 8) == t.error && GetU16(v, m + 10) == t.otherLen
            && forall data: str | t.otherData == HexEncode(data) && |data| <= 0x800 :: v[m + 12..] == data
  {
    hide *;
    FieldsFirst(t, name, alg);
    FieldsRead(TsigWire(t), name, alg, t);
    forall data: str | t.otherData == HexEncode(data) && |data| <= 0x800
      ensures TsigWire(t)[|name| + |alg| + 18..] == data
    {
      DataLast(t, name, alg, data);
    }
  }

  lemma FieldsFirst(t: TsigRR, name: str, alg: str)
    requires HashableTsig(t) && name == WireOf(LowerAll(t.name)) && alg == WireOf(LowerAll(t.algorithm))
    ensures name + U16(255) + U32(t.ttl) + alg + U48(t.timeSigned) + U16(t.fudge) + U16(t.error) + U16(t.otherLen)
            <= TsigWire(t)
  {
    hide *;
    WireCases(t);
    VariablesAre(t);
    PaddedFront(Variables(t));
    FrontHolds(TsigWire(t), Variables(t), HexDecode(t.otherData));
  }

  lemma DataLast(t: TsigRR, name: str, alg: str, data: str)
    requires HashableTsig(t) && name == WireOf(LowerAll(t.name)) && alg == WireOf(LowerAll(t.algorithm))
    requires t.otherData == HexEncode(data) && |data| <= 0x800
    ensures |TsigWire(t)| >= |name| + |alg| + 18 && TsigWire(t)[|name| + |alg| + 18..] == data
  {
    hide *;
    VariableParts(t);
    WireCases(t);
    VariablesAre(t);
    HexRoundTrip(data);
    var v := Variables(t);
    assert |v| == |name| + |alg| + 18;
    assert (v + data)[|v|..] == data;
  }

  lemma FrontHolds(v: str, f: str, h: Option<str>)
    requires f <= Padded(f)
    requires v == if h.Some? && |f| + |h.value| <= DEFAULT_MSG_SIZE then f + h.value else Padded(f)
    ensures f <= v
  {
    hide Padded;
  }

  lemma PaddedFront(v: str)
    ensures v <= Padded(v)
  {
  }

  lemma VariablesAre(t: TsigRR)
    requires HashableTsig(t)
    ensures Variables(t)
            == WireOf(LowerAll(t.name)) + U16(255) + U32(t.ttl) + WireOf(LowerAll(t.algorithm)) + U48(t.timeSigned)
               + U16(t.fudge) + U16(t.error) + U16(t.otherLen)
  {
    hide WireOf, LowerAll, U16, U32, U48;
  }

  lemma FieldsRead(v: str, name: str, alg: str, t: TsigRR)
    requires name + U16(255) + U32(t.ttl) + alg + U48(t.timeSigned) + U16(t.fudge) + U16(t.error) + U16(t.otherLen)
             <= v
    ensures var n, m := |name|, |name| + 6 + |alg|;
            && m + 12 <= |v| && v[..n] == name && v[n + 6..m] == alg
            && GetU16(v, n) == 255 && GetU32(v, n + 2) == t.ttl
            && GetU48(v, m) == t.timeSigned % 0x1_0000_0000_0000
            && GetU16(v, m + 6) == t.fudge && GetU16(v, m + 8) == t.error && GetU16(v, m + 10) == t.otherLen
  {
    hide U16, U32, U48, GetU16, GetU32, GetU48;
    var n, m := |name|, |name| + 6 + |alg|;
    assert v[n..n + 2] == U16(255);
    assert v[n + 2..n + 6] == U32(t.ttl);
    assert v[m..m + 6] == U48(t.timeSigned);
    assert v[m + 6..m + 8] == U16(t.fudge);
    assert v[m + 8..m + 10] == U16(t.error);
    assert v[m + 10..m + 12] == U16(t.otherLen);
    GetU16Put(v, n, 255);
    GetU32Put(v, n + 2, t.ttl);
    GetU48Put(v, m, t.timeSigned);
    GetU16Put(v, m + 6, t.fudge);
    GetU16Put(v, m + 8, t.error);
    GetU16Put(v, m + 10, t.otherLen);
  }

  // ---------- The TSIG record ----------

  function TsigTail(t: TsigRR): str {
    U48(t.timeSigned) + U16(t.fudge) + U16(t.macSize) + HexBytes(t.mac) + U16(t.origId) + U16(t.error) + U16(t.otherLen)
    + HexBytes(t.otherData)
  }

  function TsigRdata(t: TsigRR): (b: str)
    requires GoodTsig(t)
    ensures |b| < 0x1_0000
  {
    TsigRdataLen(t);
    Wire(Labels(t.algorithm)) + TsigTail(t)
  }

  lemma TsigRdataLen(t: TsigRR)
    requires GoodTsig(t)
    ensures |Wire(Labels(t.algorithm)) + TsigTail(t)| < 0x4000
  {
    hide FitName, Parse, Labels, Wire, NameLen, HexDecode, HexBytes;
    GoodNameWire(t.algorithm);
    HexBytesIs(t.mac);
    HexBytesIs(t.otherData);
  }

  /** The record on the wire, without compression. */
  function TsigBytes(t: TsigRR): str
    requires GoodTsig(t)
  {
    Wire(Labels(t.name)) + (U16(TYPE_TSIG) + U16(t.cls) + U32(t.ttl)) + U16(|TsigRdata(t)|) + TsigRdata(t)
  }

  /** (*TSIG).len */
  function TsigLen(t: TsigRR): nat {
    |t.name| + 1 + 10 + |t.algorithm| + 1 + 6 + 2 + 2 + |t.mac| / 2 + 1 + 2 + 2 + 2 + |t.otherData| / 2 + 1
  }

  /** The header of the record, for RR_Header.pack. */
  function HeaderRec(t: TsigRR): Rec {
    Rec(t.name, TYPE_TSIG, t.cls, t.ttl, A([]))
  }

  /** (*TSIG).pack without a compression map, behind the header. */
  method PackTsigRdata(t: TsigRR, msg: array<byte>, off0: nat) returns (off: nat, err: Error)
    modifies msg
    ensures Kept(old(msg[..]), msg[..], off0)
    ensures err == NoError ==> off0 <= off
    ensures GoodTsig(t) && off0 + |TsigRdata(t)| <= msg.Length ==>
              err == NoError && off == off0 + |TsigRdata(t)| && msg[off0..off] == TsigRdata(t)
  {
    hide *;
    ghost var b := msg[..];
    ghost var good := GoodTsig(t) && off0 + |TsigRdata(t)| <= msg.Length;
    if good { TsigRdataParts(t); SoStart(b, off0); }
    off, err := Records.PackDomainName(t.algorithm, msg, off0, null, false);
    if err != NoError { return; }
    ghost var m, o, acc := msg[..], off, if good then Wire(Labels(t.algorithm)) else [];
    if good { SoStep(b, b, m, off0, off0, o, [], acc); assert [] + acc == acc; }
    off, err := PackUint48(t.timeSigned, msg, off);
    if err != NoError { return; }
    KeptTrans(b, m, msg[..], off0, o);
    if good { SoStep(b, m, msg[..], off0, o, off, acc, U48(t.timeSigned)); }
    m, o, acc := msg[..], off, acc + U48(t.timeSigned);
    off, err := SoUint16(t.fudge, msg, off, b, off0, acc);
    if err != NoError { return; }
    m, o, acc := msg[..], off, acc + U16(t.fudge);
    off, err := SoUint16(t.macSize, msg, off, b, off0, acc);
    if err != NoError { return; }
    m, o, acc := msg[..], off, acc + U16(t.macSize);
    off, err := PackStringHex(t.mac, msg, off);
    if err != NoError { return; }
    KeptTrans(b, m, msg[..], off0, o);
    if good { SoStep(b, m, msg[..], off0, o, off, acc, HexBytes(t.mac)); }
    m, o, acc := msg[..], off, if good then acc + HexBytes(t.mac) else [];
    off, err := SoUint16(t.origId, msg, off, b, off0, acc);
    if err != NoError { return; }
    m, o, acc := msg[..], off, acc + U16(t.origId);
    off, err := SoUint16(t.error, msg, off, b, off0, acc);
    if err != NoError { return; }
    m, o, acc := msg[..], off, acc + U16(t.error);
    off, err := SoUint16(t.otherLen, msg, off, b, off0, acc);
    if err != NoError { return; }
    m, o, acc := msg[..], off, acc + U16(t.otherLen);
    off, err := PackStringHex(t.otherData, msg, off);
    if err != NoError { return; }
    KeptTrans(b, m, msg[..], off0, o);
    if good {
      SoStep(b, m, msg[..], off0, o, off, acc, HexBytes(t.otherData));
      SoEnd(b, msg[..], off0, off, acc + HexBytes(t.otherData));
    }
  }

  /** A 16-bit field behind what is written in acc from off0 on. */
  method SoUint16(n: uint16, msg: array<byte>, off: nat, ghost before: str, ghost off0: nat, ghost acc: str)
    returns (off1: nat, err: Error)
    modifies msg
    ensures Kept(before, old(msg[..]), off0) && off0 <= off ==> Kept(before, msg[..], off0)
    ensures err == NoError ==> off <= off1
    ensures So(before, old(msg[..]), off0, off, acc) && off + 2 <= msg.Length ==>
              err == NoError && off1 == off + 2 && So(before, msg[..], off0, off1, acc + U16(n))
  {
    hide So, U16;
    ghost var m := msg[..];
    off1, err := PackUint16(n, msg, off);
    if off0 <= off && Kept(before, m, off0) { KeptTrans(before, m, msg[..], off0, off); }
    if So(before, m, off0, off, acc)
      && off + 2 <= msg.Length { SoStep(before, m, msg[..], off0, off, off1, acc, U16(n)); }
  }

  lemma TsigRdataParts(t: TsigRR)
    requires GoodTsig(t)
    ensures FitName(t.algorithm) && Parse(t.algorithm).Good? && HexDecode(t.mac).Some? && HexDecode(t.otherData).Some?
    ensures HexBytes(t.mac) == HexDecode(t.mac).value && HexBytes(t.otherData) == HexDecode(t.otherData).value
    ensures NameLen(t.algorithm) == |Wire(Labels(t.algorithm))|
    ensures MapOf(null).None?
    ensures forall off: nat :: PackNamed(t.algorithm, off, None, false) == Out(Wire(Labels(t.algorithm)), None)
    ensures TsigRdata(t) == Wire(Labels(t.algorithm)) + U48(t.timeSigned) + U16(t.fudge) + U16(t.macSize)
            + HexBytes(t.mac)
                            + U16(t.origId) + U16(t.error) + U16(t.otherLen) + HexBytes(t.otherData)
  {
    hide FitName, Parse, Labels, Wire, NameLen, HexDecode, HexBytes, PackNamed, U48, U16;
    GoodNameWire(t.algorithm);
    HexBytesIs(t.mac);
    HexBytesIs(t.otherData);
    TailAssoc(Wire(Labels(t.algorithm)), U48(t.timeSigned), U16(t.fudge), U16(t.macSize), HexBytes(t.mac),
              U16(t.origId), U16(t.error),
              U16(t.otherLen), HexBytes(t.otherData));
  }

  lemma TailAssoc(w: str, a: str, b: str, c: str, d: str, e: str, f: str, g: str, h: str)
    ensures w + (a + b + c + d + e + f + g + h) == w + a + b + c + d + e + f + g + h
  {
  }

  lemma TsigBytesParts(t: TsigRR)
    requires GoodTsig(t)
    ensures FitName(t.name) && Parse(t.name).Good? && ValidLabels(Labels(t.name))
    ensures var w := Wire(Labels(t.name));
            && NameLen(t.name) == |w| && |w| <= |t.name| + 1
            && (forall off: nat :: PackNamed(t.name, off, None, false) == Out(w, None))
            && TsigBytes(t) == w + (Middle(HeaderRec(t)) + U16(|TsigRdata(t)|) + TsigRdata(t))
            && |TsigBytes(t)| == |w| + 10 + |TsigRdata(t)|
    ensures |TsigBytes(t)| <= TsigLen(t)
    ensures HeaderRec(t).name == t.name
  {
    hide FitName, Parse, Labels, Wire, NameLen, HexDecode, HexBytes, PackNamed, U48, U16, TsigRdata, U32;
    GoodNameWire(t.name);
    GoodValid(t.name);
    NameLenChars(t.name);
    TsigFits(t);
    MiddleIs(t);
    Concat3(Wire(Labels(t.name)) + Middle(HeaderRec(t)), U16(|TsigRdata(t)|), TsigRdata(t));
  }

  lemma MiddleIs(t: TsigRR)
    ensures Middle(HeaderRec(t)) == U16(TYPE_TSIG) + U16(t.cls) + U32(t.ttl)
  {
  }

  lemma GoodValid(s: str)
    requires FitName(s)
    ensures Parse(s).Good? && ValidLabels(Labels(s))
  {
    hide Parse, Labels;
  }

  lemma TsigFits(t: TsigRR)
    requires GoodTsig(t)
    ensures |TsigRdata(t)| <= |t.algorithm| + 1 + 6 + 2 + 2 + |t.mac| / 2 + 2 + 2 + 2 + |t.otherData| / 2
  {
    hide FitName, Parse, Labels, Wire, NameLen, HexDecode, HexBytes, PackNamed, U48, U16;
    GoodNameWire(t.algorithm);
    NameLenChars(t.algorithm);
    HexBytesIs(t.mac);
    HexBytesIs(t.otherData);
  }

  /** The record as it stands before its length is patched in. */
  ghost predicate Unpatched(msg: str, off: nat, t: TsigRR)
    requires GoodTsig(t)
  {
    var n := |TsigBytes(t)|;
    off + n <= |msg| && Parse(t.name).Good?
    && msg[off..off + n] == Wire(Labels(t.name)) + Middle(HeaderRec(t)) + U16(0) + TsigRdata(t)
  }

  lemma UnpatchedSkip(msg: str, off: nat, t: TsigRR)
    requires GoodTsig(t) && Unpatched(msg, off, t)
    ensures Parse(t.name).Good? && SkipName(msg, off) == Some(off + |Wire(Labels(t.name))|)
  {
    hide GoodTsig, Parse, Labels, Wire, TsigRdata, TsigBytes, PackNamed, SkipName, Middle, U16;
    TsigBytesParts(t);
    var w := Wire(Labels(t.name));
    var n := |TsigBytes(t)|;
    assert msg[off..off + n][..|w|] == w;
    SubSlice(msg, off, n, 0, |w|);
    SkipPacked(msg, off, t.name, None, false);
  }

  lemma Patched(msg: str, now: str, off: nat, t: TsigRR)
    requires GoodTsig(t) && Unpatched(msg, off, t) && |now| == |msg| && Parse(t.name).Good?
    requires var at := off + |Wire(Labels(t.name))| + 8;
             && at + 2 <= |now| && now[..at] == msg[..at] && now[at + 2..] == msg[at + 2..]
             && now[at..at + 2] == U16(|TsigRdata(t)|)
    ensures off + |TsigBytes(t)| <= |now| && now[off..off + |TsigBytes(t)|] == TsigBytes(t)
  {
    hide GoodTsig, Parse, Labels, Wire, TsigRdata, TsigBytes, PackNamed, Middle, U16;
    TsigBytesParts(t);
    var w, mid, rd := Wire(Labels(t.name)), Middle(HeaderRec(t)), TsigRdata(t);
    PatchedBuffer(msg, now, off + |w| + 8, U16(|rd|));
    PatchRecord(msg, off, w, mid, U16(0), U16(|rd|), rd);
    Regroup4(w, mid, U16(|rd|), rd);
  }

  lemma UnpatchedIs(before: str, msg: str, off: nat, headerEnd: nat, t: TsigRR)
    requires GoodTsig(t) && Parse(t.name).Good? && off + |TsigBytes(t)| <= |msg| == |before|
    requires off <= headerEnd <= |msg|
    requires before[off..headerEnd] == Wire(Labels(t.name)) + Middle(HeaderRec(t)) + U16(0)
    requires Kept(before, msg, headerEnd)
    requires headerEnd + |TsigRdata(t)| <= |msg| && msg[headerEnd..headerEnd + |TsigRdata(t)|] == TsigRdata(t)
    ensures Unpatched(msg, off, t)
  {
    hide GoodTsig, Parse, Labels, Wire, TsigRdata, TsigBytes, Middle, U16, Kept;
    TsigBytesParts(t);
    Splice(before, msg, off, headerEnd, headerEnd + |TsigRdata(t)|,
           Wire(Labels(t.name)) + Middle(HeaderRec(t)) + U16(0), TsigRdata(t));
  }

  /** PackRR of the TSIG record, without a compression map. */
  method PackTsig(t: TsigRR, msg: array<byte>, off: nat) returns (off1: nat, err: Error)
    modifies msg
    ensures GoodTsig(t) && off + |TsigBytes(t)| <= msg.Length ==>
              err == NoError && off1 == off + |TsigBytes(t)| && msg[off..off1] == TsigBytes(t)
  {
    hide *;
    ghost var good := GoodTsig(t) && off + |TsigBytes(t)| <= msg.Length;
    MapIsNone();
    if good { TsigBytesParts(t); }
    off1, err := PackHeader(HeaderRec(t), 0, msg, off, null, false);
    if err != NoError {
      return;
    }
    ghost var b1, headerEnd := msg[..], off1;
    off1, err := PackTsigRdata(t, msg, off1);
    if err != NoError {
      return;
    }
    ghost var b2 := msg[..];
    if good {
      UnpatchedIs(b1, b2, off, headerEnd, t);
      UnpatchedSkip(b2, off, t);
    }
    var ok := RawSetRdlength(msg, off, off1);
    if !ok {
      return off, ErrRdata;
    }
    if good { Patched(b2, msg[..], off, t); }
  }

  lemma MapIsNone()
    ensures MapOf(null) == None
  {
  }

  lemma Regroup4(a: str, b: str, c: str, d: str)
    ensures a + b + c + d == a + (b + c + d)
  {
  }
}
