/** Unpack (msg.go), and the round trip of whole messages. */
module UnpackMessages {
  import opened Bytes
  import opened Names
  import opened PackNames
  import opened UnpackNames
  import opened Compression
  import opened Records
  import opened UnpackRecords
  import opened MessageTypes
  import opened Messages

  // ---------- The unpackers ----------

  datatype QuestionResult = QuestionResult(q: Question, off1: nat, err: Error)

  /** unpackQuestion: a question may end with the message, its missing fields zero. */
  function UnpackQuestion(msg: str, off: nat): QuestionResult {
    var n := UnpackName(msg, off);
    if n.err != NoError || n.off1 == |msg| then QuestionResult(Question(n.name, 0, 0), n.off1, n.err)
    else
      var t := UnpackUint16(msg, n.off1);
      if t.err != NoError || t.off1 == |msg| then QuestionResult(Question(n.name, t.i, 0), t.off1, t.err)
      else
        var c := UnpackUint16(msg, t.off1);
        QuestionResult(Question(n.name, t.i, c.i), c.off1, if c.off1 == |msg| then NoError else c.err)
  }

  datatype HeaderRead = HeaderRead(h: WireHeader, off1: nat, err: Error)

  /** unpackMsgHdr */
  function UnpackMsgHdr(msg: str, off: nat): HeaderRead {
    if off + 12 > |msg| then HeaderRead(WireHeader(0, 0, 0, 0, 0, 0), |msg|, ErrOverflow)
    else HeaderRead(WireHeader(GetU16(msg, off), GetU16(msg, off + 2), GetU16(msg, off + 4), GetU16(msg, off + 6),
                               GetU16(msg, off + 8), GetU16(msg, off + 10)), off + 12, NoError)
  }

  predicate Flag(b: nat, v: nat)
    requires v > 0
  {
    b / v % 2 == 1
  }

  function Nibble(b: nat, v: nat): nat
    requires v > 0
  {
    b / v % 16
  }

  /** The header fields that the flag word encodes. */
  function HdrOf(h: WireHeader): MsgHdr {
    var b := h.bits;
    MsgHdr(h.id, Flag(b, 0x8000), Nibble(b, 0x800), Flag(b, 0x400), Flag(b, 0x200), Flag(b, 0x100),
           Flag(b, 0x80), Flag(b, 0x40), Flag(b, 0x20), Flag(b, 0x10), Nibble(b, 1))
  }

  /** A message as Unpack leaves it. */
  datatype ReadMsg = ReadMsg(hdr: MsgHdr, question: seq<Question>, answer: seq<Decoded>, ns: seq<Decoded>,
                             extra: seq<Decoded>)

  datatype SliceRead = SliceRead(rrs: seq<Decoded>, off1: nat, err: Error)

  /** unpackRRslice: up to l records; none at all when one of them cannot be read. */
  function ReadRRs(l: nat, msg: str, off: nat): SliceRead {
    if l == 0 then SliceRead([], off, NoError)
    else
      var r := UnpackRR(msg, off);
      if r.err != NoError then SliceRead([], |msg|, r.err)
      else if r.off1 == off || r.rr == None then SliceRead([], off, NoError)
      else
        var rest := ReadRRs(l - 1, msg, r.off1);
        if rest.err != NoError then rest else SliceRead([r.rr.value] + rest.rrs, rest.off1, NoError)
  }

  datatype QuestionsRead = QuestionsRead(qs: seq<Question>, off1: nat, err: Error)

  function ReadQuestions(n: nat, msg: str, off: nat): QuestionsRead {
    if n == 0 then QuestionsRead([], off, NoError)
    else
      var q := UnpackQuestion(msg, off);
      if q.err != NoError then QuestionsRead([], q.off1, q.err)
      else if q.off1 == off then QuestionsRead([], off, NoError)
      else
        var rest := ReadQuestions(n - 1, msg, q.off1);
        QuestionsRead([q.q] + rest.qs, rest.off1, rest.err)
  }

  datatype MsgRead = MsgRead(m: ReadMsg, err: Error)

  /** What Unpack leaves in the message and returns. */
  function ReadMessage(msg: str): MsgRead {
    var h := UnpackMsgHdr(msg, 0);
    var hdr := HdrOf(h.h);
    if h.err != NoError then MsgRead(ReadMsg(HdrOf(h.h), [], [], [], []), h.err)
    else if h.off1 == |msg| then MsgRead(ReadMsg(hdr, [], [], [], []), ErrTruncated)
    else
      var q := ReadQuestions(h.h.qd, msg, h.off1);
      if q.err != NoError then MsgRead(ReadMsg(hdr, q.qs, [], [], []), q.err)
      else
        var a := ReadRRs(h.h.an, msg, q.off1);
        var n := if a.err == NoError then ReadRRs(h.h.ns, msg, a.off1) else SliceRead([], a.off1, a.err);
        var e := if n.err == NoError then ReadRRs(h.h.ar, msg, n.off1) else SliceRead([], n.off1, n.err);
        MsgRead(ReadMsg(hdr, q.qs, a.rrs, n.rrs, e.rrs),
                if e.off1 == |msg| && hdr.truncated then ErrTruncated else e.err)
  }

  method UnpackRRSlice(l: nat, msg: str, off: nat) returns (dst: seq<Decoded>, off1: nat, err: Error)
    ensures SliceRead(dst, off1, err) == ReadRRs(l, msg, off)
  {
    hide UnpackRR;
    dst, off1, err := [], off, NoError;
    ghost var goal := ReadRRs(l, msg, off);
    for i := 0 to l
      invariant var rest := ReadRRs(l - i, msg, off1);
                goal == if rest.err != NoError then rest else SliceRead(dst + rest.rrs, rest.off1, NoError)
      invariant err == NoError
    {
      var r := UnpackRR(msg, off1);
      if r.err != NoError {
        return [], |msg|, r.err;
      }
      if r.off1 == off1 || r.rr == None {
        assert dst + [] == dst;
        return;
      }
      ghost var rest := ReadRRs(l - i - 1, msg, r.off1);
      assert dst + ([r.rr.value] + rest.rrs) == dst + [r.rr.value] + rest.rrs;
      dst, off1 := dst + [r.rr.value], r.off1;
    }
    assert dst + [] == dst;
  }

  /** The loop over the questions, whose count is cut short when one takes no octets. */
  method UnpackQuestions(count: nat, msg: str, off: nat) returns (qs: seq<Question>, off1: nat, err: Error)
    ensures QuestionsRead(qs, off1, err) == ReadQuestions(count, msg, off)
  {
    hide UnpackQuestion;
    qs, off1, err := [], off, NoError;
    ghost var goal := ReadQuestions(count, msg, off);
    var qd, i: nat := count, 0;
    assert [] + goal.qs == goal.qs;
    while i < qd
      invariant i <= qd && err == NoError
      invariant var rest := ReadQuestions(qd - i, msg, off1);
                goal == QuestionsRead(qs + rest.qs, rest.off1, rest.err)
      decreases qd - i
    {
      var q := UnpackQuestion(msg, off1);
      if q.err != NoError {
        assert qs + [] == qs;
        return qs, q.off1, q.err;
      }
      if q.off1 == off1 {
        qd := i;
      } else {
        ghost var rest := ReadQuestions(qd - i - 1, msg, q.off1);
        assert qs + ([q.q] + rest.qs) == qs + [q.q] + rest.qs;
        qs, off1, i := qs + [q.q], q.off1, i + 1;
      }
    }
    assert qs + [] == qs;
  }

  /** Unpack, on a fresh message. */
  method Unpack(msg: str) returns (m: ReadMsg, err: Error)
    ensures MsgRead(m, err) == ReadMessage(msg)
  {
    hide ReadQuestions, ReadRRs, HdrOf, UnpackMsgHdr;
    var h := UnpackMsgHdr(msg, 0);
    m := ReadMsg(HdrOf(h.h), [], [], [], []);
    if h.err != NoError {
      return m, h.err;
    }
    var off := h.off1;
    if off == |msg| {
      return m, ErrTruncated;
    }
    var qs;
    qs, off, err := UnpackQuestions(h.h.qd, msg, off);
    if err != NoError {
      return m.(question := qs), err;
    }
    var a, n, e: seq<Decoded> := [], [], [];
    a, off, err := UnpackRRSlice(h.h.an, msg, off);
    if err == NoError {
      n, off, err := UnpackRRSlice(h.h.ns, msg, off);
    }
    if err == NoError {
      e, off, err := UnpackRRSlice(h.h.ar, msg, off);
    }
    m := ReadMsg(HdrOf(h.h), qs, a, n, e);
    if off == |msg| && m.hdr.truncated {
      err := ErrTruncated;
    }
  }

  // ---------- The round trip ----------

  /** Whether every name can be read back, and the depths of the map's keys afterwards. */
  datatype Reach = Reach(ok: bool, depths: map<str, nat>)

  function QuestionReach(q: Question, off: nat, mp: Option<Offsets>, dm: map<str, nat>, compress: bool): Reach
    requires GoodName(q.name, mp.Some?)
  {
    var d := Depth(Labels(q.name), mp, dm, compress);
    Reach(d <= MAX_POINTERS, Depths(mp, PackName(Labels(q.name), off, mp, compress).mp, dm, d))
  }

  function QuestionsReach(qs: seq<Question>, off: nat, mp: Option<Offsets>, dm: map<str, nat>, compress: bool): Reach
    requires GoodQuestions(qs, mp.Some?)
  {
    if qs == [] then Reach(true, dm)
    else
      GoodFirstQuestion(qs, mp.Some?);
      var o := PackQuestion(qs[0], off, mp, compress);
      var r := QuestionReach(qs[0], off, mp, dm, compress);
      var rest := QuestionsReach(qs[1..], off + |o.bytes|, o.mp, r.depths, compress);
      Reach(r.ok && rest.ok, rest.depths)
  }

  function RecsReach(rs: seq<Rec>, off: nat, mp: Option<Offsets>, dm: map<str, nat>, compress: bool): Reach
    requires GoodRecs(rs, mp.Some?)
  {
    if rs == [] then Reach(true, dm)
    else
      GoodFirstRec(rs, mp.Some?);
      var o := PackRec(rs[0], off, mp, compress);
      var c := RecChains(rs[0], off, mp, dm, compress);
      var rest := RecsReach(rs[1..], off + |o.bytes|, o.mp, c.depths, compress);
      Reach(ChainsOk(c) && rest.ok, rest.depths)
  }

  /** The questions and records that come back. */
  function PrintedQuestions(qs: seq<Question>): (r: seq<Question>)
    ensures |r| == |qs|
  {
    if qs == [] then [] else [Question(Printed(qs[0].name), qs[0].qtype, qs[0].qclass)] + PrintedQuestions(qs[1..])
  }

  function DecodedRecs(rs: seq<Rec>, off: nat, mp: Option<Offsets>, compress: bool): (r: seq<Decoded>)
    requires GoodRecs(rs, mp.Some?)
    ensures |r| == |rs|
  {
    if rs == [] then []
    else
      GoodFirstRec(rs, mp.Some?);
      var o := PackRec(rs[0], off, mp, compress);
      [Decoded(PrintedRec(rs[0]), RdataLen(rs[0], off, mp, compress))]
      + DecodedRecs(rs[1..], off + |o.bytes|, o.mp, compress)
  }

  predicate FewQuestions(qs: seq<Question>) {
    qs == [] || (FewLabels(qs[0].name) && FewQuestions(qs[1..]))
  }

  predicate FewRecs(rs: seq<Rec>) {
    rs == [] || (FewRec(rs[0]) && FewRecs(rs[1..]))
  }

  lemma FewQuestionsIs(qs: seq<Question>)
    ensures qs != [] && FewQuestions(qs) ==> FewLabels(qs[0].name) && FewQuestions(qs[1..])
  {
    hide FewLabels;
  }

  lemma FewRecsIs(rs: seq<Rec>)
    ensures rs != [] && FewRecs(rs) ==> FewRec(rs[0]) && FewRecs(rs[1..])
  {
    hide FewRec;
  }

  lemma QuestionReads(buf: str, q: Question, mp: Option<Offsets>, dm: map<str, nat>, compress: bool, more: str)
    requires GoodName(q.name, mp.Some?) && Sound(buf, mp, dm)
    ensures var o := PackQuestion(q, |buf|, mp, compress);
            var r := QuestionReach(q, |buf|, mp, dm, compress);
            && |o.bytes| > 0 && o.mp.Some? == mp.Some?
            && Sound(buf + o.bytes, o.mp, r.depths)
            && if r.ok
               then UnpackQuestion(buf + o.bytes + more, |buf|)
                    == QuestionResult(Question(Printed(q.name), q.qtype, q.qclass), |buf| + |o.bytes|, NoError)
               else UnpackQuestion(buf + o.bytes + more, |buf|).err == ErrPointers
    ensures FewLabels(q.name) ==> QuestionReach(q, |buf|, mp, dm, compress).ok
  {
    hide *;
    if FewLabels(q.name) { FewIs(q.name); }
    QuestionShape(q, |buf|, mp, compress);
    PackedAsLabels(q.name, |buf|, mp, compress);
    ReachShape(q, |buf|, mp, dm, compress);
    GoodNamePackable(q.name, mp);
    var ls := Labels(q.name);
    var h, d := PackName(ls, |buf|, mp, compress), Depth(ls, mp, dm, compress);
    var t := U16(q.qtype) + U16(q.qclass);
    PackSound(buf, ls, mp, dm, compress);
    SoundExtend(buf + h.bytes, h.mp, Depths(mp, h.mp, dm, d), t);
    Concat3(buf, h.bytes, t);
    UnpackPacked(buf, ls, mp, dm, compress, t + more);
    NameReads(q.name, mp, d, |buf + h.bytes + (t + more)|, |buf| + |h.bytes|);
    Concat3(buf + h.bytes, t, more);
    QuestionAt(buf + h.bytes, q, more, |buf|, Printed(q.name));
  }

  lemma FewIs(s: str)
    requires FewLabels(s)
    ensures Parse(s).Good? && |Labels(s)| <= MAX_POINTERS
  {
    hide Parse, Labels;
  }

  lemma ReachShape(q: Question, off: nat, mp: Option<Offsets>, dm: map<str, nat>, compress: bool)
    requires GoodName(q.name, mp.Some?)
    ensures Parse(q.name).Good?
    ensures var d := Depth(Labels(q.name), mp, dm, compress);
            QuestionReach(q, off, mp, dm, compress)
            == Reach(d <= MAX_POINTERS, Depths(mp, PackName(Labels(q.name), off, mp, compress).mp, dm, d))
  {
    hide Parse, Labels;
  }

  lemma QuestionAt(b: str, q: Question, more: str, off: nat, name: str)
    requires off <= |b|
    ensures var msg := b + (U16(q.qtype) + U16(q.qclass)) + more;
            && (UnpackName(msg, off) == NameResult(name, |b|, NoError) ==>
                  UnpackQuestion(msg, off) == QuestionResult(Question(name, q.qtype, q.qclass), |b| + 4, NoError))
            && (UnpackName(msg, off).err != NoError ==> UnpackQuestion(msg, off).err == UnpackName(msg, off).err)
            && b + (U16(q.qtype) + U16(q.qclass) + more) == msg
            && |U16(q.qtype) + U16(q.qclass)| == 4
  {
    hide UnpackName, U16, GetU16;
    var t := U16(q.qtype) + U16(q.qclass);
    var msg := b + t + more;
    assert msg[|b|..|b| + 2] == U16(q.qtype);
    assert msg[|b| + 2..|b| + 4] == U16(q.qclass);
    GetU16Put(msg, |b|, q.qtype);
    GetU16Put(msg, |b| + 2, q.qclass);
  }

  lemma {:induction false} QuestionsReadBack(buf: str, qs: seq<Question>, mp: Option<Offsets>, dm: map<str, nat>,
                                             compress: bool, more: str)
    requires GoodQuestions(qs, mp.Some?) && Sound(buf, mp, dm)
    ensures var o := PackQuestions(qs, |buf|, mp, compress);
            var r := QuestionsReach(qs, |buf|, mp, dm, compress);
            && Sound(buf + o.bytes, o.mp, r.depths)
            && (qs != [] ==> |o.bytes| > 0)
            && if r.ok
               then ReadQuestions(|qs|, buf + o.bytes + more, |buf|)
                    == QuestionsRead(PrintedQuestions(qs), |buf| + |o.bytes|, NoError)
               else ReadQuestions(|qs|, buf + o.bytes + more, |buf|).err == ErrPointers
    ensures FewQuestions(qs) ==> QuestionsReach(qs, |buf|, mp, dm, compress).ok
    decreases |qs|
  {
    hide *;
    FewQuestionsIs(qs);
    if qs == [] {
      NoQuestions(buf, mp, dm, compress, more);
    } else {
      QuestionsStep(qs, |buf|, mp, compress);
      QuestionsReachStep(qs, |buf|, mp, dm, compress);
      var o := PackQuestion(qs[0], |buf|, mp, compress);
      var r := QuestionReach(qs[0], |buf|, mp, dm, compress);
      var rest := PackQuestions(qs[1..], |buf + o.bytes|, o.mp, compress);
      QuestionReads(buf, qs[0], mp, dm, compress, rest.bytes + more);
      QuestionsReadBack(buf + o.bytes, qs[1..], o.mp, r.depths, compress, more);
      Concat3(buf, o.bytes, rest.bytes);
      Concat3(buf + o.bytes, rest.bytes, more);
      ReadQuestionsStep(qs, buf + o.bytes + rest.bytes + more, |buf|);
    }
  }

  lemma NoQuestions(buf: str, mp: Option<Offsets>, dm: map<str, nat>, compress: bool, more: str)
    requires Sound(buf, mp, dm)
    ensures GoodQuestions([], mp.Some?)
    ensures PackQuestions([], |buf|, mp, compress) == Out([], mp)
    ensures QuestionsReach([], |buf|, mp, dm, compress) == Reach(true, dm)
    ensures ReadQuestions(0, buf + [] + more, |buf|) == QuestionsRead(PrintedQuestions([]), |buf|, NoError)
    ensures buf + [] == buf
  {
    hide Sound;
  }

  lemma QuestionsReachStep(qs: seq<Question>, off: nat, mp: Option<Offsets>, dm: map<str, nat>, compress: bool)
    requires GoodQuestions(qs, mp.Some?) && qs != []
    ensures GoodName(qs[0].name, mp.Some?) && GoodQuestions(qs[1..], mp.Some?)
    ensures var o := PackQuestion(qs[0], off, mp, compress);
            var r := QuestionReach(qs[0], off, mp, dm, compress);
            && o.mp.Some? == mp.Some?
            && var rest := QuestionsReach(qs[1..], off + |o.bytes|, o.mp, r.depths, compress);
               QuestionsReach(qs, off, mp, dm, compress) == Reach(r.ok && rest.ok, rest.depths)
  {
    hide GoodQuestions, PackQuestion, QuestionReach;
    GoodFirstQuestion(qs, mp.Some?);
  }

  lemma ReadQuestionsStep(qs: seq<Question>, msg: str, off: nat)
    requires qs != []
    ensures var q := UnpackQuestion(msg, off);
            && (q.err != NoError ==> ReadQuestions(|qs|, msg, off).err == q.err)
            && (q.err == NoError && q.off1 != off ==>
                  var rest := ReadQuestions(|qs[1..]|, msg, q.off1);
                  ReadQuestions(|qs|, msg, off) == QuestionsRead([q.q] + rest.qs, rest.off1, rest.err))
    ensures PrintedQuestions(qs) == [Question(Printed(qs[0].name), qs[0].qtype, qs[0].qclass)]
            + PrintedQuestions(qs[1..])
  {
    hide UnpackQuestion, Printed;
  }

  lemma {:induction false} RecsReadBack(buf: str, rs: seq<Rec>, mp: Option<Offsets>, dm: map<str, nat>, compress: bool,
                                        more: str)
    requires GoodRecs(rs, mp.Some?) && Sound(buf, mp, dm)
    ensures var o := PackRecs(rs, |buf|, mp, compress);
            var r := RecsReach(rs, |buf|, mp, dm, compress);
            && Sound(buf + o.bytes, o.mp, r.depths)
            && (rs != [] ==> |o.bytes| > 0)
            && if r.ok
               then ReadRRs(|rs|, buf + o.bytes + more, |buf|)
                    == SliceRead(DecodedRecs(rs, |buf|, mp, compress), |buf| + |o.bytes|, NoError)
               else ReadRRs(|rs|, buf + o.bytes + more, |buf|).err == ErrPointers
    ensures FewRecs(rs) ==> RecsReach(rs, |buf|, mp, dm, compress).ok
    decreases |rs|
  {
    hide *;
    FewRecsIs(rs);
    if rs == [] {
      NoRecs(buf, mp, dm, compress, more);
    } else {
      RecsStep(rs, |buf|, mp, compress);
      RecsReachStep(rs, |buf|, mp, dm, compress);
      var o := PackRec(rs[0], |buf|, mp, compress);
      var c := RecChains(rs[0], |buf|, mp, dm, compress);
      var rest := PackRecs(rs[1..], |buf + o.bytes|, o.mp, compress);
      RecRoundTrip(buf, rs[0], mp, dm, compress, rest.bytes + more);
      RecsReadBack(buf + o.bytes, rs[1..], o.mp, c.depths, compress, more);
      Concat3(buf, o.bytes, rest.bytes);
      Concat3(buf + o.bytes, rest.bytes, more);
      ReadRRsStep(|rs|, buf + o.bytes + rest.bytes + more, |buf|);
    }
  }

  lemma NoRecs(buf: str, mp: Option<Offsets>, dm: map<str, nat>, compress: bool, more: str)
    requires Sound(buf, mp, dm)
    ensures GoodRecs([], mp.Some?)
    ensures PackRecs([], |buf|, mp, compress) == Out([], mp)
    ensures RecsReach([], |buf|, mp, dm, compress) == Reach(true, dm)
    ensures ReadRRs(0, buf + [] + more, |buf|) == SliceRead(DecodedRecs([], |buf|, mp, compress), |buf|, NoError)
    ensures buf + [] == buf
  {
    hide Sound;
  }

  lemma RecsReachStep(rs: seq<Rec>, off: nat, mp: Option<Offsets>, dm: map<str, nat>, compress: bool)
    requires GoodRecs(rs, mp.Some?) && rs != []
    ensures GoodRec(rs[0], mp.Some?) && GoodRecs(rs[1..], mp.Some?)
    ensures var o := PackRec(rs[0], off, mp, compress);
            var c := RecChains(rs[0], off, mp, dm, compress);
            && o.mp.Some? == mp.Some?
            && (var rest := RecsReach(rs[1..], off + |o.bytes|, o.mp, c.depths, compress);
                RecsReach(rs, off, mp, dm, compress) == Reach(ChainsOk(c) && rest.ok, rest.depths))
            && DecodedRecs(rs, off, mp, compress)
               == [Decoded(PrintedRec(rs[0]), RdataLen(rs[0], off, mp, compress))]
                  + DecodedRecs(rs[1..], off + |o.bytes|, o.mp, compress)
  {
    hide GoodRec, GoodRecs, PackRec, RecChains, PrintedRec, RdataLen;
    GoodFirstRec(rs, mp.Some?);
  }

  lemma ReadRRsStep(l: nat, msg: str, off: nat)
    requires l > 0
    ensures var r := UnpackRR(msg, off);
            && (r.err != NoError ==> ReadRRs(l, msg, off).err == r.err)
            && (r.err == NoError && r.off1 != off && r.rr != None ==>
                  var rest := ReadRRs(l - 1, msg, r.off1);
                  && (rest.err != NoError ==> ReadRRs(l, msg, off).err == rest.err)
                  && (rest.err == NoError ==>
                        ReadRRs(l, msg, off) == SliceRead([r.rr.value] + rest.rrs, rest.off1, NoError)))
  {
    hide UnpackRR;
  }

  /** The flag word gives back every flag, and the opcode and rcode when they fit in four bits. */
  lemma BitsBack(h: MsgHdr, w: WireHeader)
    requires 0 <= h.rcode <= 0xF && w.id == h.id && w.bits == Bits(h)
    ensures HdrOf(w).truncated == h.truncated
    ensures HdrOf(w) == h <==> 0 <= h.opcode <= 0xF
  {
    hide Bit, Flag, Nibble, OpLow, OpTop, Ones, Tens, Bits;
    OpIs(h.opcode);
    var op, qr := OpLow(h.opcode), h.response || OpTop(h.opcode);
    var t8 := Tens(h.truncated, h.authoritative, op, qr);
    var t4 := Ones(h.checkingDisabled, h.authenticatedData, h.zero, h.recursionAvailable, h.recursionDesired);
    BitsAre(h, t4, t8);
    LowFlags(w.bits, h.rcode, h.checkingDisabled, h.authenticatedData, h.zero, h.recursionAvailable,
             h.recursionDesired, t8);
    HighFlags(w.bits, h.rcode + 0x10 * t4, h.truncated, h.authoritative, op, qr);
  }

  lemma OpIs(opcode: int)
    ensures 0 <= opcode <= 0xF ==> OpLow(opcode) == opcode && !OpTop(opcode)
  {
  }

  /** The flags from CD to RD, as a number. */
  function Ones(cd: bool, ad: bool, z: bool, ra: bool, rd: bool): nat {
    Bit(cd) + 2 * Bit(ad) + 4 * Bit(z) + 8 * Bit(ra) + 16 * Bit(rd)
  }

  /** The fields from TC to QR, as a number. */
  function Tens(tc: bool, aa: bool, op: nat, qr: bool): nat {
    Bit(tc) + 2 * Bit(aa) + 4 * op + 64 * Bit(qr)
  }

  lemma BitsAre(h: MsgHdr, t4: nat, t8: nat)
    requires 0 <= h.rcode <= 0xF
    requires t4 == Ones(h.checkingDisabled, h.authenticatedData, h.zero, h.recursionAvailable, h.recursionDesired)
    requires t8 == Tens(h.truncated, h.authoritative, OpLow(h.opcode), h.response || OpTop(h.opcode))
    ensures Bits(h) == h.rcode + 0x10 * t4 + 0x200 * t8 && t4 < 32
  {
    hide Bit, OpLow, OpTop;
  }

  lemma LowFlags(n: nat, rc: nat, cd: bool, ad: bool, z: bool, ra: bool, rd: bool, t8: nat)
    requires rc < 16 && n == rc + 0x10 * Ones(cd, ad, z, ra, rd) + 0x200 * t8
    ensures Nibble(n, 1) == rc && Flag(n, 0x10) == cd && Flag(n, 0x20) == ad && Flag(n, 0x40) == z
    ensures Flag(n, 0x80) == ra
    ensures Flag(n, 0x100) == rd
  {
    hide Bit, Flag, Nibble;
    var t7 := Bit(rd) + 2 * t8;
    var t6 := Bit(ra) + 2 * t7;
    var t5 := Bit(z) + 2 * t6;
    var t4 := Bit(ad) + 2 * t5;
    NibbleIs(n, 1, Bit(cd) + 2 * t4, rc, 0);
    FlagIs(n, 0x10, t4, cd, rc);
    FlagIs(n, 0x20, t5, ad, rc + 0x10 * Bit(cd));
    FlagIs(n, 0x40, t6, z, rc + 0x10 * Bit(cd) + 0x20 * Bit(ad));
    FlagIs(n, 0x80, t7, ra, n - 0x80 * t6);
    FlagIs(n, 0x100, t8, rd, n - 0x100 * t7);
  }

  lemma HighFlags(n: nat, lo: nat, tc: bool, aa: bool, op: nat, qr: bool)
    requires op < 16 && lo < 0x200 && n == lo + 0x200 * Tens(tc, aa, op, qr)
    ensures Flag(n, 0x200) == tc && Flag(n, 0x400) == aa && Nibble(n, 0x800) == op && Flag(n, 0x8000) == qr
  {
    hide Bit, Flag, Nibble;
    var t10 := op + 16 * Bit(qr);
    var t9 := Bit(aa) + 2 * t10;
    FlagIs(n, 0x200, t9, tc, lo);
    FlagIs(n, 0x400, t10, aa, lo + 0x200 * Bit(tc));
    NibbleIs(n, 0x800, Bit(qr), op, lo + 0x200 * Bit(tc) + 0x400 * Bit(aa));
    FlagIs(n, 0x8000, 0, qr, n - 0x8000 * Bit(qr));
  }

  /** One field of a number written with fields of fixed width. */
  lemma FlagIs(n: nat, v: nat, hi: nat, d: bool, lo: nat)
    requires lo < v && n == (Bit(d) + 2 * hi) * v + lo
    ensures Flag(n, v) == d
  {
    DivIs(n, v, Bit(d) + 2 * hi, lo);
  }

  lemma NibbleIs(n: nat, v: nat, hi: nat, d: nat, lo: nat)
    requires d < 16 && lo < v && n == (d + 16 * hi) * v + lo
    ensures Nibble(n, v) == d
  {
    DivIs(n, v, d + 16 * hi, lo);
  }

  lemma HeaderBack(w: WireHeader, more: str)
    ensures UnpackMsgHdr(HeaderBytes(w) + more, 0) == HeaderRead(w, 12, NoError)
  {
    hide U16, GetU16;
    var b := HeaderBytes(w);
    var msg := b + more;
    assert msg[0..2] == U16(w.id);
    assert msg[2..4] == U16(w.bits);
    assert msg[4..6] == U16(w.qd);
    assert msg[6..8] == U16(w.an);
    assert msg[8..10] == U16(w.ns);
    assert msg[10..12] == U16(w.ar);
    GetU16Put(msg, 0, w.id);
    GetU16Put(msg, 2, w.bits);
    GetU16Put(msg, 4, w.qd);
    GetU16Put(msg, 6, w.an);
    GetU16Put(msg, 8, w.ns);
    GetU16Put(msg, 10, w.ar);
  }

  /** The section counts survive their 16-bit fields. */
  predicate CountsFit(dns: Msg) {
    |dns.question| < 0x1_0000 && |dns.answer| < 0x1_0000 && |dns.ns| < 0x1_0000 && |dns.extra| < 0x1_0000
  }

  /** The message that must come back. */
  function Echo(dns: Msg): ReadMsg
    requires GoodMsg(dns)
  {
    ReadMsg(dns.hdr, PrintedQuestions(dns.question), AnswerBack(dns), NsBack(dns), ExtraBack(dns))
  }

  function AnswerBack(dns: Msg): seq<Decoded>
    requires GoodMsg(dns)
  {
    GoodSections(dns);
    var q := QuestionPart(dns);
    DecodedRecs(RecsOf(dns.answer), 12 + |q.bytes|, q.mp, dns.compress)
  }

  function NsBack(dns: Msg): seq<Decoded>
    requires GoodMsg(dns)
  {
    GoodSections(dns);
    var at, a := 12 + |QuestionPart(dns).bytes|, AnswerPart(dns);
    DecodedRecs(RecsOf(dns.ns), at + |a.bytes|, a.mp, dns.compress)
  }

  function ExtraBack(dns: Msg): seq<Decoded>
    requires GoodMsg(dns)
  {
    GoodSections(dns);
    var at, n := 12 + |QuestionPart(dns).bytes| + |AnswerPart(dns).bytes|, NsPart(dns);
    DecodedRecs(RecsOf(dns.extra), at + |n.bytes|, n.mp, dns.compress)
  }

  // What the names of each part can reach.

  function QuestionHop(dns: Msg): Reach
    requires GoodMsg(dns)
  {
    GoodSections(dns);
    QuestionsReach(dns.question, 12, StartMap(dns), map[], dns.compress)
  }

  function AnswerHop(dns: Msg): Reach
    requires GoodMsg(dns)
  {
    GoodSections(dns);
    var q := QuestionPart(dns);
    RecsReach(RecsOf(dns.answer), 12 + |q.bytes|, q.mp, QuestionHop(dns).depths, dns.compress)
  }

  function NsHop(dns: Msg): Reach
    requires GoodMsg(dns)
  {
    GoodSections(dns);
    var at, a := 12 + |QuestionPart(dns).bytes|, AnswerPart(dns);
    RecsReach(RecsOf(dns.ns), at + |a.bytes|, a.mp, AnswerHop(dns).depths, dns.compress)
  }

  function ExtraHop(dns: Msg): Reach
    requires GoodMsg(dns)
  {
    GoodSections(dns);
    var at, n := 12 + |QuestionPart(dns).bytes| + |AnswerPart(dns).bytes|, NsPart(dns);
    RecsReach(RecsOf(dns.extra), at + |n.bytes|, n.mp, NsHop(dns).depths, dns.compress)
  }

  /** No name of the packed message leads through more than ten pointers. */
  predicate MsgReach(dns: Msg)
    requires GoodMsg(dns)
  {
    QuestionHop(dns).ok && AnswerHop(dns).ok && NsHop(dns).ok && ExtraHop(dns).ok
  }

  lemma QuestionBack(h: str, dns: Msg, more: str)
    requires GoodMsg(dns) && |h| == 12
    ensures var q, r := QuestionPart(dns), QuestionHop(dns);
            && Sound(h + q.bytes, q.mp, r.depths)
            && (dns.question != [] <==> |q.bytes| > 0)
            && var x := ReadQuestions(|dns.question|, h + q.bytes + more, 12);
               if r.ok then x == QuestionsRead(PrintedQuestions(dns.question), 12 + |q.bytes|, NoError)
               else x.err == ErrPointers
  {
    hide GoodMsg, PackQuestions, PackRecs, GoodQuestions, GoodRecs, RecsOf, QuestionPart,
         ReadQuestions, QuestionsReach, PrintedQuestions;
    GoodSections(dns);
    QuestionPartIs(dns);
    QuestionsReadBack(h, dns.question, StartMap(dns), map[], dns.compress, more);
    if dns.question == [] {
      QuestionsNone(12, StartMap(dns), dns.compress);
    }
  }

  lemma RecsPartBack(buf: str, rs: seq<Rec>, mp: Option<Offsets>, dm: map<str, nat>, compress: bool, more: str)
    requires GoodRecs(rs, mp.Some?) && Sound(buf, mp, dm)
    ensures var o := PackRecs(rs, |buf|, mp, compress);
            var r := RecsReach(rs, |buf|, mp, dm, compress);
            && Sound(buf + o.bytes, o.mp, r.depths)
            && (rs != [] <==> |o.bytes| > 0)
            && var x := ReadRRs(|rs|, buf + o.bytes + more, |buf|);
               if r.ok then x == SliceRead(DecodedRecs(rs, |buf|, mp, compress), |buf| + |o.bytes|, NoError)
               else x.err == ErrPointers
  {
    hide *;
    RecsReadBack(buf, rs, mp, dm, compress, more);
    if rs == [] {
      RecsNone(|buf|, mp, compress);
    }
  }

  lemma AnswerPartBack(dns: Msg, buf: str, more: str)
    requires GoodMsg(dns) && |buf| == 12 + |QuestionPart(dns).bytes|
    requires Sound(buf, QuestionPart(dns).mp, QuestionHop(dns).depths)
    ensures PartBack(buf, |dns.answer|, AnswerPart(dns), AnswerHop(dns), AnswerBack(dns), more)
  {
    hide GoodMsg, PackRecs, GoodRecs, RecsOf, QuestionPart, AnswerPart, ReadRRs, RecsReach, DecodedRecs, QuestionHop,
         Sound;
    GoodSections(dns);
    AnswerPartIs(dns);
    var q := QuestionPart(dns);
    RecsPartBack(buf, RecsOf(dns.answer), q.mp, QuestionHop(dns).depths, dns.compress, more);
  }

  lemma NsPartBack(dns: Msg, buf: str, more: str)
    requires GoodMsg(dns) && |buf| == 12 + |QuestionPart(dns).bytes| + |AnswerPart(dns).bytes|
    requires Sound(buf, AnswerPart(dns).mp, AnswerHop(dns).depths)
    ensures PartBack(buf, |dns.ns|, NsPart(dns), NsHop(dns), NsBack(dns), more)
  {
    hide GoodMsg, PackRecs, GoodRecs, RecsOf, QuestionPart, AnswerPart, NsPart, ReadRRs, RecsReach, DecodedRecs,
         AnswerHop, Sound;
    GoodSections(dns);
    NsPartIs(dns);
    var a := AnswerPart(dns);
    RecsPartBack(buf, RecsOf(dns.ns), a.mp, AnswerHop(dns).depths, dns.compress, more);
  }

  lemma ExtraPartBack(dns: Msg, buf: str, more: str)
    requires GoodMsg(dns) && |buf| == 12 + |QuestionPart(dns).bytes| + |AnswerPart(dns).bytes| + |NsPart(dns).bytes|
    requires Sound(buf, NsPart(dns).mp, NsHop(dns).depths)
    ensures PartBack(buf, |dns.extra|, ExtraPart(dns), ExtraHop(dns), ExtraBack(dns), more)
  {
    hide GoodMsg, PackRecs, GoodRecs, RecsOf, QuestionPart, AnswerPart, NsPart, ExtraPart, ReadRRs, RecsReach,
         DecodedRecs, NsHop, Sound;
    GoodSections(dns);
    ExtraPartIs(dns);
    var n := NsPart(dns);
    RecsPartBack(buf, RecsOf(dns.extra), n.mp, NsHop(dns).depths, dns.compress, more);
  }

  /** n records packed as part at the end of buf read back as expected. */
  ghost predicate PartBack(buf: str, n: nat, part: Out, hop: Reach, expected: seq<Decoded>, more: str) {
    && Sound(buf + part.bytes, part.mp, hop.depths)
    && (n > 0 <==> |part.bytes| > 0)
    && var x := ReadRRs(n, buf + part.bytes + more, |buf|);
       if hop.ok then x == SliceRead(expected, |buf| + |part.bytes|, NoError) else x.err == ErrPointers
  }

  /** The error met first when the four parts are read in their order. */
  function FirstError(q: Error, a: Error, n: Error, e: Error): Error {
    if q != NoError then q else if a != NoError then a else if n != NoError then n else e
  }

  lemma FirstIs(q: Error, a: Error, n: Error, e: Error)
    ensures FirstError(q, a, n, e)
            == if q != NoError then q else if a != NoError then a else if n != NoError then n else e
  {
  }

  /** All four parts behind the header. */
  function Parts(dns: Msg): str
    requires GoodMsg(dns)
  {
    QuestionPart(dns).bytes + AnswerPart(dns).bytes + NsPart(dns).bytes + ExtraPart(dns).bytes
  }

  lemma PartsIs(dns: Msg)
    requires GoodMsg(dns)
    ensures Parts(dns) == QuestionPart(dns).bytes + AnswerPart(dns).bytes + NsPart(dns).bytes + ExtraPart(dns).bytes
  {
    hide GoodMsg, QuestionPart, AnswerPart, NsPart, ExtraPart;
  }

  /** Reading the parts one after the other, behind any header and in front of anything: pointers never
      lead into the header. */
  lemma PartsBack(h: str, dns: Msg, more: str)
    requires GoodMsg(dns) && |h| == 12
    ensures var msg := h + Parts(dns) + more;
            var q := ReadQuestions(|dns.question|, msg, 12);
            var a := ReadRRs(|dns.answer|, msg, q.off1);
            var n := ReadRRs(|dns.ns|, msg, a.off1);
            var e := ReadRRs(|dns.extra|, msg, n.off1);
            && (MsgReach(dns) ==>
                  && q.err == NoError && a.err == NoError && n.err == NoError && e.err == NoError
                  && e.off1 == 12 + |Parts(dns)|
                  && q.qs == PrintedQuestions(dns.question)
                  && a.rrs == AnswerBack(dns) && n.rrs == NsBack(dns) && e.rrs == ExtraBack(dns))
            && (!MsgReach(dns) ==> FirstError(q.err, a.err, n.err, e.err) == ErrPointers)
    ensures Parts(dns) != [] <==> !IsEmpty(dns)
  {
    hide *;
    PartsIs(dns);
    ReachIs(dns);
    EmptyIs(dns);
    var (q, x, y, z) := (QuestionPart(dns).bytes, AnswerPart(dns).bytes, NsPart(dns).bytes, ExtraPart(dns).bytes);
    Regroup2(h, q, x, y, z, more);
    QuestionBack(h, dns, x + y + z + more);
    AnswerPartBack(dns, h + q, y + z + more);
    UsePart(h + q, |dns.answer|, AnswerPart(dns), AnswerHop(dns), AnswerBack(dns), y + z + more);
    NsPartBack(dns, h + q + x, z + more);
    UsePart(h + q + x, |dns.ns|, NsPart(dns), NsHop(dns), NsBack(dns), z + more);
    ExtraPartBack(dns, h + q + x + y, more);
    UsePart(h + q + x + y, |dns.extra|, ExtraPart(dns), ExtraHop(dns), ExtraBack(dns), more);
    var msg := h + Parts(dns) + more;
    var rq := ReadQuestions(|dns.question|, msg, 12);
    var ra := ReadRRs(|dns.answer|, msg, rq.off1);
    var rn := ReadRRs(|dns.ns|, msg, ra.off1);
    FirstIs(rq.err, ra.err, rn.err, ReadRRs(|dns.extra|, msg, rn.off1).err);
  }

  lemma SectionsBack(dns: Msg)
    requires GoodMsg(dns)
    ensures var msg := PackMsg(dns).bytes;
            var q := ReadQuestions(|dns.question|, msg, 12);
            var a := ReadRRs(|dns.answer|, msg, q.off1);
            var n := ReadRRs(|dns.ns|, msg, a.off1);
            var e := ReadRRs(|dns.extra|, msg, n.off1);
            && (MsgReach(dns) ==>
                  && q.err == NoError && a.err == NoError && n.err == NoError && e.err == NoError && e.off1 == |msg|
                  && q.qs == PrintedQuestions(dns.question)
                  && a.rrs == AnswerBack(dns) && n.rrs == NsBack(dns) && e.rrs == ExtraBack(dns))
            && (!MsgReach(dns) ==> FirstError(q.err, a.err, n.err, e.err) == ErrPointers)
    ensures 0 <= dns.hdr.rcode <= 0xF
    ensures var h := HeaderBytes(HeaderOf(dns));
            var msg := PackMsg(dns).bytes;
            |msg| >= 12 && msg[..12] == h && (|msg| > 12 <==> !IsEmpty(dns))
  {
    hide *;
    MsgIsParts(dns);
    var h := HeaderBytes(HeaderOf(dns));
    PartsBack(h, dns, []);
    assert h + Parts(dns) + [] == h + Parts(dns);
  }

  lemma MsgIsParts(dns: Msg)
    requires GoodMsg(dns)
    ensures 0 <= dns.hdr.rcode <= 0xF
    ensures PackMsg(dns).bytes == HeaderBytes(HeaderOf(dns)) + Parts(dns)
  {
    hide *;
    PartsAre(dns);
    PartsIs(dns);
    Regroup3(HeaderBytes(HeaderOf(dns)), QuestionPart(dns).bytes, AnswerPart(dns).bytes, NsPart(dns).bytes,
             ExtraPart(dns).bytes);
  }

  lemma Regroup3(h: str, q: str, x: str, y: str, z: str)
    ensures h + (q + x + y + z) == h + q + x + y + z
  {
  }

  predicate IsEmpty(dns: Msg) {
    dns.question == [] && dns.answer == [] && dns.ns == [] && dns.extra == []
  }

  lemma EmptyIs(dns: Msg)
    ensures IsEmpty(dns) <==> dns.question == [] && |dns.answer| == 0 && |dns.ns| == 0 && |dns.extra| == 0
  {
  }

  lemma ReachIs(dns: Msg)
    requires GoodMsg(dns)
    ensures MsgReach(dns) <==> QuestionHop(dns).ok && AnswerHop(dns).ok && NsHop(dns).ok && ExtraHop(dns).ok
  {
  }

  lemma UsePart(buf: str, n: nat, part: Out, hop: Reach, expected: seq<Decoded>, more: str)
    requires PartBack(buf, n, part, hop, expected, more)
    ensures Sound(buf + part.bytes, part.mp, hop.depths)
    ensures n > 0 <==> |part.bytes| > 0
    ensures var x := ReadRRs(n, buf + part.bytes + more, |buf|);
            if hop.ok then x == SliceRead(expected, |buf| + |part.bytes|, NoError) else x.err == ErrPointers
  {
  }

  lemma Regroup2(h: str, q: str, x: str, y: str, z: str, more: str)
    ensures var all := h + (q + x + y + z) + more;
            && h + q + (x + y + z + more) == all && h + q + x + (y + z + more) == all
               && h + q + x + y + (z + more) == all
            && h + q + x + y + z + more == all
  {
  }

  /** The round trip: a good message that is not empty, not marked truncated and keeps every name within
      reach of ten pointers is unpacked without error, and only such a message is; what comes back is
      the header, the questions, and the records with their rdata, in their sections and in order, each
      with the true length of its rdata. */
  lemma MessageRoundTrip(dns: Msg)
    requires GoodMsg(dns) && CountsFit(dns)
    ensures var r := ReadMessage(PackMsg(dns).bytes);
            && (r.err == NoError <==> !IsEmpty(dns) && !dns.hdr.truncated && MsgReach(dns))
            && (!IsEmpty(dns) && !dns.hdr.truncated && !MsgReach(dns) ==> r.err == ErrPointers)
            && (r.err == NoError ==> (r.m == Echo(dns) <==> 0 <= dns.hdr.opcode <= 0xF))
  {
    hide *;
    HeaderIs(dns);
    SectionsBack(dns);
    var msg := PackMsg(dns).bytes;
    assert msg == HeaderBytes(HeaderOf(dns)) + msg[12..];
    HeaderBack(HeaderOf(dns), msg[12..]);
    BitsBack(dns.hdr, HeaderOf(dns));
    EchoHdr(dns);
    ReadShape(dns, msg);
  }

  lemma HeaderIs(dns: Msg)
    requires GoodMsg(dns) && CountsFit(dns)
    ensures 0 <= dns.hdr.rcode <= 0xF
    ensures HeaderOf(dns) == WireHeader(dns.hdr.id, Bits(dns.hdr), |dns.question|, |dns.answer|, |dns.ns|, |dns.extra|)
  {
    hide GoodQuestions, GoodRecs, Bits;
  }

  lemma EchoHdr(dns: Msg)
    requires GoodMsg(dns)
    ensures Echo(dns) == ReadMsg(dns.hdr, PrintedQuestions(dns.question), AnswerBack(dns), NsBack(dns), ExtraBack(dns))
  {
    hide PrintedQuestions, AnswerBack, NsBack, ExtraBack, GoodMsg;
  }

  lemma ReadShape(dns: Msg, msg: str)
    requires UnpackMsgHdr(msg, 0).err == NoError && UnpackMsgHdr(msg, 0).off1 == 12
    requires var h := UnpackMsgHdr(msg, 0).h;
             h.qd == |dns.question| && h.an == |dns.answer| && h.ns == |dns.ns| && h.ar == |dns.extra|
    ensures var h := UnpackMsgHdr(msg, 0).h;
            var q := ReadQuestions(|dns.question|, msg, 12);
            var a := ReadRRs(|dns.answer|, msg, q.off1);
            var n := ReadRRs(|dns.ns|, msg, a.off1);
            var e := ReadRRs(|dns.extra|, msg, n.off1);
            var r := ReadMessage(msg);
            && (|msg| == 12 ==> r.err == ErrTruncated)
            && (|msg| > 12 && FirstError(q.err, a.err, n.err, e.err) != NoError ==>
                  r.err == FirstError(q.err, a.err, n.err, e.err) || (HdrOf(h).truncated && r.err == ErrTruncated))
            && (|msg| > 12 && q.err == NoError && a.err == NoError && n.err == NoError && e.err == NoError ==>
                  && r.m == ReadMsg(HdrOf(h), q.qs, a.rrs, n.rrs, e.rrs)
                  && (e.off1 == |msg| ==> r.err == if HdrOf(h).truncated then ErrTruncated else NoError))
  {
    hide ReadQuestions, ReadRRs, UnpackMsgHdr, HdrOf;
  }

  /** Names of at most ten labels are always within reach, whatever is packed before them. */
  predicate FewLabelsEach(dns: Msg) {
    FewQuestions(dns.question) && FewRecs(RecsOf(dns.answer)) && FewRecs(RecsOf(dns.ns)) && FewRecs(RecsOf(dns.extra))
  }

  lemma FewEach(dns: Msg)
    requires FewLabelsEach(dns)
    ensures FewQuestions(dns.question) && FewRecs(RecsOf(dns.answer)) && FewRecs(RecsOf(dns.ns))
    ensures FewRecs(RecsOf(dns.extra))
  {
    hide FewQuestions, FewRecs;
  }

  lemma SoundStart(h: str, dns: Msg)
    ensures Sound(h, StartMap(dns), map[])
  {
  }

  lemma FewLabelsReach(dns: Msg)
    requires GoodMsg(dns) && FewLabelsEach(dns)
    ensures MsgReach(dns)
  {
    hide *;
    FewEach(dns);
    PartsAre(dns);
    ReachIs(dns);
    GoodSections(dns);
    HopsAre(dns);
    var h := HeaderBytes(HeaderOf(dns));
    var (q, x, y, z) := (QuestionPart(dns), AnswerPart(dns), NsPart(dns), ExtraPart(dns));
    QuestionPartIs(dns);
    SoundStart(h, dns);
    QuestionsReadBack(h, dns.question, StartMap(dns), map[], dns.compress, []);
    QuestionBack(h, dns, []);
    RecsReadBack(h + q.bytes, RecsOf(dns.answer), q.mp, QuestionHop(dns).depths, dns.compress, []);
    AnswerPartBack(dns, h + q.bytes, []);
    UsePart(h + q.bytes, |dns.answer|, x, AnswerHop(dns), AnswerBack(dns), []);
    RecsReadBack(h + q.bytes + x.bytes, RecsOf(dns.ns), x.mp, AnswerHop(dns).depths, dns.compress, []);
    NsPartBack(dns, h + q.bytes + x.bytes, []);
    UsePart(h + q.bytes + x.bytes, |dns.ns|, y, NsHop(dns), NsBack(dns), []);
    RecsReadBack(h + q.bytes + x.bytes + y.bytes, RecsOf(dns.extra), y.mp, NsHop(dns).depths, dns.compress, []);
  }

  lemma HopsAre(dns: Msg)
    requires GoodMsg(dns)
    ensures StartMap(dns).Some? == dns.compress && GoodQuestions(dns.question, dns.compress)
    ensures GoodRecs(RecsOf(dns.answer), dns.compress) && GoodRecs(RecsOf(dns.ns), dns.compress)
    ensures GoodRecs(RecsOf(dns.extra), dns.compress)
    ensures var (q, x, y) := (QuestionPart(dns), AnswerPart(dns), NsPart(dns));
            && QuestionHop(dns) == QuestionsReach(dns.question, 12, StartMap(dns), map[], dns.compress)
            && AnswerHop(dns)
               == RecsReach(RecsOf(dns.answer), 12 + |q.bytes|, q.mp, QuestionHop(dns).depths, dns.compress)
            && NsHop(dns)
               == RecsReach(RecsOf(dns.ns), 12 + |q.bytes| + |x.bytes|, x.mp, AnswerHop(dns).depths, dns.compress)
            && ExtraHop(dns)
               == RecsReach(RecsOf(dns.extra), 12 + |q.bytes| + |x.bytes| + |y.bytes|, y.mp, NsHop(dns).depths,
                            dns.compress)
  {
    hide GoodMsg, PackRecs, PackQuestions, GoodRecs, RecsOf, QuestionPart, AnswerPart, NsPart, RecsReach,
         QuestionsReach;
    GoodSections(dns);
  }
}
