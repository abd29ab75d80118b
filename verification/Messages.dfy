/** PackBuffer and Unpack (msg.go): whole messages. */
module Messages {
  import opened Bytes
  import opened Names
  import opened PackNames
  import opened Records
  import opened UnpackRecords
  import opened MessageTypes
  import opened Lengths

  // ---------- Specification of packing ----------

  function Bit(b: bool): (n: nat)
    ensures n < 2
  {
    if b then 1 else 0
  }

  /** The low four bits of an opcode, and its fifth. */
  function OpLow(opcode: int): (n: nat)
    ensures n < 16
  {
    opcode % 16
  }

  predicate OpTop(opcode: int) {
    opcode % 32 >= 16
  }

  /** The flag word. The opcode is shifted by 11 bits in 16, so only its low five bits stay, and its
      fifth bit shares the place of QR. */
  function Bits(h: MsgHdr): uint16
    requires 0 <= h.rcode <= 0xF
  {
    0x8000 * Bit(h.response || OpTop(h.opcode)) + 0x800 * OpLow(h.opcode) + 0x400 * Bit(h.authoritative)
    + 0x200 * Bit(h.truncated) + 0x100 * Bit(h.recursionDesired) + 0x80 * Bit(h.recursionAvailable) + 0x40 * Bit(h.zero)
    + 0x20 * Bit(h.authenticatedData) + 0x10 * Bit(h.checkingDisabled) + h.rcode
  }

  /** Header: id, flags and the four counts, each cut to 16 bits. */
  datatype WireHeader = WireHeader(id: uint16, bits: uint16, qd: uint16, an: uint16, ns: uint16, ar: uint16)

  function HeaderOf(dns: Msg): WireHeader
    requires 0 <= dns.hdr.rcode <= 0xF
  {
    WireHeader(dns.hdr.id, Bits(dns.hdr), |dns.question| % 0x1_0000, |dns.answer| % 0x1_0000, |dns.ns| % 0x1_0000,
               |dns.extra| % 0x1_0000)
  }

  function HeaderBytes(h: WireHeader): (b: str)
    ensures |b| == 12
  {
    U16(h.id) + U16(h.bits) + U16(h.qd) + U16(h.an) + U16(h.ns) + U16(h.ar)
  }

  predicate FitQuestions(qs: seq<Question>) {
    forall q | q in qs :: FitName(q.name)
  }

  predicate FitRecs(rs: seq<Rec>) {
    forall r | r in rs :: FitRec(r)
  }

  /** A message of this model's types whose names are valid and not too long. */
  predicate FitMsg(dns: Msg) {
    0 <= dns.hdr.rcode <= 0xF && FitQuestions(dns.question) && FitRecs(dns.Recs())
  }

  predicate GoodQuestions(qs: seq<Question>, compressing: bool): (good: bool)
    ensures good ==> FitQuestions(qs)
  {
    forall q | q in qs :: GoodName(q.name, compressing)
  }

  predicate GoodRecs(rs: seq<Rec>, compressing: bool): (good: bool)
    ensures good ==> FitRecs(rs)
  {
    forall r | r in rs :: GoodRec(r, compressing)
  }

  /** Such a message, and if it is to be compressed, its names have no escapes. */
  predicate GoodMsg(dns: Msg): (good: bool)
    ensures good ==> FitMsg(dns)
  {
    && FitMsg(dns)
    && GoodQuestions(dns.question, dns.compress) && GoodRecs(dns.Recs(), dns.compress)
  }

  function PackQuestion(q: Question, off: nat, mp: Option<Offsets>, compress: bool): (o: Out)
    requires FitName(q.name)
    ensures o.mp.Some? == mp.Some?
  {
    var o := PackNamed(q.name, off, mp, compress);
    Out(o.bytes + (U16(q.qtype) + U16(q.qclass)), o.mp)
  }

  function PackQuestions(qs: seq<Question>, off: nat, mp: Option<Offsets>, compress: bool): (o: Out)
    requires FitQuestions(qs)
    ensures o.mp.Some? == mp.Some?
  {
    if qs == [] then Out([], mp)
    else
      FitFirstQuestion(qs);
      var o := PackQuestion(qs[0], off, mp, compress);
      var rest := PackQuestions(qs[1..], off + |o.bytes|, o.mp, compress);
      Out(o.bytes + rest.bytes, rest.mp)
  }

  function PackRecs(rs: seq<Rec>, off: nat, mp: Option<Offsets>, compress: bool): (o: Out)
    requires FitRecs(rs)
    ensures o.mp.Some? == mp.Some?
  {
    if rs == [] then Out([], mp)
    else
      FitFirstRec(rs);
      var o := PackRec(rs[0], off, mp, compress);
      var rest := PackRecs(rs[1..], off + |o.bytes|, o.mp, compress);
      Out(o.bytes + rest.bytes, rest.mp)
  }

  lemma FitFirstQuestion(qs: seq<Question>)
    requires FitQuestions(qs) && qs != []
    ensures FitName(qs[0].name) && FitQuestions(qs[1..])
  {
    hide FitName;
    assert qs[0] in qs;
    assert forall q | q in qs[1..] :: q in qs;
  }

  lemma FitFirstRec(rs: seq<Rec>)
    requires FitRecs(rs) && rs != []
    ensures FitRec(rs[0]) && FitRecs(rs[1..])
  {
    hide FitRec;
    assert rs[0] in rs;
    assert forall r | r in rs[1..] :: r in rs;
  }

  /** The compression map a message starts with: none unless it is to be compressed. */
  function StartMap(dns: Msg): Option<Offsets> {
    if dns.compress then Some(map[]) else None
  }

  /** The message on the wire. */
  function PackMsg(dns: Msg): Out
    requires FitMsg(dns)
  {
    var q := PackQuestions(dns.question, 12, StartMap(dns), dns.compress);
    Append(HeaderBytes(HeaderOf(dns)) + q.bytes, PackRecs(dns.Recs(), 12 + |q.bytes|, q.mp, dns.compress))
  }

  // ---------- What becomes of any message ----------

  function QuestionsFate(qs: seq<Question>, off: nat, mp: Option<Offsets>, compress: bool): Fate {
    if qs == [] then Packed(off, mp)
    else
      match NameFate(qs[0].name, off, mp, compress).Then(4)
      case Packed(off1, mp1) => QuestionsFate(qs[1..], off1, mp1, compress)
      case Stopped(err) => Stopped(err)
  }

  function RecsFate(rs: seq<Rec>, off: nat, mp: Option<Offsets>, compress: bool): Fate {
    if rs == [] then Packed(off, mp)
    else
      match RecFate(rs[0], off, mp, compress)
      case Packed(off1, mp1) => RecsFate(rs[1..], off1, mp1, compress)
      case Stopped(err) => Stopped(err)
  }

  /** Where packing the message ends, or the error it ends with. */
  function MsgFate(dns: Msg): Fate {
    match QuestionsFate(dns.question, 12, StartMap(dns), dns.compress)
    case Packed(off1, mp1) => RecsFate(dns.Recs(), off1, mp1, dns.compress)
    case Stopped(err) => Stopped(err)
  }

  predicate AllWalkable(rs: seq<Rec>) { forall r | r in rs :: Walkable(r) }

  function QuestionsChars(qs: seq<Question>): nat {
    if qs == [] then 0 else |qs[0].name| + 5 + QuestionsChars(qs[1..])
  }

  function RecsChars(rs: seq<Rec>): nat {
    if rs == [] then 0 else RecChars(rs[0]) + RecsChars(rs[1..])
  }

  lemma QuestionFateStep(qs: seq<Question>, off: nat, mp: Option<Offsets>, compress: bool)
    requires qs != []
    ensures QuestionsChars(qs) == |qs[0].name| + 5 + QuestionsChars(qs[1..])
    ensures var f := NameFate(qs[0].name, off, mp, compress);
            && (f.Packed? ==> f.off1 <= off + |qs[0].name| + 1)
            && f.Then(4) == (if f.Packed? then Packed(f.off1 + 4, f.mp) else f)
            && QuestionsFate(qs, off, mp, compress)
               == if f.Packed? then QuestionsFate(qs[1..], f.off1 + 4, f.mp, compress) else f
  {
    hide NameFate;
  }

  lemma RecFateStep(rs: seq<Rec>, off: nat, mp: Option<Offsets>, compress: bool)
    requires rs != []
    ensures RecsChars(rs) == RecChars(rs[0]) + RecsChars(rs[1..])
    ensures var f := RecFate(rs[0], off, mp, compress);
            && (f.Packed? ==> f.off1 <= off + RecChars(rs[0]))
            && RecsFate(rs, off, mp, compress)
               == if f.Packed? then RecsFate(rs[1..], f.off1, f.mp, compress) else f
  {
    hide RecFate, RecChars;
    RecWithin(rs[0], off, mp, compress);
  }

  lemma FateNone(off: nat, mp: Option<Offsets>, compress: bool)
    ensures QuestionsFate([], off, mp, compress) == RecsFate([], off, mp, compress) == Packed(off, mp)
    ensures QuestionsChars([]) == RecsChars([]) == 0
  {
  }

  lemma {:induction false} RecsFateAppend(a: seq<Rec>, b: seq<Rec>, off: nat, mp: Option<Offsets>, compress: bool)
    ensures var f := RecsFate(a, off, mp, compress);
            RecsFate(a + b, off, mp, compress) == if f.Packed? then RecsFate(b, f.off1, f.mp, compress) else f
    ensures RecsChars(a + b) == RecsChars(a) + RecsChars(b)
    decreases |a|
  {
    hide *;
    if a == [] {
      assert a + b == b;
      FateNone(off, mp, compress);
    } else {
      assert (a + b)[1..] == a[1..] + b && (a + b)[0] == a[0];
      RecFateStep(a, off, mp, compress);
      RecFateStep(a + b, off, mp, compress);
      var f := RecFate(a[0], off, mp, compress);
      if f.Packed? {
        RecsFateAppend(a[1..], b, f.off1, f.mp, compress);
      } else {
        RecsFateAppend(a[1..], b, off, mp, compress);
      }
    }
  }

  lemma {:induction false} RecsFateWithin(rs: seq<Rec>, off: nat, mp: Option<Offsets>, compress: bool)
    ensures var f := RecsFate(rs, off, mp, compress);
            if f.Packed? then f.off1 <= off + RecsChars(rs) else f.err != NoError
    decreases |rs|
  {
    hide *;
    if rs == [] {
      FateNone(off, mp, compress);
    } else {
      RecFateStep(rs, off, mp, compress);
      RecWithin(rs[0], off, mp, compress);
      var f := RecFate(rs[0], off, mp, compress);
      if f.Packed? { RecsFateWithin(rs[1..], f.off1, f.mp, compress); }
    }
  }

  // ---------- Room ----------

  function QuestionsLen(qs: seq<Question>): nat {
    if qs == [] then 0 else NameLen(qs[0].name) + 4 + QuestionsLen(qs[1..])
  }

  function RecsLen(rs: seq<Rec>): nat {
    if rs == [] then 0 else RecLen(rs[0]) + RecsLen(rs[1..])
  }

  /** A name needs no more octets than its len method counts. */
  lemma NameLenChars(s: str)
    ensures NameLen(s) <= |s| + 1
  {
    if Parse(s).Good? && s != ROOT {
      ParsedLen([], s, true);
    }
  }

  lemma RecLenChars(r: Rec)
    requires FitRec(r)
    ensures RecLen(r) <= RecChars(r)
  {
    hide NameLen, FitName;
    NameLenChars(r.name);
    if Final(r.data).Some? {
      NameLenChars(Final(r.data).value.0);
    }
  }

  lemma {:induction false} RecsLenTally(rs: seq<Rec>, t: Tally)
    requires FitRecs(rs)
    ensures t.l + RecsLen(rs) <= LenRecs(rs, t, false).l
    decreases |rs|
  {
    if rs != [] {
      hide RecLen, RecChars, FitRec;
      FitFirstRec(rs);
      RecLenChars(rs[0]);
      RecsLenTally(rs[1..], LenRec(rs[0], t, false));
    }
  }

  lemma {:induction false} QuestionsLenTally(qs: seq<Question>, t: Tally)
    ensures t.l + QuestionsLen(qs) <= LenQuestions(qs, t, false).l
    decreases |qs|
  {
    if qs != [] {
      hide NameLen;
      NameLenChars(qs[0].name);
      QuestionsLenTally(qs[1..], LenQuestion(qs[0], t, false));
    }
  }

  /** compressedLen(dns, false) is room enough for the uncompressed message. */
  lemma RoomEnough(dns: Msg)
    requires FitMsg(dns)
    ensures 12 + QuestionsLen(dns.question) + RecsLen(dns.Recs()) <= LenMsg(dns, false).l
  {
    hide LenQuestions, LenRecs, QuestionsLen, RecsLen;
    QuestionsLenTally(dns.question, Tally(12, {}));
    RecsLenTally(dns.Recs(), LenQuestions(dns.question, Tally(12, {}), false));
  }

  lemma PackRecFits(r: Rec, off: nat, mp: Option<Offsets>, compress: bool)
    requires FitRec(r)
    ensures |PackRec(r, off, mp, compress).bytes| <= RecLen(r)
  {
    hide *;
    RecLayout(r, off, mp, compress);
    var h := PackNamed(r.name, off, mp, compress);
    NameFits(r.name);
    DataFits(r.data, off + |h.bytes| + 10, h.mp, compress);
    RecLenIs(r);
  }

  lemma RecLenIs(r: Rec)
    ensures RecLen(r) == NameLen(r.name) + 10 + DataLen(r.data)
  {
  }

  lemma NameFits(s: str)
    requires Parse(s).Good?
    ensures NameLen(s) == LabelsLen(Labels(s)) + 1
  {
  }

  lemma DataFits(d: RData, off: nat, mp: Option<Offsets>, compress: bool)
    requires FitData(d)
    ensures |PackData(d, off, mp, compress).bytes| <= DataLen(d)
  {
    hide Parse, Labels, PackNamed, Fixed;
    if Final(d).Some? {
      DataUnfolds(d, off, mp, compress);
      NameFits(Final(d).value.0);
    }
  }

  // ---------- Packing ----------

  /** Part of what all stands for is written in now[off..cur]; rest is still to come. */
  ghost predicate Halfway(before: str, now: str, off: nat, cur: nat, all: Out, rest: Out, need: nat) {
    && Kept(before, now, off)
    && off <= cur && cur + need <= |now|
    && now[off..cur] + rest.bytes == all.bytes && rest.mp == all.mp
  }

  lemma HalfwayStart(before: str, off: nat, all: Out, need: nat)
    requires off + need <= |before|
    ensures Halfway(before, before, off, off, all, all, need)
  {
    assert [] + all.bytes == all.bytes;
  }

  lemma HalfwayStep(before: str, now: str, now1: str, off: nat, cur: nat, cur1: nat, all: Out, rest: Out, step: Out,
                    rest1: Out,
                    need: nat, need1: nat)
    requires Halfway(before, now, off, cur, all, rest, need)
    requires Kept(now, now1, cur) && cur1 == cur + |step.bytes| && cur1 + need1 <= |now1|
    requires now1[cur..cur1] == step.bytes
    requires rest == Out(step.bytes + rest1.bytes, rest1.mp)
    ensures Halfway(before, now1, off, cur1, all, rest1, need1)
  {
    KeptTrans(before, now, now1, off, cur);
    Splice(now, now1, off, cur, cur1, now[off..cur], step.bytes);
    Concat3(now[off..cur], step.bytes, rest1.bytes);
  }

  lemma HalfwayEnd(before: str, now: str, off: nat, cur: nat, all: Out, rest: Out)
    requires Halfway(before, now, off, cur, all, rest, 0) && rest.bytes == []
    ensures Kept(before, now, off) && cur == off + |all.bytes| <= |now| && now[off..cur] == all.bytes
    ensures rest.mp == all.mp
  {
    assert now[off..cur] + [] == now[off..cur];
  }

  lemma RecsStep(rs: seq<Rec>, off: nat, mp: Option<Offsets>, compress: bool)
    requires FitRecs(rs) && rs != []
    ensures FitRec(rs[0]) && FitRecs(rs[1..])
    ensures var o := PackRec(rs[0], off, mp, compress);
            && o.mp.Some? == mp.Some?
            && |o.bytes| <= RecLen(rs[0])
            && var rest := PackRecs(rs[1..], off + |o.bytes|, o.mp, compress);
               PackRecs(rs, off, mp, compress) == Out(o.bytes + rest.bytes, rest.mp)
    ensures RecsLen(rs) == RecLen(rs[0]) + RecsLen(rs[1..])
  {
    hide FitRec, FitRecs, PackRec, RecLen;
    FitFirstRec(rs);
    PackRecFits(rs[0], off, mp, compress);
  }

  lemma RecsNone(off: nat, mp: Option<Offsets>, compress: bool)
    ensures FitRecs([]) && PackRecs([], off, mp, compress) == Out([], mp) && RecsLen([]) == 0
  {
  }

  lemma MapNull(c: CompressionMap?)
    ensures MapOf(c).Some? == (c != null)
  {
  }

  /** One of PackBuffer's three loops over the record sections. */
  method PackSection(rrs: seq<RR>, msg: array<byte>, off: nat, compression: CompressionMap?, compress: bool)
    returns (off1: nat, err: Error)
    modifies rrs, msg, compression
    ensures FitRecs(RecsOf(rrs)) && off + RecsLen(RecsOf(rrs)) <= msg.Length ==>
              var o := PackRecs(RecsOf(rrs), off, old(MapOf(compression)), compress);
              && err == NoError && off1 == off + |o.bytes| <= msg.Length
              && Kept(old(msg[..]), msg[..], off) && msg[off..off1] == o.bytes && MapOf(compression) == o.mp
    ensures off + RecsChars(RecsOf(rrs)) <= msg.Length ==>
              var f := RecsFate(RecsOf(rrs), off, old(MapOf(compression)), compress);
              && (err == NoError ==> f == Packed(off1, MapOf(compression)) && off1 <= msg.Length)
              && (err != NoError ==> f == Stopped(err) || (err == ErrRdata && !AllWalkable(RecsOf(rrs))))
  {
    hide *;
    ghost var fate := RecsFate(RecsOf(rrs), off, MapOf(compression), compress);
    ghost var room := off + RecsChars(RecsOf(rrs)) <= msg.Length;
    ghost var before, rs := msg[..], RecsOf(rrs);
    ghost var good := FitRecs(rs) && off + RecsLen(rs) <= msg.Length;
    MapNull(compression);
    ghost var all := if good then PackRecs(rs, off, MapOf(compression), compress) else Out([], None);
    off1, err := off, NoError;
    assert rs[0..] == rs;
    if good { HalfwayStart(before, off, all, RecsLen(rs)); }
    for i := 0 to |rrs|
      invariant err == NoError
      invariant room ==>
                  && RecsFate(rs[i..], off1, MapOf(compression), compress) == fate
                  && off1 + RecsChars(rs[i..]) <= msg.Length
      invariant good ==> MapOf(compression).Some? == (compression != null) && FitRecs(rs[i..])
      invariant good ==>
                  Halfway(before, msg[..], off, off1, all, PackRecs(rs[i..], off1, MapOf(compression), compress),
                          RecsLen(rs[i..]))
    {
      ghost var now, cur, mp, need := msg[..], off1, MapOf(compression), RecsLen(rs[i..]);
      assert rs[i..] != [] && rs[i..][0] == rrs[i].rec && rs[i..][1..] == rs[i + 1..];
      RecFateStep(rs[i..], cur, mp, compress);
      WalkableOne(rs, i);
      if good {
        RecsStep(rs[i..], cur, mp, compress);
        HalfwayRoom(before, now, off, cur, all, PackRecs(rs[i..], cur, mp, compress), need);
      }
      off1, err := PackRR(rrs[i], msg, off1, compression, compress);
      if err != NoError {
        return off1, err;
      }
      if good {
        ghost var o := PackRec(rrs[i].rec, cur, mp, compress);
        HalfwayStep(before, now, msg[..], off, cur, off1, all, PackRecs(rs[i..], cur, mp, compress), o,
                    PackRecs(rs[i + 1..], off1, o.mp, compress), need, RecsLen(rs[i + 1..]));
      }
    }
    assert rs[|rrs|..] == [];
    FateNone(off1, MapOf(compression), compress);
    if good {
      RecsNone(off1, MapOf(compression), compress);
      HalfwayEnd(before, msg[..], off, off1, all, PackRecs([], off1, MapOf(compression), compress));
    }
  }

  lemma WalkableOne(rs: seq<Rec>, i: nat)
    requires i < |rs|
    ensures AllWalkable(rs) ==> Walkable(rs[i])
  {
    hide Walkable;
  }

  lemma HalfwayRoom(before: str, now: str, off: nat, cur: nat, all: Out, rest: Out, need: nat)
    requires Halfway(before, now, off, cur, all, rest, need)
    ensures cur + need <= |now|
  {
  }

  lemma {:induction false} PackRecsAppend(a: seq<Rec>, b: seq<Rec>, off: nat, mp: Option<Offsets>, compress: bool)
    requires FitRecs(a + b)
    ensures FitRecs(a) && FitRecs(b)
    ensures RecsLen(a + b) == RecsLen(a) + RecsLen(b)
    ensures var x := PackRecs(a, off, mp, compress);
            var y := PackRecs(b, off + |x.bytes|, x.mp, compress);
            PackRecs(a + b, off, mp, compress) == Out(x.bytes + y.bytes, y.mp)
    decreases |a|
  {
    hide *;
    FitRecsParts(a, b);
    if a == [] {
      RecsNone(off, mp, compress);
      assert a + b == b;
    } else {
      assert (a + b)[1..] == a[1..] + b && (a + b)[0] == a[0];
      RecsStep(a + b, off, mp, compress);
      RecsStep(a, off, mp, compress);
      var o := PackRec(a[0], off, mp, compress);
      var off1 := off + |o.bytes|;
      PackRecsAppend(a[1..], b, off1, o.mp, compress);
      var x1 := PackRecs(a[1..], off1, o.mp, compress);
      Concat3(o.bytes, x1.bytes, PackRecs(b, off1 + |x1.bytes|, x1.mp, compress).bytes);
    }
  }

  lemma FitRecsParts(a: seq<Rec>, b: seq<Rec>)
    requires FitRecs(a + b)
    ensures FitRecs(a) && FitRecs(b)
  {
    hide FitRec;
    assert forall r | r in a :: r in a + b;
    assert forall r | r in b :: r in a + b;
  }

  lemma QuestionsStep(qs: seq<Question>, off: nat, mp: Option<Offsets>, compress: bool)
    requires FitQuestions(qs) && qs != []
    ensures FitName(qs[0].name) && FitQuestions(qs[1..])
    ensures var o := PackQuestion(qs[0], off, mp, compress);
            && o.mp.Some? == mp.Some?
            && |o.bytes| <= NameLen(qs[0].name) + 4
            && var rest := PackQuestions(qs[1..], off + |o.bytes|, o.mp, compress);
               PackQuestions(qs, off, mp, compress) == Out(o.bytes + rest.bytes, rest.mp)
    ensures QuestionsLen(qs) == NameLen(qs[0].name) + 4 + QuestionsLen(qs[1..])
  {
    hide FitQuestions, Parse, Labels, PackNamed;
    FitFirstQuestion(qs);
    NameFits(qs[0].name);
  }

  /** Question.pack */
  method PackQuestionInto(q: Question, msg: array<byte>, off: nat, compression: CompressionMap?, compress: bool)
    returns (off1: nat, err: Error)
    modifies msg, compression
    ensures FitName(q.name) && off + NameLen(q.name) + 4 <= msg.Length ==>
              var o := PackQuestion(q, off, old(MapOf(compression)), compress);
              && err == NoError && off1 == off + |o.bytes| <= msg.Length
              && Kept(old(msg[..]), msg[..], off) && msg[off..off1] == o.bytes && MapOf(compression) == o.mp
    ensures off + |q.name| + 5 <= msg.Length ==>
              && (err == NoError ==> off1 <= msg.Length)
              && (if err == NoError then Packed(off1, MapOf(compression)) else Stopped(err))
                 == NameFate(q.name, off, old(MapOf(compression)), compress).Then(4)
  {
    hide *;
    ThenIs(NameFate(q.name, off, MapOf(compression), compress), 4);
    ghost var b0, mp := msg[..], MapOf(compression);
    ghost var good := FitName(q.name) && off + NameLen(q.name) + 4 <= msg.Length;
    MapNull(compression);
    off1, err := Records.PackDomainName(q.name, msg, off, compression, compress);
    if err != NoError {
      return;
    }
    ghost var b1, o1 := msg[..], off1;
    if good { QuestionShape(q, off, mp, compress); }
    off1, err := PackUint16(q.qtype, msg, off1);
    if err != NoError {
      return;
    }
    ghost var b2, o2 := msg[..], off1;
    KeptTrans(b0, b1, b2, off, o1);
    off1, err := PackUint16(q.qclass, msg, off1);
    if good {
      KeptTrans(b0, b2, msg[..], off, o2);
      Splice(b2, msg[..], o1, o2, off1, U16(q.qtype), U16(q.qclass));
      KeptTrans(b1, b2, msg[..], o1, o2);
      Splice(b1, msg[..], off, o1, off1, PackNamed(q.name, off, mp, compress).bytes, U16(q.qtype) + U16(q.qclass));
    }
  }

  lemma QuestionShape(q: Question, off: nat, mp: Option<Offsets>, compress: bool)
    requires FitName(q.name)
    ensures Parse(q.name).Good? && ShortLabels(Labels(q.name))
    ensures var h := PackNamed(q.name, off, mp, compress);
            && |h.bytes| <= NameLen(q.name)
            && PackQuestion(q, off, mp, compress) == Out(h.bytes + (U16(q.qtype) + U16(q.qclass)), h.mp)
  {
    hide Parse, Labels, PackNamed;
    NameFits(q.name);
  }

  method PackQuestionLoop(qs: seq<Question>, msg: array<byte>, off: nat, compression: CompressionMap?, compress: bool)
    returns (off1: nat, err: Error)
    modifies msg, compression
    ensures FitQuestions(qs) && off + QuestionsLen(qs) <= msg.Length ==>
              var o := PackQuestions(qs, off, old(MapOf(compression)), compress);
              && err == NoError && off1 == off + |o.bytes| <= msg.Length
              && Kept(old(msg[..]), msg[..], off) && msg[off..off1] == o.bytes && MapOf(compression) == o.mp
    ensures off + QuestionsChars(qs) <= msg.Length ==>
              && (err == NoError ==> off1 <= msg.Length)
              && (if err == NoError then Packed(off1, MapOf(compression)) else Stopped(err))
                 == QuestionsFate(qs, off, old(MapOf(compression)), compress)
  {
    hide *;
    ghost var fate := QuestionsFate(qs, off, MapOf(compression), compress);
    ghost var room := off + QuestionsChars(qs) <= msg.Length;
    ghost var before := msg[..];
    ghost var good := FitQuestions(qs) && off + QuestionsLen(qs) <= msg.Length;
    MapNull(compression);
    ghost var all := if good then PackQuestions(qs, off, MapOf(compression), compress) else Out([], None);
    off1, err := off, NoError;
    assert qs[0..] == qs;
    if good { HalfwayStart(before, off, all, QuestionsLen(qs)); }
    for i := 0 to |qs|
      invariant err == NoError
      invariant room ==>
                  && QuestionsFate(qs[i..], off1, MapOf(compression), compress) == fate
                  && off1 + QuestionsChars(qs[i..]) <= msg.Length
      invariant good ==> MapOf(compression).Some? == (compression != null) && FitQuestions(qs[i..])
      invariant good ==>
                  Halfway(before, msg[..], off, off1, all, PackQuestions(qs[i..], off1, MapOf(compression), compress),
                          QuestionsLen(qs[i..]))
    {
      ghost var now, cur, mp, need := msg[..], off1, MapOf(compression), QuestionsLen(qs[i..]);
      assert qs[i..] != [] && qs[i..][0] == qs[i] && qs[i..][1..] == qs[i + 1..];
      QuestionFateStep(qs[i..], cur, mp, compress);
      if good {
        QuestionsStep(qs[i..], cur, mp, compress);
        HalfwayRoom(before, now, off, cur, all, PackQuestions(qs[i..], cur, mp, compress), need);
      }
      off1, err := PackQuestionInto(qs[i], msg, off1, compression, compress);
      if err != NoError {
        return off1, err;
      }
      if good {
        ghost var o := PackQuestion(qs[i], cur, mp, compress);
        HalfwayStep(before, now, msg[..], off, cur, off1, all, PackQuestions(qs[i..], cur, mp, compress), o,
                    PackQuestions(qs[i + 1..], off1, o.mp, compress), need, QuestionsLen(qs[i + 1..]));
      }
    }
    assert qs[|qs|..] == [];
    FateNone(off1, MapOf(compression), compress);
    if good {
      QuestionsNone(off1, MapOf(compression), compress);
      HalfwayEnd(before, msg[..], off, off1, all, PackQuestions([], off1, MapOf(compression), compress));
    }
  }

  lemma QuestionsNone(off: nat, mp: Option<Offsets>, compress: bool)
    ensures FitQuestions([]) && PackQuestions([], off, mp, compress) == Out([], mp) && QuestionsLen([]) == 0
  {
  }

  /** Header.pack */
  method PackWireHeader(h: WireHeader, msg: array<byte>, off: nat) returns (off1: nat, err: Error)
    modifies msg
    ensures if off + 12 > msg.Length then err == ErrOverflow
            else
              err == NoError && off1 == off + 12 && Kept(old(msg[..]), msg[..], off) && msg[off..off1] == HeaderBytes(h)
  {
    hide U16, Kept;
    ghost var b0 := msg[..];
    off1, err := PackUint16(h.id, msg, off);
    if err != NoError {
      return;
    }
    ghost var b1, x1 := msg[..], U16(h.id);
    off1, err := PackUint16(h.bits, msg, off1);
    if err != NoError {
      return;
    }
    ghost var b2, x2 := msg[..], x1 + U16(h.bits);
    KeptTrans(b0, b1, b2, off, off + 2);
    Splice(b1, b2, off, off + 2, off + 4, x1, U16(h.bits));
    off1, err := PackUint16(h.qd, msg, off1);
    if err != NoError {
      return;
    }
    ghost var b3, x3 := msg[..], x2 + U16(h.qd);
    KeptTrans(b0, b2, b3, off, off + 4);
    Splice(b2, b3, off, off + 4, off + 6, x2, U16(h.qd));
    off1, err := PackUint16(h.an, msg, off1);
    if err != NoError {
      return;
    }
    ghost var b4, x4 := msg[..], x3 + U16(h.an);
    KeptTrans(b0, b3, b4, off, off + 6);
    Splice(b3, b4, off, off + 6, off + 8, x3, U16(h.an));
    off1, err := PackUint16(h.ns, msg, off1);
    if err != NoError {
      return;
    }
    ghost var b5, x5 := msg[..], x4 + U16(h.ns);
    KeptTrans(b0, b4, b5, off, off + 8);
    Splice(b4, b5, off, off + 8, off + 10, x4, U16(h.ns));
    off1, err := PackUint16(h.ar, msg, off1);
    if err != NoError {
      return;
    }
    KeptTrans(b0, b5, msg[..], off, off + 10);
    Splice(b5, msg[..], off, off + 10, off + 12, x5, U16(h.ar));
  }

  lemma GoodFirstQuestion(qs: seq<Question>, compressing: bool)
    requires GoodQuestions(qs, compressing) && qs != []
    ensures GoodName(qs[0].name, compressing) && GoodQuestions(qs[1..], compressing)
  {
    hide GoodName;
    assert qs[0] in qs;
    assert forall q | q in qs[1..] :: q in qs;
  }

  lemma GoodFirstRec(rs: seq<Rec>, compressing: bool)
    requires GoodRecs(rs, compressing) && rs != []
    ensures GoodRec(rs[0], compressing) && GoodRecs(rs[1..], compressing)
  {
    hide GoodRec;
    assert rs[0] in rs;
    assert forall r | r in rs[1..] :: r in rs;
  }

  lemma GoodRecsParts(a: seq<Rec>, b: seq<Rec>, compressing: bool)
    requires GoodRecs(a + b, compressing)
    ensures GoodRecs(a, compressing) && GoodRecs(b, compressing)
  {
    hide GoodRec;
    assert forall r | r in a :: r in a + b;
    assert forall r | r in b :: r in a + b;
  }

  lemma GoodSections(dns: Msg)
    requires GoodMsg(dns)
    ensures StartMap(dns).Some? == dns.compress && GoodQuestions(dns.question, dns.compress)
    ensures GoodRecs(RecsOf(dns.answer), dns.compress) && GoodRecs(RecsOf(dns.ns), dns.compress)
    ensures GoodRecs(RecsOf(dns.extra), dns.compress)
  {
    hide GoodRecs, GoodQuestions, RecsOf;
    GoodRecsParts(RecsOf(dns.answer) + RecsOf(dns.ns), RecsOf(dns.extra), dns.compress);
    GoodRecsParts(RecsOf(dns.answer), RecsOf(dns.ns), dns.compress);
  }

  lemma FitSections(dns: Msg)
    requires FitMsg(dns)
    ensures StartMap(dns).Some? == dns.compress && FitQuestions(dns.question)
    ensures FitRecs(RecsOf(dns.answer)) && FitRecs(RecsOf(dns.ns))
    ensures FitRecs(RecsOf(dns.extra))
  {
    hide FitRecs, FitQuestions, RecsOf;
    FitRecsParts(RecsOf(dns.answer) + RecsOf(dns.ns), RecsOf(dns.extra));
    FitRecsParts(RecsOf(dns.answer), RecsOf(dns.ns));
  }

  // The four parts that follow the header.

  function QuestionPart(dns: Msg): (o: Out)
    requires FitMsg(dns)
    ensures o.mp.Some? == dns.compress
  {
    FitSections(dns);
    PackQuestions(dns.question, 12, StartMap(dns), dns.compress)
  }

  function AnswerPart(dns: Msg): (o: Out)
    requires FitMsg(dns)
    ensures o.mp.Some? == dns.compress
  {
    FitSections(dns);
    var q := QuestionPart(dns);
    PackRecs(RecsOf(dns.answer), 12 + |q.bytes|, q.mp, dns.compress)
  }

  function NsPart(dns: Msg): (o: Out)
    requires FitMsg(dns)
    ensures o.mp.Some? == dns.compress
  {
    FitSections(dns);
    var at, a := 12 + |QuestionPart(dns).bytes|, AnswerPart(dns);
    PackRecs(RecsOf(dns.ns), at + |a.bytes|, a.mp, dns.compress)
  }

  function ExtraPart(dns: Msg): (o: Out)
    requires FitMsg(dns)
    ensures o.mp.Some? == dns.compress
  {
    FitSections(dns);
    var at, n := 12 + |QuestionPart(dns).bytes| + |AnswerPart(dns).bytes|, NsPart(dns);
    PackRecs(RecsOf(dns.extra), at + |n.bytes|, n.mp, dns.compress)
  }

  lemma QuestionPartIs(dns: Msg)
    requires FitMsg(dns)
    ensures StartMap(dns).Some? == dns.compress && FitQuestions(dns.question)
    ensures QuestionPart(dns) == PackQuestions(dns.question, 12, StartMap(dns), dns.compress)
  {
    hide FitMsg, FitRecs, FitQuestions, RecsOf, PackQuestions;
    FitSections(dns);
  }

  lemma AnswerPartIs(dns: Msg)
    requires FitMsg(dns)
    ensures FitRecs(RecsOf(dns.answer))
    ensures var q := QuestionPart(dns);
            AnswerPart(dns) == PackRecs(RecsOf(dns.answer), 12 + |q.bytes|, q.mp, dns.compress)
  {
    hide FitMsg, FitRecs, FitQuestions, RecsOf, PackRecs, PackQuestions, QuestionPart;
    FitSections(dns);
  }

  lemma NsPartIs(dns: Msg)
    requires FitMsg(dns)
    ensures FitRecs(RecsOf(dns.ns))
    ensures var at, a := 12 + |QuestionPart(dns).bytes|, AnswerPart(dns);
            NsPart(dns) == PackRecs(RecsOf(dns.ns), at + |a.bytes|, a.mp, dns.compress)
  {
    hide FitMsg, FitRecs, FitQuestions, RecsOf, PackRecs, PackQuestions, QuestionPart, AnswerPart;
    FitSections(dns);
  }

  lemma ExtraPartIs(dns: Msg)
    requires FitMsg(dns)
    ensures FitRecs(RecsOf(dns.extra))
    ensures var at, n := 12 + |QuestionPart(dns).bytes| + |AnswerPart(dns).bytes|, NsPart(dns);
            ExtraPart(dns) == PackRecs(RecsOf(dns.extra), at + |n.bytes|, n.mp, dns.compress)
  {
    hide FitMsg, FitRecs, FitQuestions, RecsOf, PackRecs, PackQuestions, QuestionPart, AnswerPart, NsPart;
    FitSections(dns);
  }

  lemma PackMsgIs(dns: Msg)
    requires FitMsg(dns)
    ensures 0 <= dns.hdr.rcode <= 0xF && FitRecs(dns.Recs())
    ensures var q := QuestionPart(dns);
            PackMsg(dns)
              == Append(HeaderBytes(HeaderOf(dns)) + q.bytes, PackRecs(dns.Recs(), 12 + |q.bytes|, q.mp, dns.compress))
  {
    hide PackQuestions, PackRecs, HeaderBytes, FitQuestions, FitRecs, Append, HeaderOf, StartMap;
    QuestionPartIs(dns);
  }

  lemma RecsPartIs(dns: Msg)
    requires FitMsg(dns)
    ensures FitRecs(dns.Recs())
    ensures var q := QuestionPart(dns);
            PackRecs(dns.Recs(), 12 + |q.bytes|, q.mp, dns.compress)
            == Out(AnswerPart(dns).bytes + NsPart(dns).bytes + ExtraPart(dns).bytes, ExtraPart(dns).mp)
  {
    hide *;
    PackMsgIs(dns);
    RecsAre(dns);
    AnswerPartIs(dns);
    NsPartIs(dns);
    ExtraPartIs(dns);
    var (a, n, e) := (RecsOf(dns.answer), RecsOf(dns.ns), RecsOf(dns.extra));
    var q := QuestionPart(dns);
    PackRecsAppend(a + n, e, 12 + |q.bytes|, q.mp, dns.compress);
    PackRecsAppend(a, n, 12 + |q.bytes|, q.mp, dns.compress);
  }

  lemma PartsAre(dns: Msg)
    requires FitMsg(dns)
    ensures 0 <= dns.hdr.rcode <= 0xF
    ensures PackMsg(dns).bytes
            == HeaderBytes(HeaderOf(dns)) + QuestionPart(dns).bytes + AnswerPart(dns).bytes + NsPart(dns).bytes
              + ExtraPart(dns).bytes
    ensures PackMsg(dns).mp == ExtraPart(dns).mp
  {
    hide *;
    PackMsgIs(dns);
    RecsPartIs(dns);
    AppendIs(HeaderBytes(HeaderOf(dns)) + QuestionPart(dns).bytes,
             Out(AnswerPart(dns).bytes + NsPart(dns).bytes + ExtraPart(dns).bytes, ExtraPart(dns).mp));
    Regroup(HeaderBytes(HeaderOf(dns)) + QuestionPart(dns).bytes, AnswerPart(dns).bytes, NsPart(dns).bytes,
            ExtraPart(dns).bytes);
  }

  lemma AppendIs(b: str, o: Out)
    ensures Append(b, o) == Out(b + o.bytes, o.mp)
  {
  }

  lemma PartsFit(dns: Msg)
    requires FitMsg(dns)
    ensures var (a, n, e) := (RecsOf(dns.answer), RecsOf(dns.ns), RecsOf(dns.extra));
            && |QuestionPart(dns).bytes| <= QuestionsLen(dns.question)
            && |AnswerPart(dns).bytes| <= RecsLen(a) && |NsPart(dns).bytes| <= RecsLen(n)
               && |ExtraPart(dns).bytes| <= RecsLen(e)
            && 12 + QuestionsLen(dns.question) + RecsLen(a) + RecsLen(n) + RecsLen(e) <= LenMsg(dns, false).l
  {
    hide *;
    FitSections(dns);
    QuestionPartIs(dns);
    AnswerPartIs(dns);
    NsPartIs(dns);
    ExtraPartIs(dns);
    RoomEnough(dns);
    var (a, n, e) := (RecsOf(dns.answer), RecsOf(dns.ns), RecsOf(dns.extra));
    var (q, x, y) := (QuestionPart(dns), AnswerPart(dns), NsPart(dns));
    RecsAre(dns);
    RecsLenAppend(a + n, e);
    RecsLenAppend(a, n);
    PackQuestionsFit(dns.question, 12, StartMap(dns), dns.compress);
    PackRecsFit(a, 12 + |q.bytes|, q.mp, dns.compress);
    PackRecsFit(n, 12 + |q.bytes| + |x.bytes|, x.mp, dns.compress);
    PackRecsFit(e, 12 + |q.bytes| + |x.bytes| + |y.bytes|, y.mp, dns.compress);
  }

  /** The packed message, compressed or not, is no longer than compressedLen(dns, false), so the buffer
      of one octet more always suffices. */
  lemma PackedWithinLen(dns: Msg)
    requires FitMsg(dns)
    ensures |PackMsg(dns).bytes| <= LenMsg(dns, false).l
  {
    hide *;
    PartsAre(dns);
    PartsFit(dns);
  }

  lemma RecsAre(dns: Msg)
    ensures dns.Recs() == RecsOf(dns.answer) + RecsOf(dns.ns) + RecsOf(dns.extra)
  {
    hide RecsOf;
  }

  lemma RecsLenAppend(a: seq<Rec>, b: seq<Rec>)
    ensures RecsLen(a + b) == RecsLen(a) + RecsLen(b)
  {
    hide RecLen;
    if a == [] {
      assert a + b == b;
    } else {
      assert (a + b)[1..] == a[1..] + b;
      RecsLenAppend(a[1..], b);
    }
  }

  lemma Regroup(h: str, x: str, y: str, z: str)
    ensures h + (x + y + z) == h + x + y + z
  {
  }

  lemma {:induction false} PackRecsFit(rs: seq<Rec>, off: nat, mp: Option<Offsets>, compress: bool)
    requires FitRecs(rs)
    ensures |PackRecs(rs, off, mp, compress).bytes| <= RecsLen(rs)
    decreases |rs|
  {
    hide *;
    if rs == [] {
      RecsNone(off, mp, compress);
    } else {
      RecsStep(rs, off, mp, compress);
      var o := PackRec(rs[0], off, mp, compress);
      PackRecsFit(rs[1..], off + |o.bytes|, o.mp, compress);
    }
  }

  lemma {:induction false} PackQuestionsFit(qs: seq<Question>, off: nat, mp: Option<Offsets>, compress: bool)
    requires FitQuestions(qs)
    ensures |PackQuestions(qs, off, mp, compress).bytes| <= QuestionsLen(qs)
    decreases |qs|
  {
    hide *;
    if qs == [] {
      QuestionsNone(off, mp, compress);
    } else {
      QuestionsStep(qs, off, mp, compress);
      var o := PackQuestion(qs[0], off, mp, compress);
      PackQuestionsFit(qs[1..], off + |o.bytes|, o.mp, compress);
    }
  }

  /** Packs a message, into buf when it is large enough. Every good message is packed without error. */
  method PackBuffer(dns: Msg, buf: array?<byte>) returns (msg: str, err: Error)
    modifies buf, dns.answer, dns.ns, dns.extra
    ensures err != NoError ==> msg == []
    ensures dns.hdr.rcode < 0 || dns.hdr.rcode > 0xFFF ==> err == ErrRcode
    ensures 0xF < dns.hdr.rcode <= 0xFFF ==> err == ErrExtendedRcode
    ensures FitMsg(dns) ==> err == NoError && msg == PackMsg(dns).bytes
    ensures 0 <= dns.hdr.rcode <= 0xF ==>
              var f := MsgFate(dns);
              && (err == NoError ==> f.Packed? && |msg| == f.off1)
              && (err != NoError ==>
                    || f == Stopped(err)
                    || (err == ErrRdata
                        && exists r | r in dns.Recs() :: (r.name == [] && r.rrtype >= 256) || RecChars(r) > 0x1_0000))
  {
    hide *;
    WalkableAll(dns.Recs());
    var compression: CompressionMap? := null;
    if dns.compress {
      compression := new CompressionMap();
    }
    if dns.hdr.rcode < 0 || dns.hdr.rcode > 0xFFF {
      RcodeBad(dns);
      return [], ErrRcode;
    }
    if dns.hdr.rcode > 0xF {
      RcodeBad(dns);
      return [], ErrExtendedRcode;
    }
    var packLen := CompressedLen(dns, false);
    packLen := packLen + 1;
    LenPositive(dns);
    var b: array<byte>;
    if buf != null && buf.Length >= packLen {
      b := buf;
    } else {
      b := new byte[packLen](_ => 0);
    }
    StartMapIs(dns, compression);
    var off;
    off, err := PackBody(dns, b, compression);
    if err != NoError {
      return [], err;
    }
    assert off <= b.Length;
    msg := b[..off];
    assert msg == b[0..off];
  }

  /** Packs it in: the header and then the pieces. */
  method PackBody(dns: Msg, b: array<byte>, compression: CompressionMap?) returns (off: nat, err: Error)
    requires 0 <= dns.hdr.rcode <= 0xF && MapOf(compression) == StartMap(dns) && (compression != null <==> dns.compress)
    modifies b, compression, dns.answer, dns.ns, dns.extra
    ensures FitMsg(dns) && LenMsg(dns, false).l < b.Length ==>
              err == NoError && off <= b.Length && b[0..off] == PackMsg(dns).bytes
    ensures LenMsg(dns, false).l < b.Length ==>
              var f := MsgFate(dns);
              && (err == NoError ==> f.Packed? && off == f.off1 && off <= b.Length)
              && (err != NoError ==> f == Stopped(err) || (err == ErrRdata && !AllWalkable(dns.Recs())))
  {
    hide *;
    ghost var good := FitMsg(dns) && LenMsg(dns, false).l < b.Length;
    ghost var q := if good then QuestionPart(dns).bytes else [];
    var c := dns.compress;
    if good { QuestionPartIs(dns); PackMsgIs(dns); BodyFits(dns); }
    CharsLen(dns);
    MsgFateIs(dns);
    off, err := PackWireHeader(HeaderOf(dns), b, 0);
    if err != NoError {
      return;
    }
    ghost var b0, o0 := b[..], off;
    off, err := PackQuestionLoop(dns.question, b, off, compression, c);
    if err != NoError {
      return;
    }
    ghost var b1, o1, mp1 := b[..], off, MapOf(compression);
    if good { Splice(b0, b1, 0, o0, o1, HeaderBytes(HeaderOf(dns)), q); }
    if LenMsg(dns, false).l < b.Length { QuestionsWithin(dns, o1, mp1); }
    off, err := PackSections(dns, b, off, compression, c);
    if good {
      BodyDone(b1, b[..], o1, off, HeaderBytes(HeaderOf(dns)) + q, PackRecs(dns.Recs(), o1, mp1, c));
      assert b[0..off] == b[..][0..off];
    }
  }

  lemma BodyDone(before: str, now: str, off: nat, off1: nat, head: str, o: Out)
    requires off <= off1 <= |now| == |before| && before[0..off] == head && Kept(before, now, off)
    requires now[off..off1] == o.bytes
    ensures now[0..off1] == Append(head, o).bytes
  {
    Splice(before, now, 0, off, off1, head, o.bytes);
  }

  lemma QuestionsWithin(dns: Msg, off: nat, mp: Option<Offsets>)
    requires QuestionsFate(dns.question, 12, StartMap(dns), dns.compress) == Packed(off, mp)
    ensures off <= 12 + QuestionsChars(dns.question)
  {
    QuestionsFateWithin(dns.question, 12, StartMap(dns), dns.compress);
  }

  lemma {:induction false} QuestionsFateWithin(qs: seq<Question>, off: nat, mp: Option<Offsets>, compress: bool)
    ensures var f := QuestionsFate(qs, off, mp, compress);
            if f.Packed? then f.off1 <= off + QuestionsChars(qs) else f.err != NoError
    decreases |qs|
  {
    hide *;
    if qs == [] {
      FateNone(off, mp, compress);
    } else {
      QuestionFateStep(qs, off, mp, compress);
      var f := NameFate(qs[0].name, off, mp, compress);
      if f.Packed? { QuestionsFateWithin(qs[1..], f.off1 + 4, f.mp, compress); }
    }
  }

  lemma MsgFateIs(dns: Msg)
    ensures var f := QuestionsFate(dns.question, 12, StartMap(dns), dns.compress);
            MsgFate(dns) == if f.Packed? then RecsFate(dns.Recs(), f.off1, f.mp, dns.compress) else f
  {
    hide QuestionsFate, RecsFate, StartMap, RecsOf;
  }

  /** compressedLen(dns, false) counts the characters. */
  lemma CharsLen(dns: Msg)
    ensures LenMsg(dns, false).l == 12 + QuestionsChars(dns.question) + RecsChars(dns.Recs())
  {
    hide LenQuestions, LenRecs, QuestionsChars, RecsChars;
    QuestionsTally(dns.question, Tally(12, {}));
    RecsTally(dns.Recs(), LenQuestions(dns.question, Tally(12, {}), false));
  }

  lemma {:induction false} QuestionsTally(qs: seq<Question>, t: Tally)
    ensures LenQuestions(qs, t, false).l == t.l + QuestionsChars(qs)
    decreases |qs|
  {
    if qs != [] { QuestionsTally(qs[1..], LenQuestion(qs[0], t, false)); }
  }

  lemma {:induction false} RecsTally(rs: seq<Rec>, t: Tally)
    ensures LenRecs(rs, t, false).l == t.l + RecsChars(rs)
    decreases |rs|
  {
    hide RecChars;
    if rs != [] { RecsTally(rs[1..], LenRec(rs[0], t, false)); }
  }

  lemma BodyFits(dns: Msg)
    requires FitMsg(dns)
    ensures FitRecs(dns.Recs())
    ensures var q := QuestionPart(dns);
            && q.mp.Some? == dns.compress
            && |q.bytes| <= QuestionsLen(dns.question)
            && 12 + QuestionsLen(dns.question) + RecsLen(dns.Recs()) <= LenMsg(dns, false).l
  {
    hide *;
    PackMsgIs(dns);
    QuestionPartIs(dns);
    RoomEnough(dns);
    PackQuestionsFit(dns.question, 12, StartMap(dns), dns.compress);
  }

  /** The three sections of records. */
  method PackSections(dns: Msg, b: array<byte>, off0: nat, compression: CompressionMap?, compress: bool)
    returns (off: nat, err: Error)
    modifies b, compression, dns.answer, dns.ns, dns.extra
    ensures FitRecs(dns.Recs()) && off0 + RecsLen(dns.Recs()) <= b.Length ==>
              var o := PackRecs(dns.Recs(), off0, old(MapOf(compression)), compress);
              && err == NoError && off == off0 + |o.bytes| <= b.Length
              && Kept(old(b[..]), b[..], off0) && b[off0..off] == o.bytes && MapOf(compression) == o.mp
    ensures off0 + RecsChars(dns.Recs()) <= b.Length ==>
              var f := RecsFate(dns.Recs(), off0, old(MapOf(compression)), compress);
              && (err == NoError ==> f == Packed(off, MapOf(compression)) && off <= b.Length)
              && (err != NoError ==> f == Stopped(err) || (err == ErrRdata && !AllWalkable(dns.Recs())))
  {
    hide *;
    ghost var (a, n, e) := (RecsOf(dns.answer), RecsOf(dns.ns), RecsOf(dns.extra));
    ghost var good := FitRecs(a + n + e) && off0 + RecsLen(a + n + e) <= b.Length;
    ghost var b0, mp0 := b[..], MapOf(compression);
    RecsAre(dns);
    SectionFates(a, n, e, off0, mp0, compress);
    if good { SectionOuts(a, n, e, off0, mp0, compress); }
    off, err := PackSection(dns.answer, b, off0, compression, compress);
    if err != NoError {
      return;
    }
    ghost var b1, o1, mp1 := b[..], off, MapOf(compression);
    off, err := PackSection(dns.ns, b, off, compression, compress);
    if err != NoError {
      return;
    }
    ghost var b2, o2, mp2 := b[..], off, MapOf(compression);
    off, err := PackSection(dns.extra, b, off, compression, compress);
    if good {
      TwoWrites(b0, b1, b2, off0, o1, o2, PackRecs(a, off0, mp0, compress).bytes, PackRecs(n, o1, mp1, compress).bytes);
      TwoWrites(b0, b2, b[..], off0, o2, off, b2[off0..o2], PackRecs(e, o2, mp2, compress).bytes);
    }
  }

  lemma TwoWrites(b0: str, b1: str, b2: str, off: nat, o1: nat, o2: nat, x: str, y: str)
    requires off <= o1 <= o2 <= |b2| && Kept(b0, b1, off) && Kept(b1, b2, o1) && b1[off..o1] == x && b2[o1..o2] == y
    ensures Kept(b0, b2, off) && b2[off..o2] == x + y
  {
    KeptTrans(b0, b1, b2, off, o1);
    Splice(b1, b2, off, o1, o2, x, y);
  }

  lemma SectionFates(a: seq<Rec>, n: seq<Rec>, e: seq<Rec>, off: nat, mp: Option<Offsets>, compress: bool)
    ensures RecsChars(a + n + e) == RecsChars(a) + RecsChars(n) + RecsChars(e)
    ensures AllWalkable(a + n + e) ==> AllWalkable(a) && AllWalkable(n) && AllWalkable(e)
    ensures var f := RecsFate(a, off, mp, compress);
            var g := if f.Packed? then RecsFate(n, f.off1, f.mp, compress) else f;
            && (f.Packed? ==> f.off1 <= off + RecsChars(a))
            && (f.Packed? && g.Packed? ==> g.off1 <= f.off1 + RecsChars(n))
            && RecsFate(a + n + e, off, mp, compress)
               == if g.Packed? then RecsFate(e, g.off1, g.mp, compress) else g
  {
    hide *;
    RecsFateAppend(a + n, e, off, mp, compress);
    RecsFateAppend(a, n, off, mp, compress);
    RecsFateWithin(a, off, mp, compress);
    var f := RecsFate(a, off, mp, compress);
    if f.Packed? { RecsFateWithin(n, f.off1, f.mp, compress); }
    WalkableParts(a, n, e);
  }

  lemma WalkableAll(rs: seq<Rec>)
    ensures !AllWalkable(rs) ==> exists r | r in rs :: (r.name == [] && r.rrtype >= 256) || RecChars(r) > 0x1_0000
  {
    hide RecChars;
    if !AllWalkable(rs) {
      var r :| r in rs && !Walkable(r);
    }
  }

  lemma WalkableParts(a: seq<Rec>, n: seq<Rec>, e: seq<Rec>)
    ensures AllWalkable(a + n + e) ==> AllWalkable(a) && AllWalkable(n) && AllWalkable(e)
  {
    hide Walkable;
    assert forall r | r in a || r in n || r in e :: r in a + n + e;
  }

  lemma SectionOuts(a: seq<Rec>, n: seq<Rec>, e: seq<Rec>, off: nat, mp: Option<Offsets>, compress: bool)
    requires FitRecs(a + n + e)
    ensures FitRecs(a) && FitRecs(n) && FitRecs(e)
    ensures RecsLen(a + n + e) == RecsLen(a) + RecsLen(n) + RecsLen(e)
    ensures var x := PackRecs(a, off, mp, compress);
            var y := PackRecs(n, off + |x.bytes|, x.mp, compress);
            var z := PackRecs(e, off + |x.bytes| + |y.bytes|, y.mp, compress);
            && |x.bytes| <= RecsLen(a) && |y.bytes| <= RecsLen(n)
            && PackRecs(a + n + e, off, mp, compress) == Out(x.bytes + y.bytes + z.bytes, z.mp)
  {
    hide *;
    PackRecsAppend(a + n, e, off, mp, compress);
    PackRecsAppend(a, n, off, mp, compress);
    PackRecsFit(a, off, mp, compress);
    var x := PackRecs(a, off, mp, compress);
    PackRecsFit(n, off + |x.bytes|, x.mp, compress);
  }

  lemma RcodeBad(dns: Msg)
    ensures FitMsg(dns) ==> 0 <= dns.hdr.rcode <= 0xF
  {
    hide FitQuestions, FitRecs;
  }

  lemma StartMapIs(dns: Msg, c: CompressionMap?)
    requires c != null <==> dns.compress
    requires c != null ==> c.m == map[]
    ensures MapOf(c) == StartMap(dns) && MapOf(c).Some? == (c != null)
  {
  }

  lemma LenPositive(dns: Msg)
    ensures LenMsg(dns, false).l >= 12
  {
    hide LenQuestions, LenRecs;
    UncompressedGrows(dns.question, dns.Recs(), Tally(12, {}));
  }

  lemma UncompressedGrows(qs: seq<Question>, rs: seq<Rec>, t: Tally)
    ensures LenRecs(rs, LenQuestions(qs, t, false), false).l >= t.l
    decreases |qs|, |rs|
  {
    if qs != [] {
      UncompressedGrows(qs[1..], rs, LenQuestion(qs[0], t, false));
    } else if rs != [] {
      assert LenQuestions([], LenRec(rs[0], t, false), false) == LenRec(rs[0], t, false);
      UncompressedGrows([], rs[1..], LenRec(rs[0], t, false));
    }
  }
}
