/** From a question that spells out addresses to the reply on the wire, and back. */
module Replies {
  import opened Bytes
  import opened Names
  import opened PackNames
  import opened UnpackNames
  import opened Compression
  import opened Records
  import opened UnpackRecords
  import opened LabelOps
  import opened MessageTypes
  import opened Messages
  import opened UnpackMessages
  import opened PrintedNames
  import opened Scanner
  import opened ScannerGreedy
  import opened AddressText
  import opened Responses

  // ---------- The records for a list of addresses ----------

  /** An address that a question of this type is answered with. */
  predicate Answerable(qtype: uint16, ip: str) {
    |ip| == 16 && (qtype == TYPE_AAAA || (qtype == TYPE_A && To4(ip) != []))
  }

  predicate AllAnswerable(qtype: uint16, ips: seq<str>) {
    forall ip | ip in ips :: Answerable(qtype, ip)
  }

  function AnswerRec(qtype: uint16, name: str, ttl: uint32, ip: str): Rec {
    Rec(name, qtype, CLASS_INET, ttl, if qtype == TYPE_A then A(To4(ip)) else AAAA(ip))
  }

  function AnswerRecs(qtype: uint16, name: str, ttl: uint32, ips: seq<str>): (rs: seq<Rec>)
    ensures |rs| == |ips| && forall k | 0 <= k < |ips| :: rs[k] == AnswerRec(qtype, name, ttl, ips[k])
  {
    if ips == [] then [] else [AnswerRec(qtype, name, ttl, ips[0])] + AnswerRecs(qtype, name, ttl, ips[1..])
  }

  lemma {:induction false} AnswersAll(ips: seq<str>, ip4: str, ip6: str, qtype: uint16, name: str, ttl: uint32)
    requires AllAnswerable(qtype, ips)
    ensures Answers(ips, ip4, ip6, qtype, name, ttl) == AnswerRecs(qtype, name, ttl, ips)
    decreases |ips|
  {
    hide To4;
    if ips != [] {
      assert ips[0] in ips && Answerable(qtype, ips[0]);
      assert forall ip | ip in ips[1..] :: ip in ips;
      AnswersAll(ips[1..], To4(ips[0]), To16(ips[0]), qtype, name, ttl);
    }
  }

  // ---------- The question ----------

  /** Labels that may stand in front of the addresses. */
  predicate Quiet(prefix: seq<str>) {
    Dotless(prefix) && (prefix == [] || (NoRun(prefix) && !Trips(prefix[0])))
  }

  lemma QuietScan(prefix: seq<str>, xs: seq<str>)
    requires Quiet(prefix) && AllAddresses(xs)
    ensures var s := JoinDots(prefix + xs); Scan(s, |s| - 1) == Done(Values(xs))
  {
    hide Scan, JoinDots, Dotless, NoRun, AllAddresses, Trips;
    if prefix == [] {
      assert prefix + xs == xs;
      ParseJoined(xs);
    } else {
      PrefixIgnored(prefix, xs);
    }
  }

  /** Text without a dot and without a colon holds no address. */
  lemma PlainHasNone(s: str)
    requires DOT !in s && COLON !in s && s != []
    ensures !Scan(s, |s| - 1).Done? || Scan(s, |s| - 1).ips == []
  {
    hide Scan;
    FieldsCons(s, COLON, []);
    SingleLabel(s);
  }

  lemma NotKeyword(s: str, word: str)
    requires DOT in s || COLON in s
    requires DOT !in word && COLON !in word
    ensures LowerAll(s) != word
  {
    var c := if DOT in s then DOT else COLON;
    var k :| 0 <= k < |s| && s[k] == c;
    assert LowerAll(s)[k] == c;
    assert c in LowerAll(s);
  }

  /** The last label of an address is no command. */
  lemma NoCommand(l: str)
    requires IsOctet(l) || Groups(l).Some?
    ensures New(UpperAll(l)).Noop?
  {
    hide Groups, ParseInt, Decimal;
    var u := UpperAll(UpperAll(l));
    if IsOctet(l) {
      assert IsDigit(l[0]);
      assert u[0] == l[0];
    } else {
      ColonEarly(l);
      if |l| == 3 {
        assert l[0] == COLON;
        assert u[0] == COLON;
      }
    }
  }

  lemma LastOf(ls: seq<str>, x: str)
    requires IsAddress(x)
    ensures var f := Fields(x, DOT);
            f != [] && (ls + f)[|ls + f| - 1] == f[|f| - 1] && (IsOctet(f[|f| - 1]) || Groups(f[|f| - 1]).Some?)
  {
    hide Groups, Fields, IsOctet, Quad;
    AddressFields(x);
    var f := Fields(x, DOT);
    if |f| == 4 {
      QuadNonempty(f);
      assert f[3] in f;
    }
  }

  /** Addresses at the end of a request are not taken for a command. */
  lemma AddressesNoCommand(prefix: seq<str>, xs: seq<str>)
    requires Dotless(prefix) && AllAddresses(xs) && xs != []
    ensures CommandOf(JoinDots(prefix + xs)) == (Noop, JoinDots(prefix + xs))
  {
    hide Dotless, AllAddresses, JoinDots, New, Greedy, LastIndexByte, IsOctet, Groups, Fields, IsAddress;
    var s := JoinDots(prefix + xs);
    var ls := Flat(prefix, xs);
    FlatIs(prefix, xs);
    var n := |ls| - 1;
    assert xs[|xs| - 1] in xs;
    LastAddress(xs);
    LastOf(Flat(prefix, xs[..|xs| - 1]), xs[|xs| - 1]);
    NoCommand(ls[n]);
    assert s[..|s|] == s;
    OffZero(ls);
    if n > 0 {
      CutAt(ls, n);
    }
    DotlessIs(ls);
    DotInLast(ls, |s|);
    if n > 0 {
      assert ls[n..] == [ls[n]];
      JoinOne(ls[n]);
    }
  }

  lemma LastAddress(xs: seq<str>)
    requires AllAddresses(xs) && xs != []
    ensures IsAddress(xs[|xs| - 1])
  {
    hide IsAddress;
    assert xs[|xs| - 1] in xs;
  }

  lemma JoinOne(l: str)
    ensures JoinDots([l]) == l
  {
  }

  function QuestionName(prefix: seq<str>, xs: seq<str>, domain: str): str {
    JoinDots(prefix + xs) + [DOT] + domain
  }

  /** A question that spells out addresses, behind labels that mean nothing, is answered with exactly
      these addresses in their order. */
  lemma FrameAddresses(ip: str, qtype: uint16, prefix: seq<str>, xs: seq<str>, domain: str, random: nat)
    requires Quiet(prefix) && AllAddresses(xs) && xs != []
    ensures var name := QuestionName(prefix, xs, domain);
            Frame(ip, qtype, name, domain, random) == Framed(Answers(Values(xs), [], [], qtype, name, DEFAULT_TTL))
  {
    hide Scan, Answers, CommandOf, JoinDots, AllAddresses, Dotless, NoRun, Trips, Values;
    var s := JoinDots(prefix + xs);
    var name := QuestionName(prefix, xs, domain);
    assert name[|name| - |domain|..] == domain;
    assert At(name, domain, |name| - |domain|);
    assert name[..|name| - |domain| - 1] == s;
    QuietScan(prefix, xs);
    AddressesNoCommand(prefix, xs);
    ValuesSome(xs);
    if DOT !in s && COLON !in s {
      if s == [] { ScanOver(s, -1); } else { PlainHasNone(s); }
    }
    NotKeyword(s, ECHO);
    NotKeyword(s, REFLECT);
  }

  lemma ValuesSome(xs: seq<str>)
    requires AllAddresses(xs)
    ensures |Values(xs)| == |xs|
  {
  }

  // ---------- The reply on the wire ----------

  lemma GoodAnswers(qtype: uint16, name: str, ttl: uint32, ips: seq<str>, compressing: bool)
    requires GoodName(name, compressing) && AllAnswerable(qtype, ips)
    ensures GoodRecs(AnswerRecs(qtype, name, ttl, ips), compressing)
  {
    hide GoodName, GoodRec, FitRec, AnswerRec, AnswerRecs, FitRecs, Answerable;
    var rs := AnswerRecs(qtype, name, ttl, ips);
    forall r | r in rs
      ensures GoodRec(r, compressing)
    {
      var k :| 0 <= k < |rs| && rs[k] == r;
      assert ips[k] in ips;
      GoodAnswer(qtype, name, ttl, ips[k], compressing);
    }
  }

  lemma GoodAnswer(qtype: uint16, name: str, ttl: uint32, ip: str, compressing: bool)
    requires GoodName(name, compressing) && Answerable(qtype, ip)
    ensures GoodRec(AnswerRec(qtype, name, ttl, ip), compressing)
  {
    hide GoodName, FitName;
  }

  /** Every name so far can be reached, and name, if it is a key, is spelled without a pointer. */
  ghost predicate NameReady(mp: Option<Offsets>, dm: map<str, nat>, ls: seq<Label>, compress: bool) {
    && (mp.None? <==> !compress)
    && (mp.Some? && ls != [] ==> Hit(mp, Join(ls)) && DepthAt(dm, Join(ls)) == 0)
  }

  lemma {:induction false} DepthNone(ls: seq<Label>, mp: Option<Offsets>, dm: map<str, nat>, compress: bool)
    requires mp == None || mp == Some(map[])
    ensures Depth(ls, mp, dm, compress) == 0
    decreases |ls|
  {
    if ls != [] {
      DepthNone(ls[1..], mp, dm, compress);
    }
  }

  ghost predicate Keeps(mp: Option<Offsets>, mp1: Option<Offsets>) {
    mp.Some? && mp1.Some? && forall k | k in mp.value :: k in mp1.value && mp1.value[k] == mp.value[k]
  }

  lemma {:induction false} PackKeepsKeys(ls: seq<Label>, off: nat, mp: Option<Offsets>, compress: bool)
    requires ShortLabels(ls) && mp.Some?
    ensures Keeps(mp, PackName(ls, off, mp, compress).mp)
    decreases |ls|
  {
    hide PackName, Join, Record, ShortLabels;
    if ls == [] {
      PackNameNone(off, mp, compress);
    } else if compress && Hit(mp, Join(ls)) {
      HitSame(ls, off, mp);
    } else {
      ShortFirst(ls);
      PackNameMore(ls, off, mp, compress);
      var mp1 := Record(mp, Join(ls), off);
      RecordKeeps(mp, Join(ls), off);
      PackKeepsKeys(ls[1..], off + |ls[0]| + 1, mp1, compress);
    }
  }

  lemma RecordKeeps(mp: Option<Offsets>, key: str, off: nat)
    requires mp.Some?
    ensures Keeps(mp, Record(mp, key, off))
  {
  }

  lemma HitSame(ls: seq<Label>, off: nat, mp: Option<Offsets>)
    requires ShortLabels(ls) && ls != [] && Hit(mp, Join(ls))
    ensures PackName(ls, off, mp, true).mp == mp
  {
  }

  lemma FirstName(ls: seq<Label>, dm: map<str, nat>, compress: bool)
    requires ShortLabels(ls)
    ensures var mp := if compress then Some(map[]) else None;
            var d := Depth(ls, mp, dm, compress);
            var mp1 := PackName(ls, 12, mp, compress).mp;
            d == 0 && NameReady(mp1, Depths(mp, mp1, dm, d), ls, compress)
  {
    hide Join, ShortLabels;
    var mp: Option<Offsets> := if compress then Some(map[]) else None;
    DepthNone(ls, mp, dm, compress);
    if compress && ls != [] {
      ShortFirst(ls);
      PackNameMore(ls, 12, mp, compress);
      PackKeepsKeys(ls[1..], 12 + |ls[0]| + 1, Record(mp, Join(ls), 12), compress);
    }
  }

  lemma ShortFirst(ls: seq<Label>)
    requires ShortLabels(ls) && ls != []
    ensures ShortLabels(ls[1..]) && |ls[0]| <= 63
  {
    assert ls[0] in ls;
    assert forall l | l in ls[1..] :: l in ls;
  }

  /** Once the name is in the map it is packed as one pointer, and nothing changes. */
  lemma AgainName(ls: seq<Label>, off: nat, mp: Option<Offsets>, dm: map<str, nat>, compress: bool)
    requires ShortLabels(ls) && NameReady(mp, dm, ls, compress)
    ensures var d := Depth(ls, mp, dm, compress);
            var mp1 := PackName(ls, off, mp, compress).mp;
            d <= 1 && NameReady(mp1, Depths(mp, mp1, dm, d), ls, compress)
  {
    hide Join, ShortLabels;
    if mp.None? {
      DepthNone(ls, mp, dm, compress);
    }
  }

  /** A record with that name, and no name in its rdata. */
  lemma SameNameRec(r: Rec, off: nat, mp: Option<Offsets>, dm: map<str, nat>, compress: bool)
    requires GoodRec(r, mp.Some?) && Final(r.data).None? && Parse(r.name).Good?
    requires NameReady(mp, dm, Labels(r.name), compress)
    ensures var c := RecChains(r, off, mp, dm, compress);
            ChainsOk(c) && NameReady(PackRec(r, off, mp, compress).mp, c.depths, Labels(r.name), compress)
  {
    hide Parse, Labels, PackName, Depth, Depths, NameReady, GoodRec, PackRec, RecChains, Final;
    RecShape(r, off, mp, compress);
    ChainsShape(r, off, mp, dm, compress);
    AgainName(Labels(r.name), off, mp, dm, compress);
    PlainMap(r, off, mp, compress);
  }

  lemma {:induction false} SameNameReach(rs: seq<Rec>, name: str, off: nat, mp: Option<Offsets>, dm: map<str, nat>,
                                         compress: bool)
    requires GoodRecs(rs, mp.Some?) && Parse(name).Good?
    requires forall k | 0 <= k < |rs| :: rs[k].name == name && Final(rs[k].data).None?
    requires NameReady(mp, dm, Labels(name), compress)
    ensures RecsReach(rs, off, mp, dm, compress).ok
    decreases |rs|
  {
    hide *;
    if rs == [] {
      ReachNone(off, mp, dm, compress);
    } else {
      RecsReachStep(rs, off, mp, dm, compress);
      SameNameRec(rs[0], off, mp, dm, compress);
      SameNameReach(rs[1..], name, off + |PackRec(rs[0], off, mp, compress).bytes|,
                    PackRec(rs[0], off, mp, compress).mp,
                    RecChains(rs[0], off, mp, dm, compress).depths, compress);
    }
  }

  lemma ReachNone(off: nat, mp: Option<Offsets>, dm: map<str, nat>, compress: bool)
    ensures GoodRecs([], mp.Some?) && RecsReach([], off, mp, dm, compress) == Reach(true, dm)
  {
  }

  lemma PlainMap(r: Rec, off: nat, mp: Option<Offsets>, compress: bool)
    requires GoodRec(r, mp.Some?) && Final(r.data).None? && Parse(r.name).Good?
    ensures PackRec(r, off, mp, compress).mp == PackName(Labels(r.name), off, mp, compress).mp
  {
    hide Parse, Labels, PackName;
  }

  lemma {:induction false} DecodedAt(rs: seq<Rec>, off: nat, mp: Option<Offsets>, compress: bool, k: nat)
    requires GoodRecs(rs, mp.Some?) && k < |rs| && Final(rs[k].data).None?
    ensures var d := DecodedRecs(rs, off, mp, compress)[k];
            d.rec == PrintedRec(rs[k]) && d.rdlength as int == |Fixed(rs[k].data)|
    decreases k
  {
    hide *;
    RecsReachStep(rs, off, mp, map[], compress);
    if k == 0 {
      FirstDecoded(rs[0], off, mp, compress);
    } else {
      var o := PackRec(rs[0], off, mp, compress);
      DecodedAt(rs[1..], off + |o.bytes|, o.mp, compress, k - 1);
    }
  }

  lemma FirstDecoded(r: Rec, off: nat, mp: Option<Offsets>, compress: bool)
    requires GoodRec(r, mp.Some?) && Final(r.data).None?
    ensures RdataLen(r, off, mp, compress) as int == |Fixed(r.data)|
  {
    hide *;
    RecShape(r, off, mp, compress);
    var h := PackName(Labels(r.name), off, mp, compress);
    DataShape(r.data, off + |h.bytes| + 10, h.mp, compress);
  }

  /** One question, and in the answer section addresses for its name. */
  predicate AddressReply(dns: Msg, q: Question, ttl: uint32, ips: seq<str>) {
    && dns.question == [q] && dns.ns == [] && dns.extra == []
    && RecsOf(dns.answer) == AnswerRecs(q.qtype, q.name, ttl, ips)
    && AllAnswerable(q.qtype, ips)
    && GoodName(q.name, dns.compress)
    && 0 <= dns.hdr.rcode <= 0xF
  }

  lemma ReplyGood(dns: Msg, q: Question, ttl: uint32, ips: seq<str>)
    requires AddressReply(dns, q, ttl, ips)
    ensures GoodMsg(dns)
  {
    hide GoodName, GoodRecs, AnswerRecs, AllAnswerable, RecsOf;
    GoodAnswers(q.qtype, q.name, ttl, ips, dns.compress);
    var a := RecsOf(dns.answer);
    EmptyRecs();
    assert a + [] + [] == a;
  }

  lemma EmptyRecs()
    ensures RecsOf([]) == []
  {
  }

  lemma ReplyParts(dns: Msg, q: Question, ttl: uint32, ips: seq<str>)
    requires AddressReply(dns, q, ttl, ips)
    ensures dns.question == [q] && RecsOf(dns.answer) == AnswerRecs(q.qtype, q.name, ttl, ips)
    ensures RecsOf(dns.ns) == RecsOf(dns.extra) == []
    ensures |dns.answer| == |ips| && Parse(q.name).Good? && GoodName(q.name, dns.compress)
    ensures StartMap(dns) == if dns.compress then Some(map[]) else None
  {
    hide AnswerRecs, AllAnswerable, Parse, Labels, GoodRecs, LabelsLen;
    EmptyRecs();
  }

  lemma AnswersPlain(qtype: uint16, name: str, ttl: uint32, ips: seq<str>)
    ensures forall k | 0 <= k < |ips| ::
              AnswerRecs(qtype, name, ttl, ips)[k].name == name
                && Final(AnswerRecs(qtype, name, ttl, ips)[k].data).None?
  {
  }

  lemma OneQuestion(q: Question, mp: Option<Offsets>, dm: map<str, nat>, compress: bool)
    requires GoodName(q.name, mp.Some?)
    ensures GoodQuestions([q], mp.Some?)
    ensures PackQuestions([q], 12, mp, compress).mp == PackQuestion(q, 12, mp, compress).mp
    ensures QuestionsReach([q], 12, mp, dm, compress) == QuestionReach(q, 12, mp, dm, compress)
  {
    hide *;
    GoodOne(q, mp.Some?);
    QuestionsStep([q], 12, mp, compress);
    QuestionsReachStep([q], 12, mp, dm, compress);
    var o := PackQuestion(q, 12, mp, compress);
    assert [q][1..] == [];
    QuestionsNone(12 + |o.bytes|, o.mp, compress);
    NoMoreReach(12 + |o.bytes|, o.mp, QuestionReach(q, 12, mp, dm, compress).depths, compress);
  }

  lemma GoodOne(q: Question, compressing: bool)
    requires GoodName(q.name, compressing)
    ensures GoodQuestions([q], compressing)
  {
    hide GoodName;
  }

  lemma NoMoreReach(off: nat, mp: Option<Offsets>, dm: map<str, nat>, compress: bool)
    ensures GoodQuestions([], mp.Some?) && QuestionsReach([], off, mp, dm, compress) == Reach(true, dm)
  {
  }

  /** The question spells its name out, and every answer points to it: one pointer at most. */
  lemma ReplyReach(dns: Msg, q: Question, ttl: uint32, ips: seq<str>)
    requires AddressReply(dns, q, ttl, ips) && GoodMsg(dns)
    ensures MsgReach(dns)
  {
    hide *;
    ReplyParts(dns, q, ttl, ips);
    ReachIs(dns);
    HopsAre(dns);
    QuestionPartIs(dns);
    var mp, c := StartMap(dns), dns.compress;
    OneQuestion(q, mp, map[], c);
    QuestionShape(q, 12, mp, c);
    PackedAsLabels(q.name, 12, mp, c);
    ReachShape(q, 12, mp, map[], c);
    FirstName(Labels(q.name), map[], c);
    var (qp, a, n) := (QuestionPart(dns), AnswerPart(dns), NsPart(dns));
    AnswersPlain(q.qtype, q.name, ttl, ips);
    SameNameReach(RecsOf(dns.answer), q.name, 12 + |qp.bytes|, qp.mp, QuestionHop(dns).depths, c);
    ReachNone(12 + |qp.bytes| + |a.bytes|, a.mp, AnswerHop(dns).depths, c);
    ReachNone(12 + |qp.bytes| + |a.bytes| + |n.bytes|, n.mp, NsHop(dns).depths, c);
  }

  /** What an answer reads back as. */
  function AnswerBack(q: Question, ttl: uint32, ip: str): Decoded
    requires Answerable(q.qtype, ip)
  {
    Decoded(AnswerRec(q.qtype, Printed(q.name), ttl, ip), if q.qtype == TYPE_A then 4 else 16)
  }

  lemma AnswerPrinted(q: Question, ttl: uint32, ip: str)
    requires Answerable(q.qtype, ip)
    ensures var r := AnswerRec(q.qtype, q.name, ttl, ip);
            && PrintedRec(r) == AnswerBack(q, ttl, ip).rec
            && |Fixed(r.data)| == AnswerBack(q, ttl, ip).rdlength as int
  {
    hide Printed;
  }

  /** The packed reply reads back as the same addresses, in the same order. */
  lemma ReplyReads(dns: Msg, q: Question, ttl: uint32, ips: seq<str>)
    requires AddressReply(dns, q, ttl, ips) && |ips| < 0x1_0000
    requires !dns.hdr.truncated && 0 <= dns.hdr.opcode <= 0xF
    ensures GoodMsg(dns)
    ensures var r := ReadMessage(PackMsg(dns).bytes);
            && r.err == NoError && r.m.hdr == dns.hdr && r.m.ns == [] && r.m.extra == []
            && r.m.question == [Question(Printed(q.name), q.qtype, q.qclass)]
            && |r.m.answer| == |ips|
            && forall k | 0 <= k < |ips| :: Answerable(q.qtype, ips[k]) && r.m.answer[k] == AnswerBack(q, ttl, ips[k])
  {
    hide *;
    ReplyGood(dns, q, ttl, ips);
    ReplyReach(dns, q, ttl, ips);
    ReplyParts(dns, q, ttl, ips);
    ReplyCounts(dns, q);
    MessageRoundTrip(dns);
    EchoHdr(dns);
    PrintedOne(q);
    AnswerPartIs(dns);
    BackIs(dns);
    forall k | 0 <= k < |ips|
      ensures Answerable(q.qtype, ips[k])
      ensures UnpackMessages.AnswerBack(dns)[k] == AnswerBack(q, ttl, ips[k])
    {
      AnswersPlain(q.qtype, q.name, ttl, ips);
      OneAnswerable(dns, q, ttl, ips, k);
      DecodedAt(RecsOf(dns.answer), 12 + |QuestionPart(dns).bytes|, QuestionPart(dns).mp, dns.compress, k);
      AnswerPrinted(q, ttl, ips[k]);
    }
  }

  lemma OneAnswerable(dns: Msg, q: Question, ttl: uint32, ips: seq<str>, k: nat)
    requires AddressReply(dns, q, ttl, ips) && k < |ips|
    ensures Answerable(q.qtype, ips[k])
  {
    hide Answerable, AnswerRecs, GoodName, RecsOf;
    assert ips[k] in ips;
  }

  lemma PrintedOne(q: Question)
    ensures PrintedQuestions([q]) == [Question(Printed(q.name), q.qtype, q.qclass)]
  {
    hide Printed;
  }

  lemma ReplyCounts(dns: Msg, q: Question)
    requires dns.question == [q] && |dns.answer| < 0x1_0000 && RecsOf(dns.ns) == RecsOf(dns.extra) == []
    ensures CountsFit(dns) && !IsEmpty(dns)
  {
  }

  /** The answers that come back, and nothing in the other sections. */
  lemma BackIs(dns: Msg)
    requires GoodMsg(dns) && RecsOf(dns.ns) == RecsOf(dns.extra) == []
    ensures GoodRecs(RecsOf(dns.answer), dns.compress) && QuestionPart(dns).mp.Some? == dns.compress
    ensures UnpackMessages.AnswerBack(dns)
            == DecodedRecs(RecsOf(dns.answer), 12 + |QuestionPart(dns).bytes|, QuestionPart(dns).mp, dns.compress)
    ensures NsBack(dns) == ExtraBack(dns) == []
  {
    hide GoodMsg, GoodRecs, RecsOf, QuestionPart, AnswerPart, NsPart;
    GoodSections(dns);
  }

  // ---------- Questions that are good names ----------

  lemma {:induction false} JoinAppend(a: seq<Label>, b: seq<Label>)
    ensures Join(a + b) == Join(a) + Join(b)
    decreases |a|
  {
    if a == [] {
      assert a + b == b;
    } else {
      assert (a + b)[1..] == a[1..] + b;
      JoinAppend(a[1..], b);
      Concat3(a[0] + [DOT], Join(a[1..]), Join(b));
    }
  }

  lemma {:induction false} JoinIsDots(ls: seq<Label>)
    requires ls != []
    ensures Join(ls) == JoinDots(ls) + [DOT]
    decreases |ls|
  {
    if |ls| == 1 {
      assert Join(ls) == ls[0] + [DOT] + Join([]);
    } else {
      JoinIsDots(ls[1..]);
      Concat3(ls[0] + [DOT], JoinDots(ls[1..]), [DOT]);
    }
  }

  lemma {:induction false} FieldsBound(s: str, c: byte)
    requires forall f | f in Fields(s, c) :: |f| <= 4
    ensures |s| + 1 <= |Fields(s, c)| * 5 - (4 - |Fields(s, c)[0]|)
    decreases |s|
  {
    if s != [] {
      var all, rest := Fields(s, c), Fields(s[1..], c);
      if s[0] == c {
        assert all[1..] == rest;
        FieldsBound(s[1..], c);
      } else {
        assert all[0] == [s[0]] + rest[0] && all[1..] == rest[1..];
        assert forall f | f in rest :: f == rest[0] || f in all[1..];
        assert all[0] in all;
        FieldsBound(s[1..], c);
      }
    }
  }

  /** Labels that packDomainName takes as they are. */
  lemma AddressPlain(x: str)
    requires IsAddress(x)
    ensures PlainLabels(Fields(x, DOT))
  {
    hide Groups, Fields, IsOctet, Quad;
    AddressFields(x);
    var f := Fields(x, DOT);
    if |f| == 4 {
      QuadNonempty(f);
      forall l | l in f
        ensures 1 <= |l| <= 63 && DOT !in l && BACKSLASH !in l
      {
        OctetPlain(l);
      }
    } else {
      GroupsPlain(x);
    }
  }

  lemma OctetPlain(l: str)
    requires IsOctet(l)
    ensures 1 <= |l| <= 63 && DOT !in l && BACKSLASH !in l
  {
    hide Decimal;
  }

  lemma GroupsPlain(x: str)
    requires Groups(x).Some?
    ensures 1 <= |x| <= 63 && DOT !in x && BACKSLASH !in x
  {
    hide GroupBytes;
    var g := Fields(x, COLON);
    assert forall f | f in g :: IsGroup(f);
    FieldsBound(x, COLON);
    assert g[0] in g;
    ColonEarly(x);
    if DOT in x {
      DottedNone(x);
    }
    if BACKSLASH in x {
      NoHexNone(x, BACKSLASH);
    }
  }

  lemma {:induction false} FlatPlain(prefix: seq<str>, xs: seq<str>)
    requires PlainLabels(prefix) && AllAddresses(xs)
    ensures PlainLabels(Flat(prefix, xs))
    decreases |xs|
  {
    hide PlainLabels, IsAddress, Fields;
    if xs != [] {
      var n := |xs| - 1;
      assert xs[n] in xs && forall x | x in xs[..n] :: x in xs;
      FlatPlain(prefix, xs[..n]);
      AddressPlain(xs[n]);
      PlainBoth(Flat(prefix, xs[..n]), Fields(xs[n], DOT));
    }
  }

  lemma PlainBoth(a: seq<Label>, b: seq<Label>)
    requires PlainLabels(a) && PlainLabels(b)
    ensures PlainLabels(a + b)
  {
  }

  lemma {:induction false} PlainJoined(ls: seq<Label>)
    requires PlainLabels(ls)
    ensures BACKSLASH !in Join(ls)
    decreases |ls|
  {
    if ls != [] {
      assert ls[0] in ls;
      assert forall l | l in ls[1..] :: l in ls;
      PlainJoined(ls[1..]);
    }
  }

  /** A concatenation of plain labels that is not too long is a good name. */
  lemma PlainGood(ls: seq<Label>, compressing: bool)
    requires PlainLabels(ls) && ls != [] && |Join(ls)| < MAX_WIRE_OCTETS
    ensures GoodName(Join(ls), compressing)
  {
    hide PlainLabels, ParseFrom;
    ParseJoin(ls, true);
    PlainJoined(ls);
    PlainValid(ls);
    JoinIsDots(ls);
  }

  lemma PlainValid(ls: seq<Label>)
    requires PlainLabels(ls) && ls != []
    ensures ValidLabels(ls) && Join(ls) != ROOT
  {
    assert ls[0] in ls;
  }

  /** Every question of this form that has at most 254 characters is a good name, so every list of
      addresses that fits can be asked for. */
  lemma QuestionGood(prefix: seq<str>, xs: seq<str>, domain: str, compressing: bool)
    requires PlainLabels(prefix) && Dotless(prefix) && AllAddresses(xs) && xs != []
    requires GoodName(domain, true) && domain != ROOT
    requires |QuestionName(prefix, xs, domain)| < MAX_WIRE_OCTETS
    ensures GoodName(QuestionName(prefix, xs, domain), compressing)
  {
    hide PlainLabels, Dotless, AllAddresses, JoinDots, Join, Parse, Labels, Flat, Greedy, Values, ParseFrom;
    FlatIs(prefix, xs);
    FlatPlain(prefix, xs);
    PlainName(domain);
    var ls := Flat(prefix, xs);
    assert ls != [] by { assert |prefix + xs| > 0; }
    JoinIsDots(ls);
    JoinAppend(ls, Labels(domain));
    PlainBoth(ls, Labels(domain));
    PlainGood(ls + Labels(domain), compressing);
  }

  // ---------- The whole way ----------

  /** A request for the given addresses goes through handleQuestions, is packed, and is unpacked by the
      one who asked: what it holds is these addresses, in their order, and nothing else. */
  method AskForAddresses(h: MsgHdr, q: Question, compress: bool, ip: str, servingDomains: seq<str>, random: nat,
                         ghost prefix: seq<str>, ghost xs: seq<str>, ghost served: nat)
    returns (r: ReadMsg, err: Error)
    requires Quiet(prefix) && AllAddresses(xs) && xs != [] && |xs| < 0x1_0000
    requires served < |servingDomains| && q.name == QuestionName(prefix, xs, servingDomains[served])
    requires forall j | 0 <= j < served :: !HasSuffix(q.name, servingDomains[j])
    requires GoodName(q.name, compress) && AllAnswerable(q.qtype, Values(xs))
    ensures err == NoError
    ensures r.hdr == MsgHdr(h.id, true, 0, true, false, h.recursionDesired, false, false, false, false, 0)
    ensures r.question == [Question(Printed(q.name), q.qtype, q.qclass)]
    ensures |r.answer| == |xs|
    ensures forall k | 0 <= k < |xs| ::
              r.answer[k].rec.rrtype == q.qtype && r.answer[k].rec.cls == 1 && r.answer[k].rec.ttl == 43200
    ensures forall k, ip4: str | 0 <= k < |xs| && q.qtype == 1 && |ip4| == 4 && xs[k] == QuadText(ip4) ::
              r.answer[k].rec.data == A(ip4)
    ensures forall k, ip6: str | 0 <= k < |xs| && q.qtype == 28 && |ip6| == 16 && xs[k] == Text(ip6) ::
              r.answer[k].rec.data == AAAA(ip6)
    ensures forall k | 0 <= k < |xs| ::
              Answerable(q.qtype, Values(xs)[k]) && r.answer[k] == AnswerBack(q, DEFAULT_TTL, Values(xs)[k])
    ensures r.ns == [] && r.extra == []
    ensures r.question == [q] <==> WrittenOut(q.name)
    ensures WrittenOut(q.name) ==> forall k | 0 <= k < |xs| :: r.answer[k].rec.name == q.name
  {
    hide *;
    ghost var domain := servingDomains[served];
    OwnName(q, compress);
    DomainFound(servingDomains, q.name, prefix, xs, served);
    AnswerTexts(q, xs);
    ReplyHdrIs(h);
    FrameAddresses(ip, q.qtype, prefix, xs, domain, random);
    AnswersAll(Values(xs), [], [], q.qtype, q.name, DEFAULT_TTL);
    OneAnswered(q, ip, servingDomains, random, Values(xs));
    var m, end := HandleQuestions(h, [q], compress, ip, servingDomains, random);
    IsReply(m, end, h, q, compress, DEFAULT_TTL, Values(xs));
    ReplyReads(m, q, DEFAULT_TTL, Values(xs));
    var wire;
    forall k | 0 <= k < |m.answer|
      ensures fresh(m.answer[k])
    {
      assert m.answer[k] in m.answer;
    }
    wire, err := PackBuffer(m, null);
    r, err := Unpack(wire);
  }

  lemma DomainFound(domains: seq<str>, name: str, prefix: seq<str>, xs: seq<str>, i: nat)
    requires i < |domains| && name == QuestionName(prefix, xs, domains[i])
    requires forall j | 0 <= j < i :: !HasSuffix(name, domains[j])
    ensures CurrentDomain(domains, name) == domains[i]
  {
    hide JoinDots, CurrentDomain;
    SuffixIs(name, domains[i]);
    CurrentDomainIs(domains, name);
    assert FirstSuffix(domains, name, i);
  }

  lemma ReplyHdrIs(h: MsgHdr)
    ensures ReplyHdr(h, true)
            == MsgHdr(h.id, true, 0, true, false, h.recursionDesired, false, false, false, false, 0)
  {
  }

  /** What is answered to the text of an address is the address. */
  lemma AnswerTexts(q: Question, xs: seq<str>)
    requires AllAddresses(xs) && AllAnswerable(q.qtype, Values(xs))
    ensures forall k | 0 <= k < |xs| :: Answerable(q.qtype, Values(xs)[k])
    ensures forall k | 0 <= k < |xs| ::
              var a := AnswerBack(q, DEFAULT_TTL, Values(xs)[k]).rec;
              a.rrtype == q.qtype && a.cls == 1 && a.ttl == 43200
    ensures forall k, ip4: str | 0 <= k < |xs| && q.qtype == 1 && |ip4| == 4 && xs[k] == QuadText(ip4) ::
              AnswerBack(q, DEFAULT_TTL, Values(xs)[k]).rec.data == A(ip4)
    ensures forall k, ip6: str | 0 <= k < |xs| && q.qtype == 28 && |ip6| == 16 && xs[k] == Text(ip6) ::
              AnswerBack(q, DEFAULT_TTL, Values(xs)[k]).rec.data == AAAA(ip6)
  {
    hide ParseIP, QuadText, Text, Printed, Answerable;
    forall k | 0 <= k < |xs|
      ensures Answerable(q.qtype, Values(xs)[k])
    {
      assert Values(xs)[k] in Values(xs);
    }
    forall k, ip4: str | 0 <= k < |xs| && q.qtype == 1 && |ip4| == 4 && xs[k] == QuadText(ip4)
      ensures AnswerBack(q, DEFAULT_TTL, Values(xs)[k]).rec.data == A(ip4)
    {
      QuadReads(ip4);
      assert To4(V4_PREFIX + ip4) == ip4;
    }
    forall k, ip6: str | 0 <= k < |xs| && q.qtype == 28 && |ip6| == 16 && xs[k] == Text(ip6)
      ensures AnswerBack(q, DEFAULT_TTL, Values(xs)[k]).rec.data == AAAA(ip6)
    {
      TextReads(ip6);
    }
  }

  lemma OwnName(q: Question, compress: bool)
    requires GoodName(q.name, compress)
    ensures [Question(Printed(q.name), q.qtype, q.qclass)] == [q] <==> WrittenOut(q.name)
    ensures WrittenOut(q.name) ==>
              forall ttl: uint32, ip | Answerable(q.qtype, ip) :: AnswerBack(q, ttl, ip).rec.name == q.name
  {
    hide WrittenOut, Printed, ValidName, Labels;
    PrintedSame(q.name);
  }

  lemma OneAnswered(q: Question, ip: str, servingDomains: seq<str>, random: nat, ips: seq<str>)
    requires AllAnswerable(q.qtype, ips) && ips != []
    ensures Answered([q], ip, servingDomains, random)
            == Frame(ip, q.qtype, q.name, CurrentDomain(servingDomains, q.name), random)
  {
    hide Frame, CurrentDomain, To4;
    assert ips[0] in ips && Answerable(q.qtype, ips[0]);
  }

  lemma IsReply(m: Msg, end: Ending, h: MsgHdr, q: Question, compress: bool, ttl: uint32, ips: seq<str>)
    requires Matches(Framed(AnswerRecs(q.qtype, q.name, ttl, ips)), m.answer, end) && ips != []
    requires end == Returned ==>
               && m.hdr == ReplyHdr(h, m.answer != []) && m.compress == compress
               && m.question == (if [q] == [] then [] else [[q][0]]) && m.ns == [] && m.extra == []
    requires GoodName(q.name, compress) && AllAnswerable(q.qtype, ips)
    ensures AddressReply(m, q, ttl, ips) && m.hdr == ReplyHdr(h, true) && !m.hdr.truncated && m.hdr.opcode == 0
    ensures m.ns == [] && m.extra == []
  {
    hide GoodName, AllAnswerable, AnswerRecs;
  }
}
