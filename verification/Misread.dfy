/** Names that compression changes: inputs for which the keys of EscapedNames collide. */
module Misread {
  import opened Bytes
  import opened Names
  import opened PackNames
  import opened UnpackNames
  import opened Compression
  import opened EscapedNames
  import opened Records
  import opened MessageTypes
  import opened Messages
  import opened UnpackMessages

  const A: byte := 97
  const B: byte := 98
  const C: byte := 99

  /** \a.b. and a\.b. */
  const TWO_LABELS: str := [BACKSLASH, A, DOT, B, DOT]
  const ONE_LABEL: str := [A, BACKSLASH, DOT, B, DOT]

  /** \097b.c. and 7b.c. */
  const EARLY: str := [BACKSLASH, 48, 57, 55, B, DOT, C, DOT]
  const LATER: str := [55, B, DOT, C, DOT]

  /** One octet of a label of a concrete name. */
  lemma Octet(name: str, cur: Label, s: str, tail: str, compress: bool, first: bool, cur1: Label, more: str, tail1: str)
    requires |cur| + |s| + |tail| <= |name| && s != [] && s != [BACKSLASH]
    requires FirstTok(s).Lit? && cur1 == cur + [FirstTok(s).b] && more == s[TokLen(s)..] && tail1 == Stale(s) + tail
    ensures ParseFrom(cur, s, first) == ParseFrom(cur1, more, first)
    ensures KeysFrom(name, cur, s, tail, compress) == KeysFrom(name, cur1, more, tail1, compress)
  {
  }

  /** The dot behind a label. */
  lemma Dot(name: str, cur: Label, more: str, tail: str, compress: bool, first: bool, key: str)
    requires 0 < |cur| < 64 && |cur| + 1 + |more| + |tail| <= |name|
    requires key == if compress then cur + [DOT] + more + tail else name[|name| - (|cur| + 1 + |more| + |tail|)..]
    ensures ParseFrom([], more, false).Good? ==>
              ParseFrom(cur, [DOT] + more, first) == Good([cur] + ParseFrom([], more, false).labels)
    ensures KeysFrom(name, cur, [DOT] + more, tail, compress) == [key] + KeysFrom(name, [], more, tail, compress)
  {
    hide ParseFrom, KeysFrom;
    var s := [DOT] + more;
    assert s[0] == DOT && s[1..] == more;
    Concat3(cur, [DOT], more);
    KeysChar(name, cur, s, tail, compress);
    DotParses(cur, s, first);
  }

  lemma DotParses(cur: Label, s: str, first: bool)
    requires 0 < |cur| < 64 && s != [] && s[0] == DOT
    ensures ParseFrom([], s[1..], false).Good? ==>
              ParseFrom(cur, s, first) == Good([cur] + ParseFrom([], s[1..], false).labels)
  {
  }

  lemma End(name: str, tail: str, compress: bool)
    requires |tail| <= |name|
    ensures ParseFrom([], [], false) == Good([]) && KeysFrom(name, [], [], tail, compress) == []
  {
  }

  /** Both names leave "a.b.." in the scratch array when their first label is complete. */
  lemma Collision()
    ensures Parse(TWO_LABELS) == Good([[A], [B]])
    ensures NameKeys(TWO_LABELS, true) == [[A, DOT, B, DOT, DOT], [B, DOT, DOT]]
    ensures Parse(ONE_LABEL) == Good([[A, DOT, B]]) && NameKeys(ONE_LABEL, true) == [[A, DOT, B, DOT, DOT]]
  {
    hide ParseFrom, KeysFrom;
    TwoLabelKeys();
    OneLabelKey();
  }

  lemma TwoLabelKeys()
    ensures ParseFrom([], TWO_LABELS, true) == Good([[A], [B]])
    ensures KeysFrom(TWO_LABELS, [], TWO_LABELS, [], true) == [[A, DOT, B, DOT, DOT], [B, DOT, DOT]]
  {
    hide ParseFrom, KeysFrom;
    var s := TWO_LABELS;
    Octet(s, [], s, [], true, true, [A], [DOT] + [B, DOT], [DOT]);
    Dot(s, [A], [B, DOT], [DOT], true, true, [A, DOT, B, DOT, DOT]);
    Octet(s, [], [B, DOT], [DOT], true, false, [B], [DOT] + [], [DOT]);
    Dot(s, [B], [], [DOT], true, false, [B, DOT, DOT]);
    End(s, [DOT], true);
  }

  lemma OneLabelKey()
    ensures ParseFrom([], ONE_LABEL, true) == Good([[A, DOT, B]])
    ensures KeysFrom(ONE_LABEL, [], ONE_LABEL, [], true) == [[A, DOT, B, DOT, DOT]]
  {
    hide ParseFrom, KeysFrom;
    var s := ONE_LABEL;
    Octet(s, [], s, [], true, true, [A], [BACKSLASH, DOT, B, DOT], []);
    Octet(s, [A], [BACKSLASH, DOT, B, DOT], [], true, true, [A, DOT], [B, DOT], [DOT]);
    Octet(s, [A, DOT], [B, DOT], [DOT], true, true, [A, DOT, B], [DOT] + [], [DOT]);
    Dot(s, [A, DOT, B], [], [DOT], true, true, [A, DOT, B, DOT, DOT]);
    End(s, [DOT], true);
  }

  /** Without compression the second key of \097b.c. is taken three characters early. */
  lemma EarlyKeys()
    ensures Parse(EARLY) == Good([[A, B], [C]]) && NameKeys(EARLY, false) == [EARLY, LATER]
  {
    hide ParseFrom, KeysFrom;
    var s, t: str := EARLY, [C, DOT, DOT];
    Octet(s, [], s, [], false, true, [A], [B, DOT, C, DOT], t);
    Octet(s, [A], [B, DOT, C, DOT], t, false, true, [A, B], [DOT] + [C, DOT], t);
    Dot(s, [A, B], [C, DOT], t, false, true, EARLY);
    Octet(s, [], [C, DOT], t, false, false, [C], [DOT] + [], t);
    Dot(s, [C], [], t, false, false, LATER);
    End(s, t, false);
  }

  lemma LaterKeys()
    ensures Parse(LATER) == Good([[55, B], [C]]) && NameKeys(LATER, true) == [LATER, [C, DOT]]
  {
    hide ParseFrom, KeysFrom;
    LaterRest();
    Octet(LATER, [], LATER, [], true, true, [55], [B, DOT, C, DOT], []);
  }

  lemma LaterRest()
    ensures ParseFrom([55], [B, DOT, C, DOT], true) == Good([[55, B], [C]])
    ensures KeysFrom(LATER, [55], [B, DOT, C, DOT], [], true) == [LATER, [C, DOT]]
  {
    hide ParseFrom, KeysFrom;
    LaterEnd();
    Octet(LATER, [55], [B, DOT, C, DOT], [], true, true, [55, B], [DOT] + [C, DOT], []);
    Dot(LATER, [55, B], [C, DOT], [], true, true, LATER);
  }

  lemma LaterEnd()
    ensures ParseFrom([], [C, DOT], false) == Good([[C]]) && KeysFrom(LATER, [], [C, DOT], [], true) == [[C, DOT]]
  {
    hide ParseFrom, KeysFrom;
    Octet(LATER, [], [C, DOT], [], true, false, [C], [DOT] + [], []);
    Dot(LATER, [C], [], [], true, false, [C, DOT]);
    End(LATER, [], true);
  }

  /** Even a name without escapes can be changed: behind \097b.c., packed without compression as the target
      of an SRV record is, 7b.c. is read as c. */
  lemma EarlyKeyMisread(buf: str, more: str)
    requires |buf| + 3 < MAX_OFFSET
    ensures ValidName(EARLY) && ValidName(LATER) && NoBackslash(LATER)
    ensures var first := PackNamed(EARLY, |buf|, Some(map[]), false);
            var second := PackNamed(LATER, |buf + first.bytes|, first.mp, true);
            var msg := buf + first.bytes + second.bytes + more;
            UnpackName(msg, |buf + first.bytes|) == NameResult([C, DOT], |buf + first.bytes| + 2, NoError)
  {
    hide Parse, ParseFrom, NameKeys, PackNamed, UnpackName, SoundFor, ValidName, Labels, NameLearned, NameMeant,
         Unpacked, KnownAt;
    EarlyKeys();
    LaterKeys();
    PackedTwo(EARLY, [A, B], [C], EARLY, LATER, |buf|, false);
    Written(LATER, [[55, B], [C]]);
    var first := PackNamed(EARLY, |buf|, Some(map[]), false);
    NoneKnown(buf);
    NamedReads(buf, EARLY, Some(map[]), map[], false, []);
    var km := NameLearned(EARLY, Some(map[]), first.mp, map[], false);
    LearnedTwo(EARLY, [A, B], [C], EARLY, LATER, first.mp, false);
    NamedReads(buf + first.bytes, LATER, first.mp, km, true, more);
    CutAtOnce(LATER, |buf + first.bytes|, first.mp, km, Known([[C]], 0));
    ReadAs([C]);
  }

  // ---------- Names of two labels, and names that are cut at once ----------

  lemma PackedTwo(s: str, a: Label, b: Label, k0: str, k1: str, off: nat, compress: bool)
    requires Parse(s) == Good([a, b]) && NameKeys(s, compress) == [k0, k1] && k0 != k1 && s != ROOT
    requires 1 <= |a| <= 63 && 1 <= |b| <= 63 && IsFqdn(s) && off + |a| + 1 < MAX_OFFSET
    ensures ValidName(s)
    ensures Parse(s).Good?
    ensures var o := PackNamed(s, off, Some(map[]), compress);
            && |o.bytes| == |a| + |b| + 3
            && k0 in o.mp.value && o.mp.value[k0] == off && k1 in o.mp.value && o.mp.value[k1] == off + |a| + 1
  {
    hide Parse, NameKeys, PackKeyed, ValidName, Labels, LabelsLen, PackName, ValidLabels, ShortLabels;
    LabelsAre(s);
    ShortTwo(a, b);
    Written(s, [a, b]);
    KeyedTwo(a, b, k0, k1, off, compress);
  }

  lemma KeyedTwo(a: Label, b: Label, k0: str, k1: str, off: nat, compress: bool)
    requires k0 != k1 && 1 <= |a| <= 63 && 1 <= |b| <= 63 && off + |a| + 1 < MAX_OFFSET
    ensures ShortLabels([a, b])
    ensures var o := PackKeyed([a, b], [k0, k1], off, Some(map[]), compress);
            && |o.bytes| == |a| + |b| + 3
            && k0 in o.mp.value && o.mp.value[k0] == off && k1 in o.mp.value && o.mp.value[k1] == off + |a| + 1
  {
    hide PackKeyed, LabelsLen, ValidLabels, ShortLabels, Record, Hit;
    ShortTwo(a, b);
    var mp0: Option<Offsets> := Some(map[]);
    var mp1, mp2 := Record(mp0, k0, off), Record(Record(mp0, k0, off), k1, off + |a| + 1);
    TwoRecorded(k0, k1, off, off + |a| + 1);
    assert [a, b][1..] == [b] && [k0, k1][1..] == [k1] && [b][1..] == [] && [k1][1..] == [];
    KeyedMore([a, b], [k0, k1], off, mp0, compress);
    KeyedMore([b], [k1], off + |a| + 1, mp1, compress);
    KeyedEmpty(off + |a| + 1 + |b| + 1, mp2, compress);
  }

  lemma TwoRecorded(k0: str, k1: str, p: nat, q: nat)
    requires k0 != k1 && p < MAX_OFFSET && q < MAX_OFFSET
    ensures var mp0: Option<Offsets> := Some(map[]);
            var mp1 := Record(mp0, k0, p);
            var mp2 := Record(mp1, k1, q);
            && !Hit(mp0, k0) && !Hit(mp1, k1) && mp2.Some?
            && k0 in mp2.value && mp2.value[k0] == p && k1 in mp2.value && mp2.value[k1] == q
  {
  }

  lemma ShortTwo(a: Label, b: Label)
    requires 1 <= |a| <= 63 && 1 <= |b| <= 63
    ensures ShortLabels([a, b]) && ShortLabels([b]) && ShortLabels([]) && ValidLabels([a, b])
  {
  }

  lemma Written(s: str, ls: seq<Label>)
    requires Parse(s) == Good(ls) && ValidLabels(ls) && IsFqdn(s) && s != ROOT
    ensures ValidName(s)
  {
    LabelsAre(s);
  }

  lemma NoneKnown(buf: str)
    ensures SoundFor(buf, Some(map[]), map[])
  {
  }

  lemma LearnedTwo(s: str, a: Label, b: Label, k0: str, k1: str, mp: Option<Offsets>, compress: bool)
    requires Parse(s) == Good([a, b]) && NameKeys(s, compress) == [k0, k1] && k0 != k1 && s != ROOT
    requires mp.Some? && k0 in mp.value && k1 in mp.value
    ensures var km := NameLearned(s, Some(map[]), mp, map[], compress);
            KnownAt(km, k0) == Known([a, b], 0) && KnownAt(km, k1) == Known([b], 0)
  {
    hide ParseFrom, KeysFrom, NameKeys;
    LabelsAre(s);
    var mp0: Option<Offsets> := Some(map[]);
    assert [a, b][1..] == [b] && [k0, k1][1..] == [k1] && [k1][1..] == [];
    assert Cut([k1], mp0, compress) == 1 && Cut([k0, k1], mp0, compress) == 2;
    assert KeyMeant([b], [k1], mp0, map[], compress, k1) == Meant([b], [k1], mp0, map[], compress);
  }

  lemma CutAtOnce(s: str, off: nat, mp: Option<Offsets>, km: Meanings, w: Known)
    requires Parse(s).Good? && s != ROOT && NameKeys(s, true) != [] && Hit(mp, NameKeys(s, true)[0])
    requires KnownAt(km, NameKeys(s, true)[0]) == w
    ensures NameMeant(s, mp, km, true) == Known(w.labels, w.depth + 1)
    ensures |PackNamed(s, off, mp, true).bytes| == 2
  {
    hide ParseFrom, KeysFrom, NameKeys;
    LabelsAre(s);
    CutStep(Labels(s), NameKeys(s, true), mp, km, true);
  }

  lemma ReadAs(l: Label)
    requires |l| == 1 && !IsSpecial(l[0]) && IsPrintable(l[0])
    ensures forall msgLen: nat, end: nat :: Unpacked([l], 1, msgLen, end) == NameResult(l + [DOT], end, NoError)
  {
    assert EscapeAll(l) == Escape(l[0]) + EscapeAll([]);
    assert Present([l]) == EscapeAll(l) + [DOT] + Present([]);
    assert LabelsLen([l]) == 2 + LabelsLen([]);
    assert Escape(l[0]) == l;
  }

  // ---------- A message ----------

  const FIRST: Question := Question(TWO_LABELS, TYPE_A, 1)
  const SECOND: Question := Question(ONE_LABEL, TYPE_A, 1)

  /** Asks for \a.b. and a\.b. */
  function BothNames(): Msg {
    Msg(MsgHdr(0, false, 0, false, false, false, false, false, false, false, 0), true, [FIRST, SECOND], [], [], [])
  }

  const AB: str := [A, DOT, B, DOT]

  /** Behind \a.b. the name a\.b. is cut at its first key, and read as a.b. */
  lemma CollisionMisread(buf: str, t: str, more: str)
    requires |buf| + 2 < MAX_OFFSET
    ensures ValidName(TWO_LABELS) && ValidName(ONE_LABEL)
    ensures var first := PackNamed(TWO_LABELS, |buf|, Some(map[]), true);
            var b1 := buf + first.bytes;
            var second := PackNamed(ONE_LABEL, |b1 + t|, first.mp, true);
            var msg := b1 + t + second.bytes + more;
            && |first.bytes| == 5 && |second.bytes| == 2
            && UnpackName(msg, |buf|) == NameResult(AB, |b1|, NoError)
            && UnpackName(msg, |b1 + t|) == NameResult(AB, |b1 + t| + 2, NoError)
  {
    hide Parse, ParseFrom, NameKeys, PackNamed, UnpackName, SoundFor, ValidName, Labels, NameLearned, NameMeant,
         Unpacked, KnownAt;
    Collision();
    BothFit();
    var mp0: Option<Offsets> := Some(map[]);
    PackedTwo(TWO_LABELS, [A], [B], [A, DOT, B, DOT, DOT], [B, DOT, DOT], |buf|, true);
    var first := PackNamed(TWO_LABELS, |buf|, mp0, true);
    var b1 := buf + first.bytes;
    var second := PackNamed(ONE_LABEL, |b1 + t|, first.mp, true);
    NoneKnown(buf);
    NamedReads(buf, TWO_LABELS, mp0, map[], true, t + (second.bytes + more));
    Regroup(b1, t, second.bytes, more);
    var km := NameLearned(TWO_LABELS, mp0, first.mp, map[], true);
    LearnedTwo(TWO_LABELS, [A], [B], [A, DOT, B, DOT, DOT], [B, DOT, DOT], first.mp, true);
    MeantTwo();
    SoundKept(b1, first.mp, km, t);
    NamedReads(b1 + t, ONE_LABEL, first.mp, km, true, more);
    CutAtOnce(ONE_LABEL, |b1 + t|, first.mp, km, Known([[A], [B]], 0));
    TwoReadAs();
  }

  lemma Regroup(a: str, b: str, c: str, d: str)
    ensures a + (b + (c + d)) == a + b + c + d && a + b + (c + d) == a + b + c + d
  {
  }

  /** A message that packs and unpacks without error, but whose second question comes back as the first: the
      name a\.b., of one label, is read as a.b., of two. */
  lemma QuestionMisread()
    ensures FitMsg(BothNames()) && Parse(ONE_LABEL) == Good([[A, DOT, B]])
    ensures var r := ReadMessage(PackMsg(BothNames()).bytes);
            && r.err == NoError && r.m.hdr == BothNames().hdr
            && r.m.question == [Question(AB, TYPE_A, 1), Question(AB, TYPE_A, 1)]
            && r.m.answer == [] && r.m.ns == [] && r.m.extra == []
  {
    hide *;
    Collision();
    BothFit();
    var m := BothNames();
    TwoParts(m);
    var h, t := HeaderBytes(HeaderOf(m)), U16(TYPE_A) + U16(1);
    NearStart(h);
    CollisionMisread(h, t, t);
    var first := PackNamed(TWO_LABELS, 12, Some(map[]), true);
    var second := PackNamed(ONE_LABEL, |h + first.bytes + t|, first.mp, true);
    Flatten(h, first.bytes, t, second.bytes);
    BothRead(m, h + first.bytes, t, second.bytes);
  }

  lemma Flatten(a: str, b: str, c: str, d: str)
    ensures a + (b + c + (d + c)) == a + b + c + d + c && (a + b)[..|a|] == a
  {
  }

  lemma NearStart(h: str)
    requires |h| == 12
    ensures |h| + 2 < MAX_OFFSET
  {
  }

  lemma BothRead(m: Msg, b1: str, t: str, s: str)
    requires m == BothNames() && FitMsg(m) && t == U16(TYPE_A) + U16(1) && |t| == 4 && |b1| > 12
    requires b1[..12] == HeaderBytes(HeaderOf(m))
    requires UnpackName(b1 + t + s + t, 12) == NameResult(AB, |b1|, NoError)
    requires UnpackName(b1 + t + s + t, |b1 + t|) == NameResult(AB, |b1 + t + s|, NoError)
    ensures ReadMessage(b1 + t + s + t)
            == MsgRead(ReadMsg(m.hdr, [Question(AB, TYPE_A, 1), Question(AB, TYPE_A, 1)], [], [], []), NoError)
  {
    hide UnpackName, HeaderBytes, HeaderOf, FitMsg, ReadMessage, UnpackQuestion, UnpackMsgHdr, HdrOf, Bits;
    BothFit();
    var msg := b1 + t + s + t;
    QuestionAt(b1, FIRST, s + t, 12, AB);
    assert b1 + t + (s + t) == msg && b1 + t + s + t + [] == msg;
    QuestionAt(b1 + t + s, SECOND, [], |b1 + t|, AB);
    assert msg == HeaderBytes(HeaderOf(m)) + msg[12..];
    HeaderBack(HeaderOf(m), msg[12..]);
    BitsBack(m.hdr, HeaderOf(m));
    TwoRead(m, msg, |b1 + t|);
  }

  lemma BothFit()
    ensures FitMsg(BothNames()) && FitName(TWO_LABELS) && FitName(ONE_LABEL) && ValidName(TWO_LABELS)
    ensures ValidName(ONE_LABEL)
    ensures Labels(ONE_LABEL) == [[A, DOT, B]] && FitQuestions([FIRST, SECOND]) && FitRecs(BothNames().Recs())
    ensures HeaderOf(BothNames()) == WireHeader(0, Bits(BothNames().hdr), 2, 0, 0, 0)
    ensures StartMap(BothNames()) == Some(map[]) && BothNames().hdr.rcode == 0
  {
    hide Parse, ValidName, Labels, FitName, LabelsLen, Bits;
    Collision();
    ShortTwo([A], [B]);
    Written(TWO_LABELS, [[A], [B]]);
    Written(ONE_LABEL, [[A, DOT, B]]);
    LabelsAre(TWO_LABELS);
    LabelsAre(ONE_LABEL);
    SmallNames();
    NameFit(TWO_LABELS);
    NameFit(ONE_LABEL);
    assert BothNames().Recs() == [] by {
      assert RecsOf([]) == [];
    }
  }

  lemma SmallNames()
    ensures LabelsLen([[A], [B]]) == 4 && LabelsLen([[A, DOT, B]]) == 4 && ValidLabels([[A, DOT, B]])
  {
    assert LabelsLen([[B]]) == 2 + LabelsLen([]);
    assert [[A], [B]][1..] == [[B]];
    assert LabelsLen([[A, DOT, B]]) == 4 + LabelsLen([]);
  }

  lemma NameFit(s: str)
    requires ValidName(s) && Parse(s).Good? && LabelsLen(Labels(s)) == 4
    ensures FitName(s)
  {
  }

  lemma MeantTwo()
    ensures Parse(TWO_LABELS).Good? && NameMeant(TWO_LABELS, Some(map[]), map[], true) == Known([[A], [B]], 0)
  {
    hide Parse, NameKeys;
    Collision();
    LabelsAre(TWO_LABELS);
    var mp: Option<Offsets> := Some(map[]);
    var keys := NameKeys(TWO_LABELS, true);
    assert keys[1..] == [[B, DOT, DOT]];
    assert Cut(keys[1..], mp, true) == 1 && Cut(keys, mp, true) == 2;
  }

  lemma TwoReadAs()
    ensures forall d: nat, msgLen: nat, end: nat | d <= 10 ::
              Unpacked([[A], [B]], d, msgLen, end) == NameResult(AB, end, NoError)
  {
    hide LabelsLen;
    SmallNames();
    EscapedOne(A);
    EscapedOne(B);
    assert Present([[B]]) == EscapeAll([B]) + [DOT] + Present([]);
    assert [[A], [B]][1..] == [[B]];
    assert Present([[A], [B]]) == EscapeAll([A]) + [DOT] + Present([[B]]);
  }

  lemma EscapedOne(b: byte)
    requires IsPrintable(b) && !IsSpecial(b)
    ensures EscapeAll([b]) == [b]
  {
    assert EscapeAll([b]) == Escape(b) + EscapeAll([]);
  }

  lemma TwoParts(m: Msg)
    requires m == BothNames() && FitMsg(m) && FitName(TWO_LABELS) && FitName(ONE_LABEL) && StartMap(m) == Some(map[])
    ensures var h, t := HeaderBytes(HeaderOf(m)), U16(TYPE_A) + U16(1);
            var first := PackNamed(TWO_LABELS, 12, Some(map[]), true);
            var second := PackNamed(ONE_LABEL, 12 + |first.bytes| + 4, first.mp, true);
            PackMsg(m).bytes == h + (first.bytes + t + (second.bytes + t))
  {
    hide PackNamed, PackQuestions, PackRecs, FitName, FitQuestions, FitRecs, HeaderBytes, HeaderOf, U16, Parse, NameLen,
         LabelsLen, NoBackslash, Labels;
    var qs := m.question;
    var o := PackQuestion(FIRST, 12, Some(map[]), true);
    QuestionsStep(qs, 12, Some(map[]), true);
    assert qs[1..] == [SECOND] && qs[1..][1..] == [];
    QuestionsStep(qs[1..], 12 + |o.bytes|, o.mp, true);
    var o2 := PackQuestion(SECOND, 12 + |o.bytes|, o.mp, true);
    QuestionsNone(12 + |o.bytes| + |o2.bytes|, o2.mp, true);
    assert o2.bytes + [] == o2.bytes;
    var q := PackQuestions(qs, 12, Some(map[]), true);
    assert m.Recs() == [] by {
      assert RecsOf([]) == [];
    }
    RecsNone(12 + |q.bytes|, q.mp, true);
    var h := HeaderBytes(HeaderOf(m));
    assert h + q.bytes + [] == h + q.bytes;
  }

  lemma TwoRead(m: Msg, msg: str, off: nat)
    requires m == BothNames()
    requires UnpackMsgHdr(msg, 0) == HeaderRead(WireHeader(0, Bits(m.hdr), 2, 0, 0, 0), 12, NoError)
    requires HdrOf(UnpackMsgHdr(msg, 0).h) == m.hdr
    requires UnpackQuestion(msg, 12) == QuestionResult(Question(AB, TYPE_A, 1), off, NoError) && off > 12
    requires UnpackQuestion(msg, off) == QuestionResult(Question(AB, TYPE_A, 1), |msg|, NoError) && |msg| > off
    ensures ReadMessage(msg)
            == MsgRead(ReadMsg(m.hdr, [Question(AB, TYPE_A, 1), Question(AB, TYPE_A, 1)], [], [], []), NoError)
  {
    hide UnpackQuestion, UnpackMsgHdr, HdrOf;
    var q := Question(AB, TYPE_A, 1);
    assert ReadQuestions(1, msg, off) == QuestionsRead([q], |msg|, NoError);
    assert ReadQuestions(2, msg, 12) == QuestionsRead([q, q], |msg|, NoError);
  }
}
