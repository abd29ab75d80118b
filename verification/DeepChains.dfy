/** Why a round trip needs a bound on pointers: packing makes chains longer by one for every name that
    extends the one before, and the unpacker follows ten. */
module DeepChains {
  import opened Bytes
  import opened Names
  import opened PackNames
  import opened UnpackNames
  import opened Compression
  import opened Records
  import opened UnpackRecords
  import opened MessageTypes
  import opened Messages
  import opened UnpackMessages
  import opened Replies

  const A_LABEL: Label := [97]

  /** The labels of a.a. ... a. */
  function Tower(n: nat): (ls: seq<Label>)
    ensures |ls| == n
  {
    if n == 0 then [] else [A_LABEL] + Tower(n - 1)
  }

  function TowerName(n: nat): str {
    Join(Tower(n))
  }

  function TowerQuestion(n: nat): Question {
    Question(TowerName(n), TYPE_A, 1)
  }

  /** Questions for the towers from n to 12. */
  function TowerQuestions(n: nat): seq<Question>
    decreases 13 - n
  {
    if n > 12 then [] else [TowerQuestion(n)] + TowerQuestions(n + 1)
  }

  lemma TowerPlain(n: nat)
    ensures PlainLabels(Tower(n)) && ShortLabels(Tower(n)) && LabelsLen(Tower(n)) == 2 * n == |TowerName(n)|
  {
  }

  lemma TowerGood(n: nat)
    requires 1 <= n <= 12
    ensures GoodName(TowerName(n), true) && Parse(TowerName(n)).Good? && Labels(TowerName(n)) == Tower(n)
  {
    hide PlainLabels, ParseFrom;
    TowerPlain(n);
    PlainGood(Tower(n), true);
    ParseJoin(Tower(n), true);
    PlainValid(Tower(n));
  }

  lemma {:induction false} TowersGood(n: nat)
    requires n >= 1
    ensures GoodQuestions(TowerQuestions(n), true)
    decreases 13 - n
  {
    hide GoodName, TowerName;
    if n <= 12 {
      TowerGood(n);
      TowersGood(n + 1);
    }
  }

  /** The towers up to n are packed, each as one label and a pointer to the one before. */
  ghost predicate Built(n: nat, mp: Option<Offsets>, dm: map<str, nat>) {
    && mp.Some?
    && (n > 0 ==> TowerName(n) in mp.value && DepthAt(dm, TowerName(n)) == n - 1)
    && forall k | k in mp.value :: |k| <= 2 * n
  }

  /** One tower more: not seen before, but the one below it is. */
  lemma BuildOne(n: nat, off: nat, mp: Option<Offsets>, dm: map<str, nat>)
    requires Built(n, mp, dm) && off < MAX_OFFSET
    ensures ShortLabels(Tower(n + 1))
    ensures var o := PackName(Tower(n + 1), off, mp, true);
            var d := Depth(Tower(n + 1), mp, dm, true);
            && d == n && |o.bytes| <= 4 && Built(n + 1, o.mp, Depths(mp, o.mp, dm, d))
  {
    hide ShortLabels, PlainLabels;
    var ls := Tower(n + 1);
    TowerPlain(n);
    TowerPlain(n + 1);
    assert ls[0] == A_LABEL && ls[1..] == Tower(n);
    var mp1 := Record(mp, Join(ls), off);
    assert Join(ls) !in mp.value;
    PackNameMore(ls, off, mp, true);
    if n > 0 {
      assert Hit(mp1, Join(Tower(n)));
    }
  }

  /** Each tower leads through one pointer more than the one before; the twelfth through eleven. */
  lemma {:induction false} TowersTooDeep(n: nat, off: nat, mp: Option<Offsets>, dm: map<str, nat>)
    requires n < 12 && Built(n, mp, dm) && off <= 12 + 8 * n && GoodQuestions(TowerQuestions(n + 1), true)
    ensures !QuestionsReach(TowerQuestions(n + 1), off, mp, dm, true).ok
    decreases 12 - n
  {
    hide *;
    var qs := TowerQuestions(n + 1);
    BuiltSome(n, mp, dm);
    TowersAre(n + 1);
    QuestionsReachStep(qs, off, mp, dm, true);
    var q := qs[0];
    TowerGood(n + 1);
    GoodFirstQuestion(qs, true);
    QuestionShape(q, off, mp, true);
    PackedAsLabels(q.name, off, mp, true);
    ReachShape(q, off, mp, dm, true);
    Limits();
    BuildOne(n, off, mp, dm);
    if n < 11 {
      TowersTooDeep(n + 1, off + |PackQuestion(q, off, mp, true).bytes|, PackQuestion(q, off, mp, true).mp,
                    QuestionReach(q, off, mp, dm, true).depths);
    }
  }

  lemma Limits()
    ensures MAX_OFFSET == 16384 && MAX_POINTERS == 10
  {
  }

  lemma TowersAre(n: nat)
    requires 1 <= n <= 12
    ensures TowerQuestions(n) != [] && TowerQuestions(n)[0].name == TowerName(n)
    ensures TowerQuestions(n)[1..] == TowerQuestions(n + 1)
  {
    hide TowerName;
  }

  lemma BuiltSome(n: nat, mp: Option<Offsets>, dm: map<str, nat>)
    requires Built(n, mp, dm)
    ensures mp.Some?
  {
  }

  /** A message that packs without error and cannot be unpacked: twelve questions, each one label longer
      than the one before. */
  function TooDeep(): Msg {
    Msg(MsgHdr(0, false, 0, false, false, false, false, false, false, false, 0), true, TowerQuestions(1), [], [], [])
  }

  lemma DeepChainLost()
    ensures GoodMsg(TooDeep()) && ReadMessage(PackMsg(TooDeep()).bytes).err != NoError
  {
    hide GoodQuestions, TowerQuestions, PackMsg, ReadMessage, MsgReach, QuestionsReach, QuestionHop;
    var m := TooDeep();
    TowersGood(1);
    EmptyRecs();
    assert m.Recs() == [];
    TowersCount(1);
    NothingBuilt();
    TowersTooDeep(0, 12, Some(map[]), map[]);
    DeepUnreached(m);
    MessageRoundTrip(m);
  }

  lemma NothingBuilt()
    ensures Built(0, Some(map[]), map[])
  {
  }

  lemma {:induction false} TowersCount(n: nat)
    ensures |TowerQuestions(n)| == if n > 12 then 0 else 13 - n
    decreases 13 - n
  {
    if n <= 12 {
      TowersCount(n + 1);
    }
  }

  lemma DeepUnreached(m: Msg)
    requires GoodMsg(m) && GoodQuestions(m.question, true) && m.compress
    requires !QuestionsReach(m.question, 12, Some(map[]), map[], true).ok
    ensures !MsgReach(m)
  {
    hide GoodMsg, GoodQuestions, MsgReach, QuestionsReach, QuestionHop;
    HopsAre(m);
    ReachIs(m);
  }
}
