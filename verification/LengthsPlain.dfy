/** The predicted length against the packed one without compression: how much every name is overestimated. */
module LengthsPlain {
  import opened Bytes
  import opened Names
  import opened PackNames
  import opened Records
  import opened UnpackRecords
  import opened MessageTypes
  import opened Lengths
  import opened Messages
  import opened LengthsExact

  /** How many octets fewer than counted a name takes: one for each character that only escapes or belongs to no
      label, and one for the root. */
  function Spare(s: str): nat {
    NameLenChars(s);
    |s| + 1 - NameLen(s)
  }

  function SpareAll(names: seq<str>): nat {
    if names == [] then 0 else Spare(names[0]) + SpareAll(names[1..])
  }

  lemma {:induction false} SpareAppend(a: seq<str>, b: seq<str>)
    ensures SpareAll(a + b) == SpareAll(a) + SpareAll(b)
    decreases |a|
  {
    hide Spare;
    if a == [] {
      assert a + b == b;
    } else {
      assert (a + b)[1..] == a[1..] + b;
      SpareAppend(a[1..], b);
    }
  }

  /** Every escape takes at least one character more than the octet it stands for. */
  lemma {:induction false} EscapesSpare(cur: Label, s: str, first: bool)
    requires BACKSLASH in s
    ensures LabelsLen(ParseFrom(cur, s, first).labels) < |cur| + |s|
    decreases |s|
  {
    if s != [BACKSLASH] {
      var n := TokLen(s);
      match FirstTok(s)
      case Lit(b) =>
        if BACKSLASH in s[n..] {
          EscapesSpare(cur + [b], s[n..], first);
        } else {
          ParsedLen(cur + [b], s[n..], first);
          if n == 1 { OneChar(s); }
        }
      case Sep =>
        OneChar(s);
        EscapesSpare([], s[1..], false);
        var more := ParseFrom([], s[1..], false).labels;
        assert ([cur] + more)[1..] == more;
    }
  }

  lemma OneChar(s: str)
    requires s != [] && s != [BACKSLASH] && TokLen(s) == 1 && BACKSLASH in s
    ensures BACKSLASH in s[1..]
  {
    assert s == [s[0]] + s[1..];
  }

  lemma SpareNone(s: str)
    requires FitName(s)
    ensures Spare(s) == 0 <==> NoBackslash(s) && s != ROOT
  {
    hide ParseFrom;
    if s != ROOT {
      if NoBackslash(s) {
        assert [] + s == s;
        JoinParse([], s, true);
      } else {
        EscapesSpare([], s, true);
      }
    }
  }

  lemma NameSize(s: str, off: nat)
    requires FitName(s)
    ensures |PackNamed(s, off, None, false).bytes| == NameLen(s) && PackNamed(s, off, None, false).mp == None
  {
    hide ParseFrom, PackNamed, LabelsLen;
    PackNameWire(Labels(s), off, false);
  }

  lemma RecSize(r: Rec, off: nat)
    requires FitRec(r)
    ensures |PackRec(r, off, None, false).bytes| == RecLen(r) && PackRec(r, off, None, false).mp == None
  {
    hide *;
    RecParts(r, off, null, false);
    GoodParts(r, off, None, false);
    RecUnfolds(r, RdataLen(r, off, None, false), off, None, false);
    NameSize(r.name, off);
    DataSize(r.data, off + NameLen(r.name) + 10);
  }

  lemma DataSize(d: RData, off: nat)
    requires FitData(d)
    ensures |PackData(d, off, None, false).bytes| == DataLen(d) && PackData(d, off, None, false).mp == None
  {
    hide Parse, Labels, PackNamed, Fixed, NameLen, FitName;
    if Final(d).Some? {
      DataUnfolds(d, off, None, false);
      NameSize(Final(d).value.0, off + |Fixed(d)|);
    }
  }

  lemma {:induction false} RecsSize(rs: seq<Rec>, off: nat)
    requires FitRecs(rs)
    ensures |PackRecs(rs, off, None, false).bytes| == RecsLen(rs)
    decreases |rs|
  {
    hide *;
    if rs == [] {
      RecsNone(off, None, false);
    } else {
      RecsStep(rs, off, None, false);
      RecSize(rs[0], off);
      RecsSize(rs[1..], off + RecLen(rs[0]));
    }
  }

  lemma {:induction false} QuestionsSize(qs: seq<Question>, off: nat)
    requires FitQuestions(qs)
    ensures var o := PackQuestions(qs, off, None, false); |o.bytes| == QuestionsLen(qs) && o.mp == None
    decreases |qs|
  {
    hide *;
    if qs == [] {
      QuestionsNone(off, None, false);
    } else {
      QuestionsStep(qs, off, None, false);
      QuestionShape(qs[0], off, None, false);
      NameSize(qs[0].name, off);
      QuestionsSize(qs[1..], off + NameLen(qs[0].name) + 4);
    }
  }

  lemma {:induction false} RecsSpare(rs: seq<Rec>)
    requires FitRecs(rs)
    ensures RecsChars(rs) == RecsLen(rs) + SpareAll(RecNames(rs))
    decreases |rs|
  {
    if rs != [] {
      hide FitRec, Spare, RecLen, RecChars, RecNames, SpareAll;
      FitFirstRec(rs);
      RecSpare(rs[0]);
      RecNamesAre(rs);
      SpareAppend(OwnNames(rs[0]), RecNames(rs[1..]));
      RecsSpare(rs[1..]);
    }
  }

  function OwnNames(r: Rec): seq<str> {
    [r.name] + if Final(r.data).Some? then [Final(r.data).value.0] else []
  }

  lemma RecNamesAre(rs: seq<Rec>)
    requires rs != []
    ensures RecNames(rs) == OwnNames(rs[0]) + RecNames(rs[1..])
  {
  }

  lemma RecSpare(r: Rec)
    requires FitRec(r)
    ensures RecChars(r) == RecLen(r) + SpareAll(OwnNames(r))
  {
    hide NameLen, FitName;
    NameLenChars(r.name);
    if Final(r.data).Some? {
      var n := Final(r.data).value.0;
      NameLenChars(n);
      assert OwnNames(r) == [r.name, n] && [r.name, n][1..] == [n];
      OneSpare(n);
    } else {
      assert OwnNames(r) == [r.name];
      OneSpare(r.name);
    }
  }

  lemma OneSpare(s: str)
    ensures SpareAll([s]) == Spare(s)
  {
    hide Spare;
    assert SpareAll([s]) == Spare(s) + SpareAll([]);
  }

  lemma {:induction false} QuestionsSpare(qs: seq<Question>)
    ensures QuestionsChars(qs) == QuestionsLen(qs) + SpareAll(QuestionNames(qs))
    decreases |qs|
  {
    if qs != [] {
      hide NameLen;
      NameLenChars(qs[0].name);
      QuestionsSpare(qs[1..]);
      assert ([qs[0].name] + QuestionNames(qs[1..]))[1..] == QuestionNames(qs[1..]);
    }
  }

  /** Without compression the predicted length is the packed one and what every name has to spare, so it is
      exact if and only if no name is the root or has an escape. */
  lemma PlainExact(dns: Msg)
    requires FitMsg(dns) && !dns.compress
    ensures LenMsg(dns, false).l == |PackMsg(dns).bytes| + SpareAll(AllNames(dns))
    ensures LenMsg(dns, false).l == |PackMsg(dns).bytes|
            <==> forall s | s in AllNames(dns) :: NoBackslash(s) && s != ROOT
  {
    hide *;
    CharsLen(dns);
    FitParts(dns);
    PackMsgIs(dns);
    QuestionPartIs(dns);
    QuestionsSize(dns.question, 12);
    RecsSize(dns.Recs(), 12 + QuestionsLen(dns.question));
    QuestionsSpare(dns.question);
    RecsSpare(dns.Recs());
    AllNamesAre(dns);
    SpareAppend(QuestionNames(dns.question), RecNames(dns.Recs()));
    NamesFit(dns);
    SpareZero(AllNames(dns));
    AppendIs(HeaderBytes(HeaderOf(dns)) + QuestionPart(dns).bytes,
             PackRecs(dns.Recs(), 12 + QuestionsLen(dns.question), None, false));
  }

  lemma FitParts(dns: Msg)
    requires FitMsg(dns) && !dns.compress
    ensures FitQuestions(dns.question) && FitRecs(dns.Recs()) && StartMap(dns) == None
  {
    hide FitQuestions, FitRecs, RecsOf;
  }

  lemma AllNamesAre(dns: Msg)
    ensures AllNames(dns) == QuestionNames(dns.question) + RecNames(dns.Recs())
  {
    hide QuestionNames, RecNames, RecsOf;
  }

  lemma NamesFit(dns: Msg)
    requires FitQuestions(dns.question) && FitRecs(dns.Recs())
    ensures forall s | s in AllNames(dns) :: FitName(s)
  {
    hide FitName, FitQuestions, FitRecs, QuestionNames, RecNames, RecsOf;
    QuestionNamesFit(dns.question);
    RecNamesFit(dns.Recs());
  }

  lemma {:induction false} QuestionNamesFit(qs: seq<Question>)
    requires FitQuestions(qs)
    ensures forall s | s in QuestionNames(qs) :: FitName(s)
    decreases |qs|
  {
    hide FitName;
    if qs != [] {
      FitFirstQuestion(qs);
      QuestionNamesFit(qs[1..]);
    }
  }

  lemma {:induction false} RecNamesFit(rs: seq<Rec>)
    requires FitRecs(rs)
    ensures forall s | s in RecNames(rs) :: FitName(s)
    decreases |rs|
  {
    hide FitName, FitRecs, Final;
    if rs != [] {
      FitFirstRec(rs);
      RecNamesFit(rs[1..]);
    }
  }

  lemma {:induction false} SpareZero(names: seq<str>)
    requires forall s | s in names :: FitName(s)
    ensures SpareAll(names) == 0 <==> forall s | s in names :: NoBackslash(s) && s != ROOT
    decreases |names|
  {
    hide Spare, NoBackslash, FitName;
    if names != [] {
      assert names[0] in names && forall s | s in names[1..] :: s in names;
      assert forall s | s in names :: s == names[0] || s in names[1..];
      SpareNone(names[0]);
      SpareZero(names[1..]);
    }
  }
}
