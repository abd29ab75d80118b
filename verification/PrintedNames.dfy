/** Which names come back from the wire the way they were written, and so which messages come back whole. */
module PrintedNames {
  import opened Bytes
  import opened Names
  import opened PackNames
  import opened UnpackNames
  import opened Records
  import opened UnpackRecords
  import opened MessageTypes
  import opened Messages
  import opened UnpackMessages

  // ---------- Names ----------

  /** Every octet of s is written the way UnpackDomainName writes it. */
  predicate AsPrinted(s: str) {
    s == [] ||
    (s != [BACKSLASH]
     && (FirstTok(s).Lit? ==> s[..TokLen(s)] == Escape(FirstTok(s).b))
     && AsPrinted(s[TokLen(s)..]))
  }

  /** A name as UnpackDomainName writes names: nothing is escaped that need not be, and nothing stands behind
      the last label. */
  predicate WrittenOut(s: str) {
    s == ROOT || (AsPrinted(s) && EndsInSep(s))
  }

  /** Without escapes that is a matter of its octets alone. */
  predicate Clear(s: str) {
    forall c | c in s :: c == DOT || (IsPrintable(c) && !IsSpecial(c))
  }

  lemma {:induction false} PrintedBack(cur: Label, s: str, first: bool)
    requires ParseFrom(cur, s, first).Good? && AsPrinted(s) && (s == [] ==> cur == []) && (s != [] ==> EndsInSep(s))
    ensures EscapeAll(cur) + s == Present(ParseFrom(cur, s, first).labels)
    decreases |s|
  {
    hide Escape, EscapeAll, Present, TokLen, FirstTok;
    if s == [] {
      PresentNone();
      NoOctets();
    } else {
      var n := TokLen(s);
      var t := s[n..];
      SepStep(s);
      if FirstTok(s) == Sep {
        SepAlone(s);
        PrintedBack([], t, false);
        NoOctets();
        assert [] + t == t;
        PresentCons(cur, ParseFrom([], t, false).labels);
        Concat3(EscapeAll(cur), [DOT], t);
      } else {
        var b := FirstTok(s).b;
        EscapeAllSnoc(cur, b);
        assert s == s[..n] + t;
        Concat3(EscapeAll(cur), s[..n], t);
        PrintedBack(cur + [b], t, first);
      }
    }
  }

  lemma NoOctets()
    ensures EscapeAll([]) == []
  {
  }

  lemma SepAlone(s: str)
    requires s != [] && s != [BACKSLASH] && FirstTok(s) == Sep
    ensures TokLen(s) == 1 && s == [DOT] + s[1..]
  {
  }

  lemma PresentCons(l: Label, ls: seq<Label>)
    ensures Present([l] + ls) == EscapeAll(l) + [DOT] + Present(ls)
  {
    assert ([l] + ls)[1..] == ls;
  }

  lemma {:induction false} EscapedAsPrinted(l: Label, rest: str)
    requires rest != [] && AsPrinted(rest) && EndsInSep(rest)
    ensures AsPrinted(EscapeAll(l) + rest) && EndsInSep(EscapeAll(l) + rest)
    decreases |l|
  {
    hide Escape, FirstTok, TokLen;
    if l == [] {
      NoOctets();
      assert EscapeAll(l) + rest == rest;
    } else {
      var tail := EscapeAll(l[1..]) + rest;
      EscapedAsPrinted(l[1..], rest);
      EscapeFirst(l[0], tail);
      Concat3(Escape(l[0]), EscapeAll(l[1..]), rest);
      var s := Escape(l[0]) + tail;
      assert s[..|Escape(l[0])|] == Escape(l[0]);
      SepStep(s);
      assert tail != [];
    }
  }

  lemma {:induction false} PresentAsPrinted(ls: seq<Label>)
    ensures AsPrinted(Present(ls)) && (ls != [] ==> EndsInSep(Present(ls)))
    decreases |ls|
  {
    if ls != [] {
      hide EscapeAll;
      PresentAsPrinted(ls[1..]);
      var rest := [DOT] + Present(ls[1..]);
      assert rest[1..] == Present(ls[1..]);
      assert AsPrinted(rest) && EndsInSep(rest) by {
        assert rest[0] == DOT;
        SepStep(rest);
        if ls[1..] == [] { PresentNone(); }
      }
      EscapedAsPrinted(ls[0], rest);
      Concat3(EscapeAll(ls[0]), [DOT], Present(ls[1..]));
    }
  }

  /** What is printed for a name is valid, stands for the same labels, and is printed as it is. It is the name
      itself if and only if that is written out the way names are printed. */
  lemma PrintedSame(s: str)
    requires ValidName(s)
    ensures ValidName(Printed(s)) && Labels(Printed(s)) == Labels(s) && Printed(Printed(s)) == Printed(s)
    ensures Printed(s) == s <==> WrittenOut(s)
  {
    hide AsPrinted, EndsInSep, Present, ParseFrom;
    var ls := Labels(s);
    NameStringLabels(ls);
    if s != ROOT {
      NamedLabels(s);
      PresentAsPrinted(ls);
      if WrittenOut(s) {
        PrintedBack([], s, true);
        NoOctets();
        assert [] + s == s;
      }
    }
  }

  lemma NamedLabels(s: str)
    requires ValidName(s) && s != ROOT
    ensures Labels(s) == ParseFrom([], s, true).labels
    ensures EndsInSep(s) ==> Labels(s) != []
  {
    hide ParseFrom, EndsInSep;
    ParseCounts([], s, true);
    if EndsInSep(s) {
      EndCounts(s);
    }
  }

  lemma {:induction false} EndCounts(s: str)
    requires EndsInSep(s)
    ensures CountSeps(s) >= 1
    decreases |s|
  {
    if TokLen(s) < |s| {
      EndCounts(s[TokLen(s)..]);
    }
  }

  /** A name without escapes is printed as it is if and only if every octet of its labels is printable and none
      of the special ones. */
  lemma ClearNames(s: str)
    requires IsFqdn(s) && NoBackslash(s)
    ensures WrittenOut(s) <==> Clear(s)
    ensures EndsInSep(s)
  {
    hide AsPrinted, EndsInSep;
    ClearFrom(s);
    if s == ROOT {
      assert forall c | c in s :: c == DOT;
    }
  }

  lemma {:induction false} ClearFrom(s: str)
    requires NoBackslash(s) && (s == [] || s[|s| - 1] == DOT)
    ensures AsPrinted(s) <==> Clear(s)
    ensures s != [] ==> EndsInSep(s)
    decreases |s|
  {
    hide IsSpecial, IsPrintable;
    if s != [] {
      NoBackslashRest(s);
      ClearFrom(s[1..]);
      PlainEscape(s[0]);
      assert s[..1] == [s[0]];
      assert s == [s[0]] + s[1..];
    }
  }

  lemma PlainEscape(b: byte)
    requires b != BACKSLASH
    ensures Escape(b) == [b] <==> IsPrintable(b) && !IsSpecial(b)
  {
  }

  // ---------- Messages ----------

  /** A record that can come back as it is: names as they are printed, an IPv4 address in four octets. */
  predicate OwnRec(r: Rec) {
    && WrittenOut(r.name)
    && (Final(r.data).Some? ==> WrittenOut(Final(r.data).value.0))
    && (r.data.A? ==> |r.data.ip| == 4)
  }

  lemma RecSame(r: Rec)
    requires FitRec(r)
    ensures PrintedRec(r) == r <==> OwnRec(r)
  {
    hide WrittenOut, ValidName, Labels, Printed, LabelsLen;
    PrintedSame(r.name);
    if Final(r.data).Some? {
      PrintedSame(Final(r.data).value.0);
    }
  }

  lemma {:induction false} QuestionsSame(qs: seq<Question>)
    requires FitQuestions(qs)
    ensures PrintedQuestions(qs) == qs <==> forall q | q in qs :: WrittenOut(q.name)
    decreases |qs|
  {
    hide WrittenOut, FitName, FitQuestions, Printed;
    if qs != [] {
      FitFirstQuestion(qs);
      NameValid(qs[0].name);
      PrintedSame(qs[0].name);
      QuestionsSame(qs[1..]);
      SameParts(qs, Question(Printed(qs[0].name), qs[0].qtype, qs[0].qclass), PrintedQuestions(qs[1..]));
      assert forall q | q in qs :: q == qs[0] || q in qs[1..];
      assert qs[0] in qs && forall q | q in qs[1..] :: q in qs;
    }
  }

  lemma SameParts(qs: seq<Question>, q: Question, more: seq<Question>)
    requires qs != []
    ensures [q] + more == qs <==> q == qs[0] && more == qs[1..]
  {
    assert qs == [qs[0]] + qs[1..];
    assert ([q] + more)[1..] == more;
  }

  lemma NameValid(s: str)
    requires FitName(s)
    ensures ValidName(s)
  {
  }

  /** What the records say, without the Rdlengths that were read. */
  function Said(ds: seq<Decoded>): (rs: seq<Rec>)
    ensures |rs| == |ds| && forall k | 0 <= k < |ds| :: rs[k] == ds[k].rec
  {
    seq(|ds|, k requires 0 <= k < |ds| => ds[k].rec)
  }

  lemma {:induction false} RecsSame(rs: seq<Rec>, off: nat, mp: Option<Offsets>, compress: bool)
    requires GoodRecs(rs, mp.Some?)
    ensures Said(DecodedRecs(rs, off, mp, compress)) == rs <==> forall r | r in rs :: OwnRec(r)
    decreases |rs|
  {
    hide OwnRec, PrintedRec, GoodRec, GoodRecs, FitRec, PackRec, RdataLen, Said, DecodedRecs;
    if rs == [] {
      SaidNone(off, mp, compress);
    } else {
      GoodFirstRec(rs, mp.Some?);
      RecSame(rs[0]);
      var o := PackRec(rs[0], off, mp, compress);
      var more := DecodedRecs(rs[1..], off + |o.bytes|, o.mp, compress);
      RecsSame(rs[1..], off + |o.bytes|, o.mp, compress);
      SaidFirst(rs, off, mp, compress);
      ConsSame(rs, PrintedRec(rs[0]), Said(more));
      OwnFirst(rs);
    }
  }

  lemma SaidNone(off: nat, mp: Option<Offsets>, compress: bool)
    ensures GoodRecs([], mp.Some?) && Said(DecodedRecs([], off, mp, compress)) == []
  {
  }

  lemma SaidFirst(rs: seq<Rec>, off: nat, mp: Option<Offsets>, compress: bool)
    requires GoodRecs(rs, mp.Some?) && rs != [] && GoodRec(rs[0], mp.Some?) && GoodRecs(rs[1..], mp.Some?)
    ensures var o := PackRec(rs[0], off, mp, compress);
            Said(DecodedRecs(rs, off, mp, compress))
            == [PrintedRec(rs[0])] + Said(DecodedRecs(rs[1..], off + |o.bytes|, o.mp, compress))
  {
    hide PrintedRec, GoodRec, GoodRecs, FitRec, PackRec, RdataLen;
  }

  lemma ConsSame(rs: seq<Rec>, y: Rec, ys: seq<Rec>)
    requires rs != []
    ensures [y] + ys == rs <==> y == rs[0] && ys == rs[1..]
  {
    var l := [y] + ys;
    assert l[0] == y && l[1..] == ys;
    assert rs == [rs[0]] + rs[1..];
  }

  lemma OwnFirst(rs: seq<Rec>)
    requires rs != []
    ensures (forall r | r in rs :: OwnRec(r)) <==> OwnRec(rs[0]) && forall r | r in rs[1..] :: OwnRec(r)
  {
    hide OwnRec;
    assert rs == [rs[0]] + rs[1..];
  }

  /** The names of the message are written as they are printed, and its IPv4 addresses in four octets. */
  predicate OwnMsg(dns: Msg) {
    && (forall q | q in dns.question :: WrittenOut(q.name))
    && (forall r | r in RecsOf(dns.answer) :: OwnRec(r))
    && (forall r | r in RecsOf(dns.ns) :: OwnRec(r))
    && (forall r | r in RecsOf(dns.extra) :: OwnRec(r))
  }

  /** A message that comes back, comes back with its own questions and records if and only if its names are
      written the way UnpackDomainName writes names, and its IPv4 addresses in four octets. */
  lemma MessageComesBack(dns: Msg)
    requires GoodMsg(dns) && CountsFit(dns) && 0 <= dns.hdr.opcode <= 0xF
    ensures var r := ReadMessage(PackMsg(dns).bytes);
            r.err == NoError ==>
              && r.m.hdr == dns.hdr
              && (r.m.question == dns.question && Said(r.m.answer) == RecsOf(dns.answer)
                  && Said(r.m.ns) == RecsOf(dns.ns) && Said(r.m.extra) == RecsOf(dns.extra)
                  <==> OwnMsg(dns))
  {
    hide *;
    MessageRoundTrip(dns);
    BackSame(dns);
    EchoHdr(dns);
  }

  lemma BackSame(dns: Msg)
    requires GoodMsg(dns)
    ensures PrintedQuestions(dns.question) == dns.question && Said(AnswerBack(dns)) == RecsOf(dns.answer)
            && Said(NsBack(dns)) == RecsOf(dns.ns) && Said(ExtraBack(dns)) == RecsOf(dns.extra)
            <==> OwnMsg(dns)
  {
    hide GoodMsg, FitMsg, GoodRecs, GoodQuestions, OwnRec, WrittenOut, FitQuestions, RecsOf, AnswerBack, NsBack,
         ExtraBack,
         PrintedQuestions, Said;
    GoodSections(dns);
    QuestionsSame(dns.question);
    AnswerSame(dns);
    NsSame(dns);
    ExtraSame(dns);
  }

  lemma AnswerSame(dns: Msg)
    requires GoodMsg(dns)
    ensures Said(AnswerBack(dns)) == RecsOf(dns.answer) <==> forall r | r in RecsOf(dns.answer) :: OwnRec(r)
  {
    hide GoodMsg, FitMsg, GoodRecs, GoodQuestions, OwnRec, RecsOf, QuestionPart, DecodedRecs, Said;
    GoodSections(dns);
    RecsSame(RecsOf(dns.answer), 12 + |QuestionPart(dns).bytes|, QuestionPart(dns).mp, dns.compress);
  }

  lemma NsSame(dns: Msg)
    requires GoodMsg(dns)
    ensures Said(NsBack(dns)) == RecsOf(dns.ns) <==> forall r | r in RecsOf(dns.ns) :: OwnRec(r)
  {
    hide GoodMsg, FitMsg, GoodRecs, GoodQuestions, OwnRec, RecsOf, QuestionPart, AnswerPart, DecodedRecs, Said;
    GoodSections(dns);
    var a := AnswerPart(dns);
    RecsSame(RecsOf(dns.ns), 12 + |QuestionPart(dns).bytes| + |a.bytes|, a.mp, dns.compress);
  }

  lemma ExtraSame(dns: Msg)
    requires GoodMsg(dns)
    ensures Said(ExtraBack(dns)) == RecsOf(dns.extra) <==> forall r | r in RecsOf(dns.extra) :: OwnRec(r)
  {
    hide GoodMsg, FitMsg, GoodRecs, GoodQuestions, OwnRec, RecsOf, QuestionPart, AnswerPart, NsPart, DecodedRecs, Said;
    GoodSections(dns);
    var n := NsPart(dns);
    RecsSame(RecsOf(dns.extra), 12 + |QuestionPart(dns).bytes| + |AnswerPart(dns).bytes| + |n.bytes|, n.mp,
             dns.compress);
  }
}
