/** When frameResponse (gyip.go) fails, and on which requests it cannot. */
module FrameFailures {
  import opened Bytes
  import opened Names
  import opened UnpackNames
  import opened LabelOps
  import opened UnpackMessages
  import opened Scanner
  import opened ScannerGreedy
  import opened Responses

  /** The request is searched for addresses: it is for the domain or names within, and not an echo. */
  predicate Searches(name: str, domain: str) {
    && name != [] && Contains(name, domain) && |domain| < |name|
    && LowerAll(name[..|name| - |domain| - 1]) !in {ECHO, REFLECT}
  }

  /** The text that is searched: without the domain, the dot in front of it, and a command. */
  function Searched(name: str, domain: str): str
    requires |domain| < |name|
  {
    CommandOf(name[..|name| - |domain| - 1]).1
  }

  /** frameResponse slices out of bounds exactly on the domain itself, and on text at whose beginning the
      greedy reading is left with pieces that trip the scanner; and it never returns exactly on text where it
      is left with a dot and one character, or two dots. */
  lemma FrameFails(ip: str, qtype: uint16, name: str, domain: str, random: nat)
    ensures Frame(ip, qtype, name, domain, random) == FramePanic
            <==> name != [] && (name == domain
                                || (Searches(name, domain) && Panics(Read(Fields(Searched(name, domain), DOT)).left)))
    ensures Frame(ip, qtype, name, domain, random) == FrameHangs
            <==> Searches(name, domain) && !Panics(Read(Fields(Searched(name, domain), DOT)).left)
                 && Loops(Read(Fields(Searched(name, domain), DOT)).left)
  {
    hide Scan, Read, Fields, Answers, CommandOf, Contains, Panics, Loops, Execute;
    ContainsLen(name, domain);
    if |domain| < |name| {
      ScanIsGreedy(Searched(name, domain));
    }
  }

  lemma ContainsLen(name: str, domain: str)
    ensures Contains(name, domain) ==> |domain| <= |name| && (|domain| == |name| ==> name == domain)
    ensures name == domain ==> Contains(name, domain)
  {
    if name == domain {
      assert At(name, domain, 0);
    }
  }

  /** A name that was unpacked starts with a label, so it cannot keep frameResponse busy for ever. */
  lemma UnpackedNameReturns(ip: str, qtype: uint16, ls: seq<Label>, domain: str, random: nat)
    requires ValidLabels(ls)
    ensures Frame(ip, qtype, NameString(ls), domain, random) != FrameHangs
  {
    hide Scan, Frame, NameString, Contains, CommandOf, Read, Fields, Panics, Loops;
    var name := NameString(ls);
    NameStart(ls);
    FrameFails(ip, qtype, name, domain, random);
    if Searches(name, domain) {
      var rest := Searched(name, domain);
      CommandFront(name[..|name| - |domain| - 1]);
      ScanIsGreedy(rest);
      ScanFails(rest);
    }
  }

  lemma CommandFront(remainder: str)
    ensures CommandOf(remainder).1 <= remainder
  {
  }

  lemma NameStart(ls: seq<Label>)
    requires ValidLabels(ls)
    ensures NameString(ls) != [] && (|NameString(ls)| > 1 ==> NameString(ls)[0] != DOT)
  {
    if ls != [] {
      var l := ls[0];
      assert l in ls;
      assert EscapeAll(l) == Escape(l[0]) + EscapeAll(l[1..]);
    }
  }

  /** Whatever octets a request consists of, answering it does not go on for ever. */
  lemma RequestReturns(msg: str, ip: str, servingDomains: seq<str>, random: nat)
    ensures Answered(ReadMessage(msg).m.question, ip, servingDomains, random) != FrameHangs
  {
    hide Frame, ReadQuestions, ReadRRs, UnpackMsgHdr, NameString, HdrOf;
    var h := UnpackMsgHdr(msg, 0);
    QuestionNames(h.h.qd, msg, h.off1);
    var qs := ReadMessage(msg).m.question;
    if qs != [] {
      assert qs[0] in qs;
      var ls :| ValidLabels(ls) && qs[0].name == NameString(ls);
      UnpackedNameReturns(ip, qs[0].qtype, ls, CurrentDomain(servingDomains, qs[0].name), random);
    }
  }

  lemma {:induction false} QuestionNames(n: nat, msg: str, off: nat)
    ensures forall q | q in ReadQuestions(n, msg, off).qs :: exists ls | ValidLabels(ls) :: q.name == NameString(ls)
    decreases n
  {
    hide UnpackName, NameString;
    if n > 0 {
      var q := UnpackQuestion(msg, off);
      QuestionNames(n - 1, msg, q.off1);
      if q.err == NoError {
        QuestionName(msg, off);
      }
    }
  }

  lemma QuestionName(msg: str, off: nat)
    requires UnpackQuestion(msg, off).err == NoError
    ensures exists ls | ValidLabels(ls) :: UnpackQuestion(msg, off).q.name == NameString(ls)
  {
    hide NameString, Walk;
    WalkInBounds(msg, off, MAX_POINTERS);
    assert UnpackName(msg, off).err == NoError;
    var w := Walk(msg, off, MAX_POINTERS);
    assert w.Walked? && UnpackName(msg, off).name == NameString(w.labels);
  }
}
