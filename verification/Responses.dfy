/** The commands of gyip and its answers: command/, frameResponse, respondToQuestion and handleQuestions
    of gyip.go, and SetReply of defaults.go. */
module Responses {
  import opened Bytes
  import opened Names
  import opened Records
  import opened LabelOps
  import opened MessageTypes
  import opened Scanner

  const DEFAULT_TTL: uint32 := 43200
  const DEFAULT_SHORT_TTL: uint32 := 10
  const CLASS_INET: uint16 := 1
  const RCODE_NAME_ERROR := 3

  // ---------- Commands ----------

  function Upper(b: byte): byte { if 97 <= b <= 122 then b - 32 else b }

  /** strings.ToUpper, on ASCII letters. */
  function UpperAll(s: str): (r: str)
    ensures |r| == |s| && forall k | 0 <= k < |s| :: r[k] == Upper(s[k])
  {
    seq(|s|, k requires 0 <= k < |s| => Upper(s[k]))
  }

  datatype Command = Noop | RoundRobin | Fail(failPercent: int)

  /** strconv.ParseInt(s, 10, 32), on at most two characters. */
  function ParseInt(s: str): Option<int> {
    var signed := s != [] && s[0] in {43, 45};
    var digits := if signed then s[1..] else s;
    if digits == [] || exists c | c in digits :: !IsDigit(c) then None
    else
      var n: int := Decimal(digits);
      Some(if signed && s[0] == 45 then -n else n)
  }

  const RR_NAME: str := [82, 82]
  const F: byte := 70

  /** command.New */
  function New(commandString: str): Command {
    if commandString == [] then Noop
    else
      var c := UpperAll(commandString);
      if c == RR_NAME then RoundRobin
      else if c[0] == F && (|c| == 2 || |c| == 3) && ParseInt(c[1..]).Some? then Fail(ParseInt(c[1..]).value)
      else Noop
  }

  datatype Executed = Executed(ips: seq<str>, ttl: uint32)

  /** Execute; random is what the random generator yields, before it is cut to the range asked for. */
  function Execute(cmd: Command, input: seq<str>, random: nat): Executed {
    match cmd
    case Noop => Executed(input, DEFAULT_TTL)
    case RoundRobin =>
      if |input| > 1 then Executed([input[random % |input|]], DEFAULT_SHORT_TTL) else Executed(input, DEFAULT_TTL)
    case Fail(p) =>
      if p > 0 && random % 100 <= p then Executed([], DEFAULT_SHORT_TTL) else Executed(input, DEFAULT_TTL)
  }

  // ---------- Specification of the answers ----------

  /** net.IP.To16 */
  function To16(ip: str): str {
    if |ip| == 4 then V4_PREFIX + ip else if |ip| == 16 then ip else []
  }

  /** The records for ips; ip4 and ip6 are what the loop holds from the address before. */
  function Answers(ips: seq<str>, ip4: str, ip6: str, qtype: uint16, name: str, ttl: uint32): seq<Rec> {
    if ips == [] then []
    else
      var a := if ips[0] != [] then To4(ips[0]) else ip4;
      var b := if ips[0] != [] then To16(ips[0]) else ip6;
      AnswersFor(a, b, qtype, name, ttl) + Answers(ips[1..], a, b, qtype, name, ttl)
  }

  function AnswersFor(ip4: str, ip6: str, qtype: uint16, name: str, ttl: uint32): seq<Rec> {
    if qtype == TYPE_A && ip4 != [] then [Rec(name, TYPE_A, CLASS_INET, ttl, A(ip4))]
    else if qtype == TYPE_AAAA && ip6 != [] then [Rec(name, TYPE_AAAA, CLASS_INET, ttl, AAAA(ip6))]
    else []
  }

  /** How a call ends: it returns records, slices out of bounds, or never returns. */
  datatype Framed = Framed(rs: seq<Rec>) | FramePanic | FrameHangs

  predicate At(s: str, sub: str, i: nat) {
    i + |sub| <= |s| && s[i..i + |sub|] == sub
  }

  /** strings.LastIndex(s, sub) >= 0 */
  predicate Contains(s: str, sub: str) {
    exists i | 0 <= i <= |s| :: At(s, sub, i)
  }

  lemma ContainsIs(s: str, sub: str)
    ensures Contains(s, sub) <==> exists front, back :: s == front + sub + back
  {
    if Contains(s, sub) {
      var i :| 0 <= i <= |s| && At(s, sub, i);
      assert s == s[..i] + sub + s[i + |sub|..];
    }
    if front, back :| s == front + sub + back {
      assert s[|front|..|front| + |sub|] == sub;
      assert At(s, sub, |front|);
    }
  }

  predicate HasSuffix(s: str, suffix: str) {
    |suffix| <= |s| && s[|s| - |suffix|..] == suffix
  }

  const ECHO: str := [101, 99, 104, 111]
  const REFLECT: str := [114, 101, 102, 108, 101, 99, 116]

  /** The command at the end of a request, and the request without it. */
  function CommandOf(remainder: str): (Command, str) {
    var dot := LastIndexByte(remainder, DOT);
    if dot < 0 then (Noop, remainder)
    else
      var cmd := New(UpperAll(remainder[dot + 1..]));
      (cmd, if cmd.Noop? then remainder else remainder[..dot])
  }

  function Frame(ip: str, qtype: uint16, name: str, domain: str, random: nat): Framed {
    if name == [] || !Contains(name, domain) then Framed([])
    else if |name| - |domain| - 1 < 0 then FramePanic
    else
      var remainder := name[..|name| - |domain| - 1];
      if LowerAll(remainder) in {ECHO, REFLECT} then Framed(Answers([ip], [], [], qtype, name, 0))
      else
        var (cmd, rest) := CommandOf(remainder);
        match Scan(rest, |rest| - 1)
        case SlicePanic => FramePanic
        case Diverges => FrameHangs
        case Done(ips) =>
          if ips == [] then Framed([])
          else
            var e := Execute(cmd, ips, random);
            Framed(Answers(e.ips, [], [], qtype, name, e.ttl))
  }

  // ---------- The methods ----------

  datatype Ending = Returned | Panicked | Hangs

  /** The outcome of a call whose records are described by framed. */
  ghost predicate Matches(framed: Framed, records: seq<RR>, end: Ending) {
    match framed
    case Framed(rs) => end == Returned && RecsOf(records) == rs
    case FramePanic => end == Panicked
    case FrameHangs => end == Hangs
  }

  method FrameResponse(ip: str, qtype: uint16, name: str, domain: str, random: nat)
    returns (records: seq<RR>, end: Ending)
    ensures Matches(Frame(ip, qtype, name, domain, random), records, end)
    ensures forall r | r in records :: fresh(r)
  {
    hide Scan, Answers, CommandOf, Contains, Execute, To4, To16, RecsOf;
    records, end := [], Returned;
    RecsOfNone();
    if name == [] || !Contains(name, domain) {
      return;
    }
    if |name| - |domain| - 1 < 0 {
      return [], Panicked;
    }
    var remainder := name[..|name| - |domain| - 1];
    var ttl: uint32 := 0;
    var ips: seq<str>;
    if LowerAll(remainder) in {ECHO, REFLECT} {
      ips := [ip];
    } else {
      var (cmd, rest) := CommandOf(remainder);
      var found := ParseIPs(rest);
      if !found.Done? {
        return [], if found.SlicePanic? then Panicked else Hangs;
      }
      if found.ips == [] {
        return;
      }
      var e := Execute(cmd, found.ips, random);
      ips, ttl := e.ips, e.ttl;
    }
    records := Collect(ips, qtype, name, ttl);
  }

  /** The loop over the addresses. */
  method Collect(ips: seq<str>, qtype: uint16, name: str, ttl: uint32) returns (records: seq<RR>)
    ensures RecsOf(records) == Answers(ips, [], [], qtype, name, ttl)
    ensures forall r | r in records :: fresh(r)
  {
    hide To4, To16, RecsOf;
    records := [];
    var ip4, ip6: str := [], [];
    ghost var goal := Answers(ips, [], [], qtype, name, ttl);
    RecsOfNone();
    assert ips[0..] == ips && [] + goal == goal;
    for i := 0 to |ips|
      invariant RecsOf(records) + Answers(ips[i..], ip4, ip6, qtype, name, ttl) == goal
      invariant forall r | r in records :: fresh(r)
    {
      assert ips[i..][0] == ips[i] && ips[i..][1..] == ips[i + 1..];
      if ips[i] != [] {
        ip4, ip6 := To4(ips[i]), To16(ips[i]);
      }
      ghost var before, rest := RecsOf(records), Answers(ips[i + 1..], ip4, ip6, qtype, name, ttl);
      assert before + (AnswersFor(ip4, ip6, qtype, name, ttl) + rest) == goal;
      Concat3Recs(before, AnswersFor(ip4, ip6, qtype, name, ttl), rest);
      if qtype == TYPE_A && ip4 != [] {
        var rr := new RR(Rec(name, TYPE_A, CLASS_INET, ttl, A(ip4)));
        RecsOfSnoc(records, rr);
        records := records + [rr];
      }
      if qtype == TYPE_AAAA && ip6 != [] {
        var rr := new RR(Rec(name, TYPE_AAAA, CLASS_INET, ttl, AAAA(ip6)));
        RecsOfSnoc(records, rr);
        records := records + [rr];
      }
    }
    assert ips[|ips|..] == [] && RecsOf(records) + [] == RecsOf(records);
  }

  lemma Concat3Recs(a: seq<Rec>, b: seq<Rec>, c: seq<Rec>)
    ensures a + (b + c) == a + b + c && a + [] == a
  {
  }

  lemma RecsOfNone()
    ensures RecsOf([]) == []
  {
  }

  lemma RecsOfSnoc(rrs: seq<RR>, rr: RR)
    ensures RecsOf(rrs + [rr]) == RecsOf(rrs) + [rr.rec]
  {
  }

  /** The first served domain that the name ends in, else nothing. */
  function CurrentDomain(servingDomains: seq<str>, name: str): str {
    if servingDomains == [] then []
    else if HasSuffix(name, servingDomains[0]) then servingDomains[0]
    else CurrentDomain(servingDomains[1..], name)
  }

  /** Some text in front of the suffix. */
  lemma SuffixIs(s: str, suffix: str)
    ensures HasSuffix(s, suffix) <==> exists front :: s == front + suffix
  {
    if HasSuffix(s, suffix) {
      assert s == s[..|s| - |suffix|] + suffix;
    }
  }

  /** name ends in domain i and in none before it. */
  predicate FirstSuffix(domains: seq<str>, name: str, i: nat) {
    i < |domains| && HasSuffix(name, domains[i]) && forall j | 0 <= j < i :: !HasSuffix(name, domains[j])
  }

  lemma {:induction false} CurrentDomainIs(domains: seq<str>, name: str)
    ensures forall i: nat | FirstSuffix(domains, name, i) :: CurrentDomain(domains, name) == domains[i]
    ensures (forall j | 0 <= j < |domains| :: !HasSuffix(name, domains[j])) ==> CurrentDomain(domains, name) == []
    decreases |domains|
  {
    hide HasSuffix;
    if domains != [] {
      CurrentDomainIs(domains[1..], name);
      forall i: nat | FirstSuffix(domains, name, i)
        ensures CurrentDomain(domains, name) == domains[i]
      {
        if i > 0 {
          assert !HasSuffix(name, domains[0]);
          assert forall j | 0 <= j < i - 1 :: domains[1..][j] == domains[j + 1];
          assert FirstSuffix(domains[1..], name, i - 1);
        }
      }
    }
  }

  /** respondToQuestion: the records appended to the answer. */
  method RespondToQuestion(q: Question, ip: str, servingDomains: seq<str>, random: nat)
    returns (records: seq<RR>, end: Ending)
    ensures forall i: nat | FirstSuffix(servingDomains, q.name, i) ::
              Matches(Frame(ip, q.qtype, q.name, servingDomains[i], random), records, end)
    ensures (forall j | 0 <= j < |servingDomains| :: !HasSuffix(q.name, servingDomains[j])) ==>
              Matches(Frame(ip, q.qtype, q.name, [], random), records, end)
    ensures Matches(Frame(ip, q.qtype, q.name, CurrentDomain(servingDomains, q.name), random), records, end)
    ensures forall r | r in records :: fresh(r)
  {
    hide Frame, Matches, HasSuffix;
    CurrentDomainIs(servingDomains, q.name);
    var currentQuestionDomain: str := [];
    var i: nat := 0;
    while i < |servingDomains|
      invariant i <= |servingDomains| && currentQuestionDomain == []
      invariant forall j | 0 <= j < i :: !HasSuffix(q.name, servingDomains[j])
    {
      if HasSuffix(q.name, servingDomains[i]) {
        currentQuestionDomain := servingDomains[i];
        assert FirstSuffix(servingDomains, q.name, i);
        break;
      }
      i := i + 1;
    }
    records, end := FrameResponse(ip, q.qtype, q.name, currentQuestionDomain, random);
  }

  /** What the questions of a request are answered with: only the first, and only of type A or AAAA. */
  function Answered(question: seq<Question>, ip: str, servingDomains: seq<str>, random: nat): Framed {
    if question == [] || question[0].qtype !in {TYPE_A, TYPE_AAAA} then Framed([])
    else Frame(ip, question[0].qtype, question[0].name, CurrentDomain(servingDomains, question[0].name), random)
  }

  /** The header of a reply: SetReply, then AA, then NXDOMAIN when there is no answer. */
  function ReplyHdr(h: MsgHdr, answered: bool): MsgHdr {
    MsgHdr(h.id, true, 0, true, false, h.recursionDesired, false, false, false, false,
           if answered then 0 else RCODE_NAME_ERROR)
  }

  /** SetReply */
  function SetReply(h: MsgHdr, question: seq<Question>, compress: bool): Msg {
    Msg(MsgHdr(h.id, true, 0, false, false, h.recursionDesired, false, false, false, false, 0), compress,
        if question == [] then [] else [question[0]], [], [], [])
  }

  method HandleQuestions(h: MsgHdr, question: seq<Question>, compress: bool, ip: str, servingDomains: seq<str>,
                         random: nat)
    returns (m: Msg, end: Ending)
    ensures Matches(Answered(question, ip, servingDomains, random), m.answer, end)
    ensures end == Returned ==>
              && m.hdr == ReplyHdr(h, m.answer != []) && m.compress == compress
              && m.question == (if question == [] then [] else [question[0]]) && m.ns == [] && m.extra == []
    ensures end == Returned ==>
              m.hdr == MsgHdr(h.id, true, 0, true, false, h.recursionDesired, false, false, false, false,
                              if m.answer == [] then 3 else 0)
    ensures forall r | r in m.answer :: fresh(r)
  {
    hide Frame, RecsOf;
    RecsOfNone();
    m := SetReply(h, question, compress);
    m := m.(hdr := m.hdr.(authoritative := true));
    end := Returned;
    var i: nat := 0;
    while i < |m.question|
      invariant i <= |m.question| && end == Returned
      invariant m
                == Msg(MsgHdr(h.id, true, 0, true, false, h.recursionDesired, false, false, false, false, 0), compress,
                         if question == [] then [] else [question[0]], m.answer, [], [])
      invariant i == 0 ==> m.answer == []
      invariant i > 0 ==> Matches(Answered(question, ip, servingDomains, random), m.answer, Returned)
      invariant forall r | r in m.answer :: fresh(r)
    {
      var q := m.question[i];
      if q.qtype == TYPE_A || q.qtype == TYPE_AAAA {
        var records;
        records, end := RespondToQuestion(q, ip, servingDomains, random);
        if end != Returned {
          return;
        }
        assert [] + records == records;
        m := m.(answer := m.answer + records);
      }
      i := i + 1;
    }
    if |m.answer| < 1 {
      m := m.(hdr := m.hdr.(rcode := RCODE_NAME_ERROR));
    }
  }
}
