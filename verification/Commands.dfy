/** The answers to requests that end in a command: echo, reflect, rr and f (command/ and gyip.go). */
module Commands {
  import opened Bytes
  import opened Names
  import opened Records
  import opened LabelOps
  import opened Scanner
  import opened ScannerGreedy
  import opened AddressText
  import opened Responses
  import opened Replies

  // ---------- The record for one address ----------

  /** An IPv4 address is answered to both types, any other only to AAAA. */
  function OneAnswer(ip: str, qtype: uint16, name: str, ttl: uint32): seq<Rec> {
    if qtype == 1 && |ip| == 4 then [Rec(name, 1, 1, ttl, A(ip))]
    else if qtype == 1 && |ip| == 16 && (forall k | 0 <= k < 10 :: ip[k] == 0) && ip[10] == ip[11] == 255
      then [Rec(name, 1, 1, ttl, A(ip[12..16]))]
    else if qtype == 28 && |ip| == 16 then [Rec(name, 28, 1, ttl, AAAA(ip))]
    else if qtype == 28 && |ip| == 4 then [Rec(name, 28, 1, ttl, AAAA([0, 0, 0, 0, 0, 0, 0, 0, 0, 0, 255, 255] + ip))]
    else []
  }

  function EachAnswer(ips: seq<str>, qtype: uint16, name: str, ttl: uint32): seq<Rec> {
    if ips == [] then [] else OneAnswer(ips[0], qtype, name, ttl) + EachAnswer(ips[1..], qtype, name, ttl)
  }

  lemma AnswersForOne(ip: str, qtype: uint16, name: str, ttl: uint32)
    ensures AnswersFor(To4(ip), To16(ip), qtype, name, ttl) == OneAnswer(ip, qtype, name, ttl)
  {
    if |ip| == 16 {
      assert ip[..12] == V4_PREFIX <==> (forall k | 0 <= k < 10 :: ip[k] == 0) && ip[10] == ip[11] == 255 by {
        MappedIs(ip);
      }
      assert ip[12..] == ip[12..16];
    }
  }

  lemma MappedIs(ip: str)
    requires |ip| == 16
    ensures ip[..12] == V4_PREFIX <==> (forall k | 0 <= k < 10 :: ip[k] == 0) && ip[10] == ip[11] == 255
  {
    assert forall k | 0 <= k < 12 :: ip[..12][k] == ip[k];
  }

  /** The addresses are answered one by one; none of them takes over anything from the one before. */
  lemma {:induction false} AnswersEach(ips: seq<str>, ip4: str, ip6: str, qtype: uint16, name: str, ttl: uint32)
    requires forall ip | ip in ips :: ip != []
    ensures Answers(ips, ip4, ip6, qtype, name, ttl) == EachAnswer(ips, qtype, name, ttl)
    decreases |ips|
  {
    hide To4, To16, AnswersFor, OneAnswer;
    if ips != [] {
      assert ips[0] in ips && forall ip | ip in ips[1..] :: ip in ips;
      AnswersForOne(ips[0], qtype, name, ttl);
      AnswersEach(ips[1..], To4(ips[0]), To16(ips[0]), qtype, name, ttl);
    }
  }

  lemma AnswersOne(ip: str, qtype: uint16, name: str, ttl: uint32)
    ensures Answers([ip], [], [], qtype, name, ttl) == OneAnswer(ip, qtype, name, ttl)
  {
    hide To4, To16, AnswersFor;
    assert [ip][1..] == [];
    assert Answers([], To4(ip), To16(ip), qtype, name, ttl) == [];
    AnswersForOne(ip, qtype, name, ttl);
    if ip == [] { NoAddress(qtype, name, ttl); }
  }

  lemma NoAddress(qtype: uint16, name: str, ttl: uint32)
    ensures To4([]) == To16([]) == [] && Answers([], [], [], qtype, name, ttl) == []
  {
  }

  // ---------- echo and reflect ----------

  /** The 26 letters change case, and nothing else does. */
  lemma LettersFold(b: byte, k: nat)
    requires k < 26
    ensures Lower(65 + k) == Lower(97 + k) == 97 + k && Upper(65 + k) == Upper(97 + k) == 65 + k
    ensures !(65 <= b <= 90) && !(97 <= b <= 122) ==> Lower(b) == Upper(b) == b
  {
  }

  /** echo or reflect, in any case. */
  predicate AsksBack(w: str) {
    || (|w| == 4 && w[0] in {69, 101} && w[1] in {67, 99} && w[2] in {72, 104} && w[3] in {79, 111})
    || (|w| == 7 && w[0] in {82, 114} && w[1] in {69, 101} && w[2] in {70, 102} && w[3] in {76, 108}
        && w[4] in {69, 101} && w[5] in {67, 99} && w[6] in {84, 116})
  }

  lemma AsksBackIs(w: str)
    ensures AsksBack(w) <==> LowerAll(w) in {ECHO, REFLECT}
  {
    var l := LowerAll(w);
    if |w| == 4 {
      assert l == [l[0], l[1], l[2], l[3]];
    } else if |w| == 7 {
      assert l == [l[0], l[1], l[2], l[3], l[4], l[5], l[6]];
    }
  }

  /** Who asks for echo or reflect is told his own address, not to be kept. */
  lemma EchoAnswer(w: str, ip: str, qtype: uint16, domain: str, random: nat)
    requires AsksBack(w)
    ensures var name := w + [46] + domain;
            Frame(ip, qtype, name, domain, random) == Framed(OneAnswer(ip, qtype, name, 0))
  {
    hide Answers, CommandOf, Scan, AsksBack, OneAnswer;
    var name := w + [46] + domain;
    AsksBackIs(w);
    assert w != [] by { AsksBackSome(w); }
    Remainder(w, domain);
    AnswersOne(ip, qtype, name, 0);
  }

  lemma AsksBackSome(w: str)
    requires AsksBack(w)
    ensures w != []
  {
  }

  lemma Remainder(s: str, domain: str)
    ensures var name := s + [46] + domain;
            && name != [] && Contains(name, domain) && |name| - |domain| - 1 == |s| && name[..|s|] == s
  {
    var name := s + [46] + domain;
    assert name[|s| + 1..] == domain;
    assert At(name, domain, |s| + 1);
  }

  // ---------- Commands behind addresses ----------

  function Request(prefix: seq<str>, xs: seq<str>, command: str, domain: str): str {
    JoinDots(prefix + xs) + [46] + command + [46] + domain
  }

  /** A command behind addresses is executed on them. */
  lemma CommandAnswer(ip: str, qtype: uint16, prefix: seq<str>, xs: seq<str>, command: str, domain: str, random: nat)
    requires Quiet(prefix) && AllAddresses(xs) && xs != []
    requires DOT !in command && !New(UpperAll(command)).Noop?
    ensures var name := Request(prefix, xs, command, domain);
            var e := Execute(New(UpperAll(command)), Values(xs), random);
            Frame(ip, qtype, name, domain, random) == Framed(Answers(e.ips, [], [], qtype, name, e.ttl))
  {
    hide Scan, Answers, JoinDots, AllAddresses, Dotless, NoRun, Trips, Values, New, Execute, LowerAll, Quiet,
         Contains, LastIndexByte, UpperAll;
    var s := JoinDots(prefix + xs);
    var t := s + [46] + command;
    Remainder(t, domain);
    DotBefore(s, command);
    assert t[|s| + 1..] == command && t[..|s|] == s;
    assert t[|s|] == DOT;
    NotKeyword(t, ECHO);
    NotKeyword(t, REFLECT);
    QuietScan(prefix, xs);
    ValuesSome(xs);
  }

  /** rr, in any case: one of the addresses, drawn at random, for ten seconds; a lone address for twelve hours. */
  lemma RoundRobinAnswer(ip: str, qtype: uint16, prefix: seq<str>, xs: seq<str>, command: str, domain: str,
                         random: nat)
    requires Quiet(prefix) && AllAddresses(xs) && xs != []
    requires |command| == 2 && command[0] in {82, 114} && command[1] in {82, 114}
    ensures var name := Request(prefix, xs, command, domain);
            Frame(ip, qtype, name, domain, random)
            == Framed(OneAnswer(Values(xs)[random % |xs|], qtype, name, if |xs| > 1 then 10 else 43200))
  {
    hide *;
    RoundRobinCommand(command);
    CommandAnswer(ip, qtype, prefix, xs, command, domain, random);
    ValuesSome(xs);
    RoundRobinRuns(Values(xs), random);
    AnswersOne(Values(xs)[random % |xs|], qtype, Request(prefix, xs, command, domain), if |xs| > 1 then 10 else 43200);
  }

  lemma RoundRobinCommand(command: str)
    requires |command| == 2 && command[0] in {82, 114} && command[1] in {82, 114}
    ensures New(UpperAll(command)) == RoundRobin && !New(UpperAll(command)).Noop? && DOT !in command
  {
    var u := UpperAll(UpperAll(command));
    assert u == [u[0], u[1]];
  }

  lemma RoundRobinRuns(ips: seq<str>, random: nat)
    requires ips != []
    ensures Execute(RoundRobin, ips, random)
            == Executed([ips[random % |ips|]], if |ips| > 1 then 10 else 43200)
  {
    if |ips| == 1 {
      assert random % 1 == 0 && ips == [ips[0]];
    }
  }

  /** f and a number of one or two digits: a draw of 0 to 99 that does not exceed the number, unless that is
      zero, has no answer; with any other draw all addresses are answered for twelve hours. */
  lemma FailAnswer(ip: str, qtype: uint16, prefix: seq<str>, xs: seq<str>, f: byte, digits: str, domain: str,
                   random: nat)
    requires Quiet(prefix) && AllAddresses(xs) && xs != []
    requires f in {70, 102} && 1 <= |digits| <= 2 && forall c | c in digits :: 48 <= c <= 57
    ensures var name := Request(prefix, xs, [f] + digits, domain);
            var p := DecimalWorth(digits);
            Frame(ip, qtype, name, domain, random)
            == Framed(if p > 0 && random % 100 <= p then [] else EachAnswer(Values(xs), qtype, name, 43200))
  {
    hide *;
    var name := Request(prefix, xs, [f] + digits, domain);
    FailCommand(f, digits);
    CommandAnswer(ip, qtype, prefix, xs, [f] + digits, domain, random);
    ValuesFull(xs);
    FailRuns(DecimalWorth(digits), Values(xs), random);
    AnswersEach(Values(xs), [], [], qtype, name, 43200);
    NoAddress(qtype, name, 10);
  }

  lemma FailRuns(p: int, ips: seq<str>, random: nat)
    ensures !Fail(p).Noop?
    ensures Execute(Fail(p), ips, random)
            == if p > 0 && random % 100 <= p then Executed([], 10) else Executed(ips, 43200)
  {
  }

  lemma ValuesFull(xs: seq<str>)
    requires AllAddresses(xs)
    ensures forall ip | ip in Values(xs) :: |ip| == 16 && ip != []
  {
  }

  lemma FailCommand(f: byte, digits: str)
    requires f in {70, 102} && 1 <= |digits| <= 2 && forall c | c in digits :: 48 <= c <= 57
    ensures New(UpperAll([f] + digits)) == Fail(DecimalWorth(digits)) && DOT !in [f] + digits
  {
    hide Decimal, UpperAll;
    UpperDigits(f, digits);
    DigitsWorth(digits);
    assert ([70] + digits)[1..] == digits;
  }

  lemma UpperDigits(f: byte, digits: str)
    requires f in {70, 102} && forall c | c in digits :: 48 <= c <= 57
    ensures UpperAll(UpperAll([f] + digits)) == [70] + digits
  {
    var s := [f] + digits;
    var c := UpperAll(UpperAll(s));
    forall k | 0 <= k < |s|
      ensures c[k] == ([70] + digits)[k]
    {
      if k > 0 { assert s[k] == digits[k - 1] && digits[k - 1] in digits; }
    }
  }

  lemma DigitsWorth(digits: str)
    requires 1 <= |digits| <= 2 && forall c | c in digits :: 48 <= c <= 57
    ensures ParseInt(digits) == Some(DecimalWorth(digits))
  {
    hide Decimal;
    assert digits[0] in digits;
    if |digits| == 1 {
      assert digits == [digits[0]];
      Decimal1(digits[0]);
    } else {
      assert digits[1] in digits && digits == [digits[0], digits[1]];
      Decimal2(digits[0], digits[1]);
    }
  }

  /** Addresses without a command are all answered for twelve hours. */
  lemma PlainAnswer(ip: str, qtype: uint16, prefix: seq<str>, xs: seq<str>, domain: str, random: nat)
    requires Quiet(prefix) && AllAddresses(xs) && xs != []
    ensures var name := QuestionName(prefix, xs, domain);
            Frame(ip, qtype, name, domain, random) == Framed(EachAnswer(Values(xs), qtype, name, 43200))
  {
    hide Frame, QuestionName, Quiet, AllAddresses, Values, EachAnswer, To4, To16, AnswersFor, Answers;
    FrameAddresses(ip, qtype, prefix, xs, domain, random);
    ValuesFull(xs);
    AnswersEach(Values(xs), [], [], qtype, QuestionName(prefix, xs, domain), 43200);
  }
}
