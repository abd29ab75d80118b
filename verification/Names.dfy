/** Domain names: their labels, the wire form of section 3.1 of RFC 1035, and the presentation
    form with its backslash escapes, read the way packDomainName reads it. */
module Names {
  import opened Bytes

  type Label = seq<byte>

  /** Labels that the wire form can carry: 1 to 63 octets each. */
  predicate ValidLabels(ls: seq<Label>) {
    forall l | l in ls :: 1 <= |l| <= 63
  }

  predicate ShortLabels(ls: seq<Label>) {
    forall l | l in ls :: |l| <= 63
  }

  /** Octets that the labels take on the wire, the final zero excluded. */
  function LabelsLen(ls: seq<Label>): nat {
    if ls == [] then 0 else |ls[0]| + 1 + LabelsLen(ls[1..])
  }

  /** Each label behind its length octet. */
  function LabelBytes(ls: seq<Label>): (b: str)
    requires ShortLabels(ls)
    ensures |b| == LabelsLen(ls)
  {
    if ls == [] then [] else [|ls[0]|] + ls[0] + LabelBytes(ls[1..])
  }

  /** The uncompressed wire form of section 3.1 of RFC 1035. */
  function Wire(ls: seq<Label>): (b: str)
    requires ShortLabels(ls)
  {
    LabelBytes(ls) + [0]
  }

  lemma LabelBytesAppend(a: seq<Label>, b: seq<Label>)
    requires ShortLabels(a) && ShortLabels(b)
    ensures ShortLabels(a + b)
    ensures LabelBytes(a + b) == LabelBytes(a) + LabelBytes(b)
    ensures LabelsLen(a + b) == LabelsLen(a) + LabelsLen(b)
  {
    if a == [] {
      assert a + b == b;
    } else {
      assert (a + b)[1..] == a[1..] + b;
      LabelBytesAppend(a[1..], b);
    }
  }

  lemma LabelsLenAppend(a: seq<Label>, b: seq<Label>)
    ensures LabelsLen(a + b) == LabelsLen(a) + LabelsLen(b)
  {
    if a == [] {
      assert a + b == b;
    } else {
      assert (a + b)[1..] == a[1..] + b;
      LabelsLenAppend(a[1..], b);
    }
  }

  /** The labels, each followed by a dot, with nothing escaped. */
  function Join(ls: seq<Label>): (s: str)
    ensures |s| == LabelsLen(ls)
  {
    if ls == [] then [] else ls[0] + [DOT] + Join(ls[1..])
  }

  // ---------- Reading presentation form ----------

  predicate IsDigit(b: byte) { 48 <= b <= 57 }

  /** dddToByte, in Go's 8-bit arithmetic. */
  function DddToByte(a: byte, b: byte, c: byte): byte
    requires IsDigit(a) && IsDigit(b) && IsDigit(c)
  {
    ((a - 48) * 100 + (b - 48) * 10 + (c - 48)) % 256
  }

  /** A separating dot, or one octet of a label. */
  datatype Tok = Sep | Lit(b: byte)

  predicate DddAt(s: str, i: nat) {
    i + 2 < |s| && IsDigit(s[i]) && IsDigit(s[i + 1]) && IsDigit(s[i + 2])
  }

  /** How many characters the first token of s takes. */
  function TokLen(s: str): (n: nat)
    requires s != []
    ensures 1 <= n <= |s|
  {
    if s[0] != BACKSLASH || |s| == 1 then 1 else if DddAt(s, 1) then 4 else 2
  }

  function FirstTok(s: str): Tok
    requires s != [] && s != [BACKSLASH]
  {
    if s[0] == DOT then Sep
    else if s[0] != BACKSLASH then Lit(s[0])
    else if DddAt(s, 1) then Lit(DddToByte(s[1], s[2], s[3]))
    else Lit(s[1])
  }

  /** What a presentation string means: its labels, or when one of them is empty or too long, those before it.
      Octets after the last separating dot belong to no label. */
  datatype Parsed = Bad(labels: seq<Label>) | Good(labels: seq<Label>) {
    function Prepend(ls: seq<Label>): Parsed {
      match this
      case Bad(more) => Bad(ls + more)
      case Good(more) => Good(ls + more)
    }
  }

  /** cur is the label read so far, first says that no label was completed before it. An empty label
      is an error everywhere but at the very start of the name. */
  function ParseFrom(cur: Label, s: str, first: bool): (p: Parsed)
    ensures ShortLabels(p.labels)
    decreases |s|
  {
    if s == [] || s == [BACKSLASH] then Good([])
    else
      match FirstTok(s)
      case Lit(b) => ParseFrom(cur + [b], s[TokLen(s)..], first)
      case Sep =>
        if (cur == [] && !first) || |cur| >= 64 then Bad([])
        else ParseFrom([], s[1..], false).Prepend([cur])
  }

  function Parse(s: str): (p: Parsed)
    ensures ShortLabels(p.labels)
  {
    ParseFrom([], s, true)
  }

  /** The separating dots of s, read as packDomainName reads them: how many there are from i on. */
  function CountSeps(s: str): nat
    decreases |s|
  {
    if s == [] || s == [BACKSLASH] then 0
    else (if FirstTok(s) == Sep then 1 else 0) + CountSeps(s[TokLen(s)..])
  }

  /** The last character of s is a separating dot, not an escaped one. */
  predicate EndsInSep(s: str)
    decreases |s|
  {
    s != [] && s != [BACKSLASH] &&
    if TokLen(s) == |s| then FirstTok(s) == Sep else EndsInSep(s[TokLen(s)..])
  }

  lemma {:induction false} ParseCounts(cur: Label, s: str, first: bool)
    ensures var p := ParseFrom(cur, s, first);
            if p.Good? then |p.labels| == CountSeps(s) else |p.labels| < CountSeps(s)
    decreases |s|
  {
    if s != [] && s != [BACKSLASH] {
      match FirstTok(s)
      case Lit(b) => ParseCounts(cur + [b], s[TokLen(s)..], first);
      case Sep => ParseCounts([], s[1..], false);
    }
  }

  lemma SepStep(t: str)
    requires t != [] && t != [BACKSLASH]
    ensures TokLen(t) <= |t| && CountSeps(t) == (if FirstTok(t) == Sep then 1 else 0) + CountSeps(t[TokLen(t)..])
    ensures EndsInSep(t) <==> if TokLen(t) == |t| then FirstTok(t) == Sep else EndsInSep(t[TokLen(t)..])
    ensures CountSeps([]) == 0
  {
    hide TokLen, FirstTok;
  }

  predicate NoBackslash(s: str) { BACKSLASH !in s }

  predicate IsFqdn(s: str) { s != [] && s[|s| - 1] == DOT }

  /** s with a final dot. */
  function Fqdn(s: str): str { if IsFqdn(s) then s else s + [DOT] }

  const ROOT: str := [DOT]

  /** The labels of a name: none for the root, else what the parser finds. */
  function Labels(s: str): (ls: seq<Label>)
    requires Parse(s).Good?
    ensures ShortLabels(ls)
  {
    if s == ROOT then [] else Parse(s).labels
  }

  /** A fully qualified name in which every label has 1 to 63 octets. */
  predicate ValidName(s: str) {
    IsFqdn(s) && Parse(s).Good? && ValidLabels(Labels(s))
  }

  /** One character that is not a backslash. */
  lemma PlainChar(cur: Label, s: str, first: bool)
    requires s != [] && s[0] != BACKSLASH
    ensures s[0] != DOT ==> ParseFrom(cur, s, first) == ParseFrom(cur + [s[0]], s[1..], first)
    ensures s[0] == DOT && ParseFrom(cur, s, first).Good? ==>
              && ParseFrom([], s[1..], false).Good?
              && ParseFrom(cur, s, first) == Good([cur] + ParseFrom([], s[1..], false).labels)
  {
  }

  lemma NoBackslashRest(s: str)
    requires NoBackslash(s) && s != []
    ensures s[0] != BACKSLASH && NoBackslash(s[1..]) && s == [s[0]] + s[1..]
  {
    assert s[0] in s;
    assert forall c | c in s[1..] :: c in s;
  }

  lemma NothingLeft(cur: Label, first: bool)
    ensures ParseFrom(cur, [], first) == Good([]) && Join([]) == []
  {
  }

  /** Without escapes, a name is exactly its labels with dots between them. */
  lemma {:induction false} JoinParse(cur: Label, s: str, first: bool)
    requires NoBackslash(s) && ParseFrom(cur, s, first).Good?
    requires if s == [] then cur == [] else s[|s| - 1] == DOT
    ensures cur + s == Join(ParseFrom(cur, s, first).labels)
    decreases |s|
  {
    hide *;
    if s == [] {
      NothingLeft(cur, first);
    } else {
      NoBackslashRest(s);
      PlainChar(cur, s, first);
      var t := s[1..];
      if s[0] == DOT {
        JoinParse([], t, false);
        assert [] + t == t;
        JoinSep(cur, t, ParseFrom([], t, false).labels);
      } else {
        assert t != [];
        JoinParse(cur + [s[0]], t, first);
        Concat3(cur, [s[0]], t);
      }
    }
  }

  lemma JoinSep(cur: Label, t: str, ls: seq<Label>)
    requires t == Join(ls)
    ensures cur + ([DOT] + t) == Join([cur] + ls)
  {
    assert ([cur] + ls)[1..] == ls;
    assert cur + ([DOT] + t) == cur + [DOT] + t;
  }

  // ---------- Writing presentation form ----------

  /** The octets UnpackDomainName escapes with a single backslash: . ( ) ; space @ " \ */
  predicate IsSpecial(b: byte) { b in {46, 40, 41, 59, 32, 64, 34, 92} }

  predicate IsPrintable(b: byte) { 32 <= b < 127 }

  function Escape(b: byte): (s: str)
    ensures |s| == if IsSpecial(b) then 2 else if IsPrintable(b) then 1 else 4
  {
    if IsSpecial(b) then [BACKSLASH, b]
    else if IsPrintable(b) then [b]
    else [BACKSLASH, 48 + b / 100, 48 + b / 10 % 10, 48 + b % 10]
  }

  function EscapeAll(l: Label): str {
    if l == [] then [] else Escape(l[0]) + EscapeAll(l[1..])
  }

  lemma EscapeAllSnoc(l: Label, b: byte)
    ensures EscapeAll(l + [b]) == EscapeAll(l) + Escape(b)
  {
    if l == [] {
      assert l + [b] == [b];
      assert EscapeAll([b]) == Escape(b) + EscapeAll([]);
    } else {
      assert (l + [b])[1..] == l[1..] + [b];
      EscapeAllSnoc(l[1..], b);
    }
  }

  /** The labels in presentation form, each followed by a dot; the empty string for no labels. */
  function Present(ls: seq<Label>): str {
    if ls == [] then [] else EscapeAll(ls[0]) + [DOT] + Present(ls[1..])
  }

  /** The string UnpackDomainName returns for these labels. */
  function NameString(ls: seq<Label>): str {
    if ls == [] then ROOT else Present(ls)
  }

  lemma PresentAppend(a: seq<Label>, b: seq<Label>)
    ensures Present(a + b) == Present(a) + Present(b)
  {
    if a == [] {
      assert a + b == b;
    } else {
      assert (a + b)[1..] == a[1..] + b;
      PresentAppend(a[1..], b);
    }
  }

  /** The three digits of an octet read back as that octet. */
  lemma DddRoundTrip(b: byte)
    ensures IsDigit(48 + b / 100) && IsDigit(48 + b / 10 % 10) && IsDigit(48 + b % 10)
    ensures DddToByte(48 + b / 100, 48 + b / 10 % 10, 48 + b % 10) == b
  {
  }

  lemma EscapeFirst(b: byte, rest: str)
    ensures var s := Escape(b) + rest;
            s != [] && s != [BACKSLASH] && FirstTok(s) == Lit(b) && TokLen(s) == |Escape(b)| && s[TokLen(s)..] == rest
  {
    var s := Escape(b) + rest;
    DddRoundTrip(b);
    if IsSpecial(b) {
      assert s[0] == BACKSLASH && s[1] == b && !DddAt(s, 1);
    } else if IsPrintable(b) {
      assert s[0] == b;
    } else {
      assert s[0] == BACKSLASH && s[1] == 48 + b / 100 && s[2] == 48 + b / 10 % 10 && s[3] == 48 + b % 10;
      assert DddAt(s, 1);
    }
  }

  lemma {:induction false} EscapeParses(cur: Label, b: byte, rest: str, first: bool)
    ensures ParseFrom(cur, Escape(b) + rest, first) == ParseFrom(cur + [b], rest, first)
  {
    hide FirstTok, TokLen;
    EscapeFirst(b, rest);
  }

  lemma {:induction false} EscapeAllParses(cur: Label, l: Label, rest: str, first: bool)
    ensures ParseFrom(cur, EscapeAll(l) + rest, first) == ParseFrom(cur + l, rest, first)
    decreases |l|
  {
    hide ParseFrom, Escape;
    if l == [] {
      assert EscapeAll(l) + rest == rest && cur + l == cur;
    } else {
      var tail := EscapeAll(l[1..]);
      EscapeParses(cur, l[0], tail + rest, first);
      EscapeAllParses(cur + [l[0]], l[1..], rest, first);
      Concat3(Escape(l[0]), tail, rest);
      assert cur + [l[0]] + l[1..] == cur + l;
    }
  }

  lemma Concat3(a: str, b: str, c: str)
    ensures a + (b + c) == a + b + c
  {
  }

  /** Reading back what was printed gives the labels, for every octet a label can hold. */
  lemma {:induction false} ParsePresent(ls: seq<Label>, first: bool)
    requires ValidLabels(ls)
    ensures ParseFrom([], Present(ls), first) == Good(ls)
    decreases |ls|
  {
    if ls != [] {
      var rest := Present(ls[1..]);
      assert Present(ls) == EscapeAll(ls[0]) + ([DOT] + rest);
      EscapeAllParses([], ls[0], [DOT] + rest, first);
      assert [] + ls[0] == ls[0];
      var s := [DOT] + rest;
      assert s[0] == DOT && s[1..] == rest;
      ParsePresent(ls[1..], false);
      assert [ls[0]] + ls[1..] == ls;
    }
  }

  lemma PresentFqdn(ls: seq<Label>)
    requires ls != []
    ensures IsFqdn(Present(ls))
  {
    if |ls| > 1 {
      PresentFqdn(ls[1..]);
    }
  }

  /** The name printed for valid labels is valid and stands for exactly those labels. */
  lemma NameStringLabels(ls: seq<Label>)
    requires ValidLabels(ls)
    ensures ValidName(NameString(ls)) && Labels(NameString(ls)) == ls
  {
    if ls == [] {
      assert ParseFrom([], ROOT, true) == ParseFrom([], [], false).Prepend([[]]);
    } else {
      ParsePresent(ls, true);
      PresentFqdn(ls);
    }
  }

  /** How b shows at the front of a text: the dot and ( ) ; @ " \ and the space behind a backslash, the other
      printable octets as they are, and all the rest as a backslash and three decimal digits. */
  predicate Shows(s: str, b: byte, n: nat) {
    && |s| > n
    && if b in {46, 40, 41, 59, 32, 64, 34, 92} then n == 2 && s[0] == 92 && s[1] == b
       else if 33 <= b <= 126 then n == 1 && s[0] == b
       else
         && n == 4 && s[0] == 92 && 48 <= s[1] <= 57 && 48 <= s[2] <= 57 && 48 <= s[3] <= 57
         && 100 * (s[1] as int - 48) + 10 * (s[2] as int - 48) + (s[3] as int - 48) == b as int
  }

  /** s writes out the octets of l, a dot, and then ls, each label with a dot behind it. */
  predicate Prints(s: str, l: Label, ls: seq<Label>)
    decreases |ls|, |l|
  {
    if l == [] then s != [] && s[0] == 46 && if ls == [] then |s| == 1 else Prints(s[1..], ls[0], ls[1..])
    else exists n | 1 <= n <= 4 :: Shows(s, l[0], n) && Prints(s[n..], l[1..], ls)
  }

  lemma {:induction false} PresentPrints(l: Label, ls: seq<Label>)
    ensures Prints(EscapeAll(l) + [DOT] + Present(ls), l, ls)
    decreases |ls|, |l|
  {
    hide Prints, Escape;
    var s := EscapeAll(l) + [DOT] + Present(ls);
    if l == [] {
      assert s == [DOT] + Present(ls) && s[1..] == Present(ls);
      if ls != [] { PresentPrints(ls[0], ls[1..]); }
      PrintsDot(s, ls);
    } else {
      var rest := EscapeAll(l[1..]) + [DOT] + Present(ls);
      PresentPrints(l[1..], ls);
      assert s == Escape(l[0]) + rest;
      PrintsOctet(s, l, ls, rest);
    }
  }

  lemma PrintsDot(s: str, ls: seq<Label>)
    requires s != [] && s[0] == DOT && if ls == [] then |s| == 1 else Prints(s[1..], ls[0], ls[1..])
    ensures Prints(s, [], ls)
  {
  }

  lemma PrintsOctet(s: str, l: Label, ls: seq<Label>, rest: str)
    requires l != [] && rest != [] && s == Escape(l[0]) + rest && Prints(rest, l[1..], ls)
    ensures Prints(s, l, ls)
  {
    hide Prints, Escape;
    EscapeShows(l[0], rest);
    PrintsMore(s, l, ls, |Escape(l[0])|);
  }

  /** A dot separates, and any other octet but the backslash stands for itself. */
  lemma PlainReads(cur: Label, s: str, first: bool)
    requires s != [] && s[0] != 92
    ensures s[0] != 46 ==> ParseFrom(cur, s, first) == ParseFrom(cur + [s[0]], s[1..], first)
    ensures s[0] == 46 ==>
              ParseFrom(cur, s, first)
              == if (cur == [] && !first) || |cur| >= 64 then Bad([]) else ParseFrom([], s[1..], false).Prepend([cur])
  {
  }

  /** A backslash and three digits stand for one octet, in 8-bit arithmetic; a backslash and anything else for
      that. */
  lemma EscapesRead(cur: Label, s: str, first: bool)
    requires |s| > 1 && s[0] == 92
    ensures var v := if |s| > 3 && 48 <= s[1] <= 57 && 48 <= s[2] <= 57 && 48 <= s[3] <= 57
                     then 100 * (s[1] as int - 48) + 10 * (s[2] as int - 48) + (s[3] as int - 48) else s[1];
            var n := if |s| > 3 && 48 <= s[1] <= 57 && 48 <= s[2] <= 57 && 48 <= s[3] <= 57 then 4 else 2;
            ParseFrom(cur, s, first) == ParseFrom(cur + [v % 256], s[n..], first)
  {
    hide ParseFrom, DddToByte;
    ReadsTok(cur, s, first);
    if DddAt(s, 1) { DddIs(s[1], s[2], s[3]); }
  }

  lemma ReadsTok(cur: Label, s: str, first: bool)
    requires |s| > 1 && FirstTok(s).Lit?
    ensures ParseFrom(cur, s, first) == ParseFrom(cur + [FirstTok(s).b], s[TokLen(s)..], first)
  {
    hide FirstTok, TokLen;
  }

  lemma DddIs(x: byte, y: byte, z: byte)
    requires IsDigit(x) && IsDigit(y) && IsDigit(z)
    ensures DddToByte(x, y, z) == (100 * (x as int - 48) + 10 * (y as int - 48) + (z as int - 48)) % 256
  {
  }

  lemma PrintsMore(s: str, l: Label, ls: seq<Label>, n: nat)
    requires l != [] && Shows(s, l[0], n) && Prints(s[n..], l[1..], ls)
    ensures Prints(s, l, ls)
  {
  }

  lemma EscapeShows(b: byte, rest: str)
    requires rest != []
    ensures var s := Escape(b) + rest; Shows(s, b, |Escape(b)|) && s[|Escape(b)|..] == rest
  {
    var s := Escape(b) + rest;
    if !IsSpecial(b) && !IsPrintable(b) {
      var x, y, z := ThreeDigits(b);
      assert s == [BACKSLASH, x, y, z] + rest;
      assert s[0] == BACKSLASH && s[1] == x && s[2] == y && s[3] == z;
    } else if IsSpecial(b) {
      assert s[0] == BACKSLASH && s[1] == b;
    } else {
      assert s[0] == b;
    }
  }

  lemma ThreeDigits(b: byte) returns (x: byte, y: byte, z: byte)
    ensures x == 48 + b / 100 && y == 48 + b / 10 % 10 && z == 48 + b % 10
    ensures 48 <= x <= 57 && 48 <= y <= 57 && 48 <= z <= 57
    ensures 100 * (x as int - 48) + 10 * (y as int - 48) + (z as int - 48) == b as int
  {
    x, y, z := 48 + b / 100, 48 + b / 10 % 10, 48 + b % 10;
  }
}
