/** What parseIPs finds in a dotted string, label by label. */
module ScannerGreedy {
  import opened Bytes
  import opened Hex
  import opened Names
  import opened LabelOps
  import opened Scanner

  /** Pieces as between the dots of any text. */
  predicate Undotted(fs: seq<str>) {
    forall f | f in fs :: DOT !in f
  }

  /** Labels as between the dots of a name. */
  predicate Dotless(ls: seq<str>) {
    forall l | l in ls :: l != [] && DOT !in l
  }

  /** A first label that is no address, but where the scanner slices below the start of the string: one
      character long, or with a colon further left than its last two characters. */
  predicate Trips(l: str) {
    |l| <= 1 || COLON in l[..|l| - 2]
  }

  /** Pieces at which the scanner slices below the start of the string: a single one that trips it, or one in
      front of a final dot, if it is empty or has a colon left of its last character. */
  predicate Panics(fs: seq<str>) {
    || (|fs| == 1 && fs[0] != [] && Trips(fs[0]))
    || (|fs| == 2 && fs[1] == [] && (fs[0] == [] || COLON in fs[0][..|fs[0]| - 1]))
  }

  /** Pieces that it never leaves: two dots, or a dot and one character. */
  predicate Loops(fs: seq<str>) {
    fs == [[], [], []] || (|fs| == 2 && fs[0] == [] && |fs[1]| == 1)
  }

  /** The addresses found, and the pieces where the reading stops. */
  datatype Reading = Reading(ips: seq<str>, left: seq<str>) {
    function Then(ip: str): Reading { Reading(ips + [ip], left) }
  }

  /** The greedy reading from the right: a piece that is an eight-group address, else four pieces that are a
      dotted quad, else drop one piece, and with an empty piece at the end the one before it, too. */
  function Read(fs: seq<str>): Reading {
    var n := |fs|;
    if n == 0 then Reading([], [])
    else
      var x := fs[n - 1];
      if Groups(x).Some? then Read(fs[..n - 1]).Then(Groups(x).value)
      else if n >= 4 && Quad(fs[n - 4..]).Some? then Read(fs[..n - 4]).Then(Quad(fs[n - 4..]).value)
      else if n == 1 || (n == 2 && x == []) || Loops(fs) then Reading([], fs)
      else if x == [] then Read(fs[..n - 2])
      else Read(fs[..n - 1])
  }

  function Greedy(fs: seq<str>): Scanned {
    var r := Read(fs);
    if Panics(r.left) then SlicePanic else if Loops(r.left) then Diverges else Done(r.ips)
  }

  // ---------- Splitting ----------

  lemma {:induction false} FieldsCons(a: str, c: byte, b: str)
    requires c !in a
    ensures Fields(a + [c] + b, c) == [a] + Fields(b, c)
    ensures Fields(a, c) == [a]
    decreases |a|
  {
    var s := a + [c] + b;
    if a == [] {
      assert s[1..] == b;
    } else {
      assert a[0] in a && forall x | x in a[1..] :: x in a;
      assert s[1..] == a[1..] + [c] + b;
      FieldsCons(a[1..], c, b);
      assert [a[0]] + a[1..] == a;
      var rest := Fields(s[1..], c);
      assert rest[0] == a[1..] && rest[1..] == Fields(b, c);
    }
  }

  lemma {:induction false} FieldsJoin(ls: seq<str>)
    requires ls != [] && Undotted(ls)
    ensures Fields(JoinDots(ls), DOT) == ls
    decreases |ls|
  {
    assert ls[0] in ls;
    FieldsCons(ls[0], DOT, JoinDots(ls[1..]));
    if |ls| > 1 {
      assert forall l | l in ls[1..] :: l in ls;
      FieldsJoin(ls[1..]);
      assert [ls[0]] + ls[1..] == ls;
    } else {
      assert [ls[0]] == ls;
    }
  }

  lemma {:induction false} FieldsFew(a: str, c: byte, b: str)
    requires c !in a
    ensures |Fields(a + b, c)| <= |b| + 1
    decreases |a|, |b|
  {
    var s := a + b;
    if a != [] {
      assert a[0] in a && forall x | x in a[1..] :: x in a;
      assert s[1..] == a[1..] + b;
      FieldsFew(a[1..], c, b);
    } else if b != [] {
      assert s == b;
      FieldsFew([], c, b[1..]);
      assert [] + b[1..] == b[1..];
    }
  }

  /** Splitting loses no character but the separators. */
  lemma {:induction false} FieldsHold(s: str, c: byte, x: byte)
    requires x in s && x != c
    ensures exists f | f in Fields(s, c) :: x in f
    decreases |s|
  {
    var rest := Fields(s[1..], c);
    var all := Fields(s, c);
    if x in s[1..] {
      FieldsHold(s[1..], c, x);
      var k :| 0 <= k < |rest| && x in rest[k];
      if s[0] == c {
        assert all[k + 1] == rest[k];
      } else if k == 0 {
        assert all[0] == [s[0]] + rest[0];
        assert x in all[0];
      } else {
        assert all[k] == rest[k];
      }
    } else {
      assert all[0] == [s[0]] + rest[0];
      assert all[0][0] == x && all[0] in all;
    }
  }

  // ---------- Which pieces are addresses ----------

  lemma ShortNone(s: str)
    requires |s| == 1
    ensures ParseIP(s).None?
  {
    FieldsFew([], DOT, s);
    FieldsFew([], COLON, s);
    assert [] + s == s;
  }

  lemma NoHexNone(s: str, c: byte)
    requires c in s && c != COLON && !IsHex(c)
    ensures Groups(s).None?
  {
    FieldsHold(s, COLON, c);
    var f :| f in Fields(s, COLON) && c in f;
    assert !IsGroup(f);
  }

  lemma DottedNone(s: str)
    requires DOT in s
    ensures Groups(s).None?
  {
    NoHexNone(s, DOT);
  }

  /** A run of labels is an address when it is one eight-group label or four octets. */
  lemma RunAddress(run: seq<str>)
    requires run != [] && Undotted(run)
    ensures ParseIP(JoinDots(run)) == if |run| == 4 then Quad(run) else if |run| == 1 then Groups(run[0]) else None
  {
    hide Groups, Quad;
    FieldsJoin(run);
    if |run| > 1 {
      assert JoinDots(run)[|run[0]|] == DOT;
      DottedNone(JoinDots(run));
    }
  }

  /** An eight-group address has a colon before its last two characters. */
  lemma ColonEarly(l: str)
    requires Groups(l).Some?
    ensures |l| > 2 && COLON in l[..|l| - 2]
  {
    assert [] + l == l;
    FieldsFew([], COLON, l);
    FieldsTail(l, COLON);
  }

  lemma FieldsTail(l: str, c: byte)
    requires |l| > 2
    ensures c !in l[..|l| - 2] ==> |Fields(l, c)| <= 3
  {
    if c !in l[..|l| - 2] {
      FieldsFew(l[..|l| - 2], c, l[|l| - 2..]);
      assert l[..|l| - 2] + l[|l| - 2..] == l;
    }
  }

  // ---------- Where the labels are ----------

  /** Where label i starts in the joined string. */
  function Off(ls: seq<str>, i: nat): nat
    requires i <= |ls|
  {
    if i == 0 then 0 else |JoinDots(ls[..i])| + 1
  }

  lemma OffZero(ls: seq<str>)
    ensures Off(ls, 0) == 0 && JoinDots([]) == []
  {
  }

  lemma {:induction false} JoinSplit(ls: seq<str>, i: nat)
    requires 0 < i < |ls|
    ensures JoinDots(ls) == JoinDots(ls[..i]) + [DOT] + JoinDots(ls[i..])
    decreases |ls|
  {
    if i == 1 {
      assert ls[..1] == [ls[0]];
    } else {
      JoinSplit(ls[1..], i - 1);
      assert ls[1..][..i - 1] == ls[..i][1..] && ls[1..][i - 1..] == ls[i..] && ls[..i][0] == ls[0];
      Concat3(ls[0] + [DOT], JoinDots(ls[..i][1..]) + [DOT], JoinDots(ls[i..]));
      Concat3(ls[0] + [DOT], JoinDots(ls[..i][1..]), [DOT]);
    }
  }

  /** Cut at a label that is not the first. */
  lemma CutAt(ls: seq<str>, i: nat)
    requires 0 < i < |ls|
    ensures var t := JoinDots(ls);
            && 0 < Off(ls, i) <= |t|
            && t[..Off(ls, i) - 1] == JoinDots(ls[..i]) && t[Off(ls, i)..] == JoinDots(ls[i..])
  {
    hide JoinDots;
    JoinSplit(ls, i);
  }

  lemma UndottedPart(ls: seq<str>, i: nat)
    requires i <= |ls| && Undotted(ls)
    ensures Undotted(ls[..i]) && Undotted(ls[i..])
  {
    assert forall l | l in ls[..i] :: l in ls;
    assert forall l | l in ls[i..] :: l in ls;
  }

  lemma DotlessPart(ls: seq<str>, i: nat)
    requires i <= |ls| && Dotless(ls)
    ensures Dotless(ls[..i]) && Dotless(ls[i..])
  {
    assert forall l | l in ls[..i] :: l in ls;
    assert forall l | l in ls[i..] :: l in ls;
  }

  lemma {:induction false} LastIndexTail(base: str, x: str, c: byte)
    requires c !in x
    ensures LastIndexByte(base + x, c) == LastIndexByte(base, c)
    decreases |x|
  {
    if x == [] {
      assert base + x == base;
    } else {
      var y := x[..|x| - 1];
      assert (base + x)[..|base + x| - 1] == base + y && (base + x)[|base + x| - 1] == x[|x| - 1];
      assert x[|x| - 1] in x && forall k | k in y :: k in x;
      LastIndexTail(base, y, c);
    }
  }

  lemma {:induction false} LastIndexHas(s: str, c: byte)
    ensures LastIndexByte(s, c) < 0 <==> c !in s
    decreases |s|
  {
    if s != [] {
      LastIndexHas(s[..|s| - 1], c);
      assert s == s[..|s| - 1] + [s[|s| - 1]];
    }
  }

  /** The dot before the last label x, when the text before that label is base. */
  lemma DotBefore(base: str, x: str)
    requires DOT !in x
    ensures LastIndexByte(base + [DOT] + x, DOT) == |base| && LastIndexByte(x, DOT) == -1
  {
    LastIndexTail(base + [DOT], x, DOT);
    LastIndexHas(x, DOT);
  }

  /** LastIndex(t[:k], ".") for k inside the last label. */
  lemma DotInLast(ls: seq<str>, k: nat)
    requires |ls| >= 1 && Undotted(ls) && Off(ls, |ls| - 1) <= k <= |JoinDots(ls)|
    ensures LastIndexByte(JoinDots(ls)[..k], DOT) == Off(ls, |ls| - 1) - 1
  {
    var n := |ls| - 1;
    var l := ls[n];
    assert l in ls && ls[n..] == [l];
    if n == 0 {
      assert forall x | x in l[..k] :: x in l;
      DotBefore([], l[..k]);
    } else {
      var base := JoinDots(ls[..n]);
      JoinSplit(ls, n);
      var x := l[..k - |base| - 1];
      assert forall y | y in x :: y in l;
      assert JoinDots(ls)[..k] == base + [DOT] + x;
      DotBefore(base, x);
    }
  }

  // ---------- The scan, piece by piece ----------

  /** How long the text is, and where its last piece and the one before it stand. */
  lemma LastPieces(ls: seq<str>)
    requires |ls| >= 2
    ensures var n := |ls| - 1;
            var t := JoinDots(ls);
            && |t| == Off(ls, n) + |ls[n]| && Off(ls, n) == Off(ls, n - 1) + |ls[n - 1]| + 1
            && t[..Off(ls, n) - 1] == JoinDots(ls[..n])
            && JoinDots(ls[n..]) == ls[n]
  {
    hide JoinDots;
    var n := |ls| - 1;
    CutAt(ls, n);
    assert ls[n..] == [ls[n]];
    JoinDotsOne(ls[n]);
    var p := ls[..n];
    if n == 1 {
      assert p == [ls[0]];
      JoinDotsOne(ls[0]);
    } else {
      CutAt(p, n - 1);
      assert p[n - 1..] == [ls[n - 1]] && p[..n - 1] == ls[..n - 1];
      JoinDotsOne(ls[n - 1]);
    }
  }

  lemma JoinDotsOne(l: str)
    ensures JoinDots([l]) == l && JoinDots([]) == []
  {
  }

  /** The dot that the scanner jumps to when it drops pieces on the right: the last one, unless that ends the
      text. There is none only when the text has no other. */
  lemma DropDot(ls: seq<str>)
    requires |ls| >= 2 && Undotted(ls)
    ensures var n := |ls| - 1;
            var t := JoinDots(ls);
            |t| >= 1 && LastIndexByte(t[..|t| - 1], DOT)
                        == if ls[n] != [] then Off(ls, n) - 1 else Off(ls, n - 1) - 1
  {
    hide JoinDots, Undotted;
    var n := |ls| - 1;
    LastPieces(ls);
    if ls[n] != [] {
      DotInLast(ls, |JoinDots(ls)| - 1);
    } else {
      UndottedPart(ls, n);
      if n > 1 { CutAt(ls[..n], n - 1); }
      DotInLast(ls[..n], |JoinDots(ls[..n])|);
      assert JoinDots(ls[..n])[..|JoinDots(ls[..n])|] == JoinDots(ls[..n]);
      assert ls[..n][..n - 1] == ls[..n - 1];
    }
  }

  /** Several pieces to the left of a start that is no address: the scan goes on to piece f. */
  lemma {:induction false} Sweep(ls: seq<str>, i: nat, f: nat)
    requires |ls| >= 2 && Undotted(ls) && f <= i < |ls| && Off(ls, i) < |JoinDots(ls)|
    requires ls[|ls| - 1] == [] ==> |ls| >= 3
    requires forall k | f < k <= i :: ParseIP(JoinDots(ls[k..])).None?
    ensures Off(ls, f) < |JoinDots(ls)|
    ensures Scan(JoinDots(ls), Off(ls, i)) == Scan(JoinDots(ls), Off(ls, f))
    decreases i - f
  {
    hide *;
    if i > f {
      var t := JoinDots(ls);
      CutAt(ls, i);
      DropDot(ls);
      OffSome(ls);
      OffLast(ls, i);
      ScanStep(t, Off(ls, i));
      Sweep(ls, i - 1, f);
    }
  }

  /** Pieces but the first start behind a dot, and each behind the ones before it. */
  lemma OffSome(ls: seq<str>)
    requires |ls| >= 2
    ensures Off(ls, |ls| - 1) >= 1 && (|ls| >= 3 ==> Off(ls, |ls| - 2) >= 1) && Off(ls, 0) == 0
  {
  }

  lemma OffLast(ls: seq<str>, i: nat)
    requires 0 < i < |ls| && Undotted(ls)
    ensures LastIndexByte(JoinDots(ls[..i]), DOT) == Off(ls, i - 1) - 1
    ensures Off(ls, i - 1) < Off(ls, i)
  {
    hide JoinDots, Undotted;
    UndottedPart(ls, i);
    var p := ls[..i];
    assert p[..i - 1] == ls[..i - 1];
    if i > 1 { CutAt(p, i - 1); }
    DotInLast(p, |JoinDots(p)|);
    assert JoinDots(p)[..|JoinDots(p)|] == JoinDots(p);
  }

  /** The last piece that is not empty, or the one before the last: there the scan looks next after looking
      at the last character. */
  function LastSome(ls: seq<str>): (i: nat)
    requires |ls| >= 2
  {
    if ls[|ls| - 1] == [] then |ls| - 2 else |ls| - 1
  }

  lemma FromEnd(ls: seq<str>)
    requires |ls| >= 2 && Undotted(ls) && (ls[|ls| - 1] == [] ==> |ls| >= 3)
    ensures Off(ls, LastSome(ls)) < |JoinDots(ls)|
    ensures Scan(JoinDots(ls), |JoinDots(ls)| - 1) == Scan(JoinDots(ls), Off(ls, LastSome(ls)))
  {
    hide Scan, JoinDots, Undotted, ParseIP, LastIndexByte;
    var t, n := JoinDots(ls), |ls| - 1;
    LastPieces(ls);
    OffSome(ls);
    if Off(ls, LastSome(ls)) < |t| - 1 {
      ShortNone(t[|t| - 1..]);
      ScanStep(t, |t| - 1);
      DropDot(ls);
      if ls[n] != [] {
        DotInLast(ls, |t| - 2);
      } else {
        UndottedPart(ls, n);
        var p := ls[..n];
        assert p[..n - 1] == ls[..n - 1];
        DotInLast(p, |t| - 2);
        assert JoinDots(p)[..|t| - 2] == t[..|t| - 2];
      }
    }
  }

  lemma NoneAfter(ls: seq<str>, f: nat)
    requires |ls| >= 2 && Undotted(ls) && f < |ls|
    requires f + 1 < |ls| ==> Groups(ls[|ls| - 1]).None?
    requires f + 4 < |ls| ==> Quad(ls[|ls| - 4..]).None?
    ensures forall k | f < k < |ls| :: ParseIP(JoinDots(ls[k..])).None?
  {
    hide JoinDots, ParseIP, Groups, Quad, Undotted;
    forall k | f < k < |ls|
      ensures ParseIP(JoinDots(ls[k..])).None?
    {
      UndottedPart(ls, k);
      RunAddress(ls[k..]);
    }
  }

  /** An address that starts at piece f ends the sweep. */
  lemma FoundAt(ls: seq<str>, f: nat, ip: str)
    requires |ls| >= 2 && Undotted(ls) && f < |ls| && ls[|ls| - 1] != []
    requires ParseIP(JoinDots(ls[f..])) == Some(ip)
    requires f + 1 < |ls| ==> Groups(ls[|ls| - 1]).None?
    requires f + 4 < |ls| ==> Quad(ls[|ls| - 4..]).None?
    ensures var rest := JoinDots(ls[..f]);
            Scan(JoinDots(ls), |JoinDots(ls)| - 1) == Scan(rest, |rest| - 1).Then(ip)
  {
    hide Scan, JoinDots, Undotted, ParseIP, Groups, Quad, LastIndexByte;
    FromEnd(ls);
    NoneAfter(ls, f);
    Sweep(ls, |ls| - 1, f);
    var t := JoinDots(ls);
    if f == 0 {
      assert ls[0..] == ls && ls[..0] == [] && t[0..] == t;
      JoinDotsOne([]);
      ScanStep(t, 0);
      ScanOver([], -1);
    } else {
      CutAt(ls, f);
      ScanStep(t, Off(ls, f));
      if Off(ls, f) == 1 { ScanOver([], -1); }
    }
  }

  /** Without an address at its end, the scan drops the last piece, or the last two if the last is empty;
      unless it has too little text left for that. */
  lemma NotFound(ls: seq<str>)
    requires |ls| >= 2 && Undotted(ls) && (ls[|ls| - 1] == [] ==> |ls| >= 3)
    requires Groups(ls[|ls| - 1]).None? && (|ls| >= 4 ==> Quad(ls[|ls| - 4..]).None?)
    ensures var rest := JoinDots(ls[..LastSome(ls)]);
            Scan(JoinDots(ls), |JoinDots(ls)| - 1) == if Loops(ls) then Diverges else Scan(rest, |rest| - 1)
  {
    hide Scan, JoinDots, Undotted, ParseIP, Groups, Quad, LastIndexByte;
    var t, e := JoinDots(ls), LastSome(ls);
    FromEnd(ls);
    NoneAfter(ls, 0);
    Sweep(ls, e, 0);
    RunAddress(ls);
    assert |ls| == 4 ==> ls[|ls| - 4..] == ls;
    assert t[0..] == t;
    DropDot(ls);
    OffSome(ls);
    CutAt(ls, e);
    ScanStep(t, 0);
    ShortText(ls);
  }

  lemma ShortText(ls: seq<str>)
    requires |ls| >= 2 && (ls[|ls| - 1] == [] ==> |ls| >= 3)
    ensures |JoinDots(ls)| <= 2 <==> Loops(ls)
  {
    hide JoinDots;
    LastPieces(ls);
    if |ls| > 2 {
      CutAt(ls, |ls| - 2);
      var p := ls[..|ls| - 2];
      if |ls| > 3 { CutAt(p, |ls| - 3); }
      if |ls| == 3 { assert p == [ls[0]]; JoinDotsOne(ls[0]); assert ls == [ls[0], ls[1], ls[2]]; }
    } else {
      assert ls[..1] == [ls[0]];
      JoinDotsOne(ls[0]);
    }
  }

  /** A single piece: the scan looks at its last character, then gives up unless a colon is left of it. */
  lemma SingleLabel(l: str)
    requires l != [] && DOT !in l
    ensures Scan(l, |l| - 1)
            == if Groups(l).Some? then Done([Groups(l).value]) else if Trips(l) then SlicePanic else Done([])
  {
    hide Groups, Scan, LastIndexByte, ParseIP;
    var k := |l| - 1;
    assert forall x | x in l[..k] :: x in l;
    DotBefore([], l[..k]);
    ShortNone(l[k..]);
    ScanStep(l, k);
    RunAddress([l]);
    assert l[0..] == l;
    if Groups(l).Some? { ColonEarly(l); }
    if k > 0 {
      assert forall x | x in l[..k - 1] :: x in l;
      DotBefore([], l[..k - 1]);
      LastIndexHas(l[..k - 1], COLON);
      ScanStep(l, 0);
    }
  }

  lemma FinalNone(l: str)
    requires DOT !in l
    ensures ParseIP(l + [DOT]).None?
  {
    hide Groups, Quad;
    FieldsCons(l, DOT, []);
    assert l + [DOT] + [] == l + [DOT];
    assert (l + [DOT])[|l|] == DOT;
    DottedNone(l + [DOT]);
  }

  /** A single piece in front of a final dot: the same, from the dot on. */
  lemma FinalDot(l: str)
    requires DOT !in l
    ensures Scan(l + [DOT], |l|) == if l == [] || COLON in l[..|l| - 1] then SlicePanic else Done([])
  {
    hide Groups, Scan, LastIndexByte, ParseIP;
    var t := l + [DOT];
    ShortNone(t[|l|..]);
    DotBefore([], l);
    assert t[..|l|] == l;
    ScanStep(t, |l|);
    if l != [] {
      assert t[..|l| - 1] == l[..|l| - 1];
      LastIndexHas(l[..|l| - 1], COLON);
      assert forall x | x in l[..|l| - 1] :: x in l;
      DotBefore([], l[..|l| - 1]);
      FinalNone(l);
      assert t[0..] == t;
      ScanStep(t, 0);
    }
  }

  lemma LoopsOnly(fs: seq<str>)
    ensures Loops(fs) ==> !Panics(fs) && |fs| >= 2
  {
  }

  /** One step of the reading. */
  lemma GreedyStep(fs: seq<str>)
    requires |fs| >= 2
    ensures var n, x := |fs|, fs[|fs| - 1];
            if Groups(x).Some? then Greedy(fs) == Greedy(fs[..n - 1]).Then(Groups(x).value)
            else if n >= 4 && Quad(fs[n - 4..]).Some? then
              Greedy(fs) == Greedy(fs[..n - 4]).Then(Quad(fs[n - 4..]).value)
            else if n == 2 && x == [] then true
            else Greedy(fs) == if Loops(fs) then Diverges else Greedy(fs[..LastSome(fs)])
  {
    hide Groups, Quad, Panics, Loops;
    LoopsOnly(fs);
  }

  /** parseIPs is the greedy reading from the right, on the pieces between the dots of any text. */
  lemma {:induction false} ScanPieces(fs: seq<str>)
    requires Undotted(fs)
    ensures Scan(JoinDots(fs), |JoinDots(fs)| - 1) == Greedy(fs)
    decreases |fs|
  {
    hide Scan, Groups, Quad, ParseIP, JoinDots, Trips, Undotted, Greedy, Loops;
    var n := |fs|;
    if n == 0 {
      NoPieces();
    } else if n == 1 {
      LonePiece(fs);
    } else {
      var x := fs[n - 1];
      GreedyStep(fs);
      if Groups(x).Some? {
        UndottedPart(fs, n - 1);
        LastGroups(fs);
        ScanPieces(fs[..n - 1]);
      } else if n >= 4 && Quad(fs[n - 4..]).Some? {
        UndottedPart(fs, n - 4);
        LastQuad(fs);
        ScanPieces(fs[..n - 4]);
      } else if n == 2 && x == [] {
        TwoPieces(fs);
      } else {
        NotFound(fs);
        UndottedPart(fs, LastSome(fs));
        ScanPieces(fs[..LastSome(fs)]);
      }
    }
  }

  lemma NoPieces()
    ensures Scan(JoinDots([]), |JoinDots([])| - 1) == Greedy([])
  {
  }

  /** The last piece is an address. */
  lemma LastGroups(fs: seq<str>)
    requires |fs| >= 2 && Undotted(fs) && Groups(fs[|fs| - 1]).Some?
    ensures var rest := JoinDots(fs[..|fs| - 1]);
            Scan(JoinDots(fs), |JoinDots(fs)| - 1) == Scan(rest, |rest| - 1).Then(Groups(fs[|fs| - 1]).value)
  {
    hide Scan, Groups, ParseIP, JoinDots, Undotted;
    var n := |fs| - 1;
    GroupsNonempty(fs[n]);
    assert fs[n..] == [fs[n]];
    UndottedPart(fs, n);
    RunAddress(fs[n..]);
    FoundAt(fs, n, Groups(fs[n]).value);
  }

  /** The last four pieces are one. */
  lemma LastQuad(fs: seq<str>)
    requires |fs| >= 4 && Undotted(fs) && Quad(fs[|fs| - 4..]).Some? && Groups(fs[|fs| - 1]).None?
    ensures var rest := JoinDots(fs[..|fs| - 4]);
            Scan(JoinDots(fs), |JoinDots(fs)| - 1) == Scan(rest, |rest| - 1).Then(Quad(fs[|fs| - 4..]).value)
  {
    hide Scan, Groups, Quad, ParseIP, JoinDots, Undotted;
    var n := |fs| - 4;
    QuadNonempty(fs[n..]);
    assert fs[n..][3] == fs[|fs| - 1] && fs[|fs| - 1] in fs[n..];
    UndottedPart(fs, n);
    RunAddress(fs[n..]);
    FoundAt(fs, n, Quad(fs[n..]).value);
  }

  lemma LonePiece(fs: seq<str>)
    requires |fs| == 1 && Undotted(fs)
    ensures Scan(JoinDots(fs), |JoinDots(fs)| - 1) == Greedy(fs)
  {
    hide Scan, Groups, Trips;
    assert fs[0] in fs && fs[..0] == [];
    JoinDotsOne(fs[0]);
    assert fs == [fs[0]];
    if fs[0] == [] {
      ScanOver([], -1);
      EmptyNone();
    } else {
      SingleLabel(fs[0]);
      assert Read([]) == Reading([], []);
      if Groups(fs[0]).Some? {
        assert [] + [Groups(fs[0]).value] == [Groups(fs[0]).value];
      }
    }
  }

  lemma EmptyNone()
    ensures Groups([]).None?
  {
  }

  lemma TwoPieces(fs: seq<str>)
    requires |fs| == 2 && Undotted(fs) && fs[1] == [] && Groups(fs[1]).None?
    ensures Scan(JoinDots(fs), |JoinDots(fs)| - 1) == Greedy(fs)
  {
    hide Scan, Groups, JoinDots;
    LastPieces(fs);
    assert fs[..1] == [fs[0]] && fs[0] in fs;
    JoinDotsOne(fs[0]);
    JoinSplit(fs, 1);
    assert JoinDots(fs) == fs[0] + [DOT] + [];
    assert fs[0] + [DOT] + [] == fs[0] + [DOT];
    FinalDot(fs[0]);
  }

  /** ... for every string: what it finds, and exactly when it slices below the start or never ends. */
  lemma ScanIsGreedy(s: str)
    ensures Scan(s, |s| - 1) == Greedy(Fields(s, DOT))
  {
    hide Scan, Fields, Greedy;
    JoinFields(s);
    ScanPieces(Fields(s, DOT));
  }

  /** What is left where the reading stops is where the text begins. */
  lemma {:induction false} LeftBegins(fs: seq<str>)
    ensures Read(fs).left <= fs
    decreases |fs|
  {
    hide Read;
    var k := ReadStep(fs);
    if k < |fs| {
      LeftBegins(fs[..k]);
    }
  }

  /** The reading stops, or goes on with the first k pieces. */
  lemma ReadStep(fs: seq<str>) returns (k: nat)
    ensures k <= |fs| && Read(fs).left == if k == |fs| then fs else Read(fs[..k]).left
  {
    hide Groups, Quad, Loops;
    var n := |fs|;
    k := if n == 0 then 0
         else if Groups(fs[n - 1]).Some? then n - 1
         else if n >= 4 && Quad(fs[n - 4..]).Some? then n - 4
         else if n == 1 || (n == 2 && fs[n - 1] == []) || Loops(fs) then n
         else if fs[n - 1] == [] then n - 2 else n - 1;
  }

  /** The scanner slices below the start, or never ends, exactly where the reading is left with pieces of the one
      or the other kind. So only text that starts with a dot keeps it busy for ever, and only text that starts
      with a short piece or one with a colon makes it slice below the start. */
  lemma ScanFails(s: str)
    ensures Scan(s, |s| - 1).SlicePanic? <==> Panics(Read(Fields(s, DOT)).left)
    ensures Scan(s, |s| - 1).Diverges? <==> Loops(Read(Fields(s, DOT)).left)
    ensures Scan(s, |s| - 1).Diverges? ==> s != [] && s[0] == DOT
    ensures Scan(s, |s| - 1).SlicePanic? ==> s != [] && (|Fields(s, DOT)[0]| <= 1 || COLON in Fields(s, DOT)[0])
  {
    hide Scan, Read;
    ScanIsGreedy(s);
    var fs := Fields(s, DOT);
    var left := Read(fs).left;
    LeftBegins(fs);
    if left != [] {
      assert left[0] == fs[0];
      if s == [] {
        assert fs == [[]];
      }
    }
  }

  // ---------- Lists of addresses ----------

  predicate IsAddress(x: str) { ParseIP(x).Some? }

  predicate AllAddresses(xs: seq<str>) {
    forall x | x in xs :: IsAddress(x)
  }

  function Value(x: str): str
    requires IsAddress(x)
  {
    ParseIP(x).value
  }

  /** The addresses that the strings stand for. */
  function Values(xs: seq<str>): (ips: seq<str>)
    requires AllAddresses(xs)
    ensures |ips| == |xs| && forall k | 0 <= k < |xs| :: IsAddress(xs[k]) && ips[k] == Value(xs[k])
  {
    if xs == [] then []
    else
      var n := |xs| - 1;
      assert xs[n] in xs && forall x | x in xs[..n] :: x in xs;
      Values(xs[..n]) + [Value(xs[n])]
  }

  /** The labels of prefix and then those of each address. */
  function Flat(prefix: seq<str>, xs: seq<str>): seq<str> {
    if xs == [] then prefix else Flat(prefix, xs[..|xs| - 1]) + Fields(xs[|xs| - 1], DOT)
  }

  lemma {:induction false} JoinFields(s: str)
    ensures JoinDots(Fields(s, DOT)) == s
    ensures forall f | f in Fields(s, DOT) :: DOT !in f
    decreases |s|
  {
    if s != [] {
      var rest := Fields(s[1..], DOT);
      JoinFields(s[1..]);
      var all := Fields(s, DOT);
      if s[0] == DOT {
        assert all[1..] == rest;
      } else {
        assert all[0] == [s[0]] + rest[0] && all[1..] == rest[1..];
        if |rest| > 1 {
          Concat3([s[0]], rest[0] + [DOT], JoinDots(rest[1..]));
        }
      }
    }
  }

  lemma AddressFields(x: str)
    requires IsAddress(x)
    ensures Dotless(Fields(x, DOT))
    ensures if |Fields(x, DOT)| == 4 then ParseIP(x) == Quad(Fields(x, DOT))
            else Fields(x, DOT) == [x] && Groups(x) == ParseIP(x)
  {
    hide Groups, Fields, Quad;
    var f := Fields(x, DOT);
    JoinFields(x);
    if |f| == 4 {
      QuadNonempty(f);
    } else if DOT in x {
      DottedNone(x);
    } else {
      FieldsCons(x, DOT, []);
      GroupsNonempty(x);
    }
  }

  lemma QuadNonempty(f: seq<str>)
    requires |f| == 4 && Quad(f).Some?
    ensures forall l | l in f :: IsOctet(l) && l != []
  {
    hide Decimal;
    assert f == [f[0], f[1], f[2], f[3]];
  }

  lemma GroupsNonempty(x: str)
    requires Groups(x).Some?
    ensures x != []
  {
  }

  lemma OctetNoGroup(x: str)
    requires IsOctet(x)
    ensures Groups(x).None?
  {
    FieldsCons(x, COLON, []);
  }

  lemma DotlessBoth(a: seq<str>, b: seq<str>)
    requires Dotless(a) && Dotless(b)
    ensures Dotless(a + b)
  {
  }

  /** Greedy reading takes an address that ends the labels. */
  lemma GreedyAddress(ls: seq<str>, x: str)
    requires Dotless(ls) && IsAddress(x)
    ensures Dotless(ls + Fields(x, DOT))
    ensures Greedy(ls + Fields(x, DOT)) == Greedy(ls).Then(Value(x))
  {
    hide Dotless, Panics, Loops, Groups, Quad, IsOctet, Trips, Fields;
    AddressFields(x);
    var f := Fields(x, DOT);
    DotlessBoth(ls, f);
    var all := ls + f;
    if |f| == 4 {
      QuadNonempty(f);
      assert f[3] in f;
      OctetNoGroup(f[3]);
      assert all[|all| - 4..] == f && all[..|all| - 4] == ls && all[|all| - 1] == f[3];
    } else {
      assert all[|all| - 1] == x && all[..|all| - 1] == ls;
    }
  }

  lemma {:induction false} FlatIs(prefix: seq<str>, xs: seq<str>)
    requires Dotless(prefix) && AllAddresses(xs)
    ensures Dotless(Flat(prefix, xs)) && JoinDots(Flat(prefix, xs)) == JoinDots(prefix + xs)
    ensures Flat(prefix, xs) == [] <==> prefix + xs == []
    ensures Greedy(Flat(prefix, xs)) == ThenAll(Greedy(prefix), Values(xs))
    decreases |xs|
  {
    hide Dotless, IsAddress, Value, JoinDots, Greedy;
    if xs == [] {
      assert prefix + xs == prefix;
      ThenNone(Greedy(prefix));
    } else {
      var n := |xs| - 1;
      var x, more := xs[n], xs[..n];
      assert x in xs && forall y | y in more :: y in xs;
      FlatIs(prefix, more);
      GreedyAddress(Flat(prefix, more), x);
      JoinAddress(Flat(prefix, more), prefix + more, x);
      assert prefix + more + [x] == prefix + xs;
      ThenMore(Greedy(prefix), Values(more), Values(xs)[n]);
      assert Values(more) + [Values(xs)[n]] == Values(xs);
    }
  }

  lemma JoinAddress(ls: seq<str>, items: seq<str>, x: str)
    requires JoinDots(ls) == JoinDots(items) && (ls == [] <==> items == [])
    ensures JoinDots(ls + Fields(x, DOT)) == JoinDots(items + [x])
  {
    hide Fields, JoinDots;
    JoinFields(x);
    JoinDotsSnoc(items, x);
    var f := Fields(x, DOT);
    if ls == [] {
      assert ls + f == f;
    } else {
      JoinSplit(ls + f, |ls|);
      assert (ls + f)[..|ls|] == ls && (ls + f)[|ls|..] == f;
    }
  }

  function ThenAll(r: Scanned, ips: seq<str>): Scanned {
    match r
    case Done(found) => Done(found + ips)
    case _ => r
  }

  lemma ThenNone(r: Scanned)
    ensures ThenAll(r, []) == r
  {
    if r.Done? {
      assert r.ips + [] == r.ips;
    }
  }

  lemma ThenMore(r: Scanned, ips: seq<str>, ip: str)
    ensures ThenAll(r, ips).Then(ip) == ThenAll(r, ips + [ip])
  {
    if r.Done? {
      assert r.ips + ips + [ip] == r.ips + (ips + [ip]);
    }
  }

  /** Addresses at the end of a name are found, all of them and in their order, whatever labels stand in
      front; those are read as if they stood alone. */
  lemma AddressesFound(prefix: seq<str>, xs: seq<str>)
    requires Dotless(prefix) && AllAddresses(xs)
    ensures var s := JoinDots(prefix + xs);
            Scan(s, |s| - 1) == ThenAll(Greedy(prefix), Values(xs))
  {
    hide *;
    FlatIs(prefix, xs);
    DotlessIs(Flat(prefix, xs));
    ScanPieces(Flat(prefix, xs));
  }

  lemma DotlessIs(ls: seq<str>)
    requires Dotless(ls)
    ensures Undotted(ls)
  {
  }

  /** The round trip: the addresses written with dots between them are the addresses parsed. */
  lemma ParseJoined(xs: seq<str>)
    requires AllAddresses(xs)
    ensures Scan(JoinDots(xs), |JoinDots(xs)| - 1) == Done(Values(xs))
  {
    hide Scan, JoinDots, AllAddresses;
    AddressesFound([], xs);
    assert [] + xs == xs && [] + Values(xs) == Values(xs);
  }

  /** No label is an eight-group address and no four labels in a row are a quad. */
  predicate NoRun(ls: seq<str>) {
    && (forall k | 0 <= k < |ls| :: Groups(ls[k]).None?)
    && (forall k | 0 <= k <= |ls| - 4 :: !QuadAt(ls, k))
  }

  predicate QuadAt(ls: seq<str>, k: nat)
    requires k + 4 <= |ls|
  {
    Quad(ls[k..k + 4]).Some?
  }

  lemma {:induction false} ReadNoRun(ls: seq<str>)
    requires Dotless(ls) && NoRun(ls) && ls != []
    ensures Read(ls) == Reading([], [ls[0]])
    decreases |ls|
  {
    hide Groups, Quad, Read, QuadAt, Dotless;
    var n := |ls|;
    NoneAtEnd(ls);
    if n > 1 {
      var init := ls[..n - 1];
      DotlessPart(ls, n - 1);
      forall k | 0 <= k <= |init| - 4
        ensures !QuadAt(init, k)
      {
        QuadPart(ls, n - 1, k);
        assert !QuadAt(ls, k);
      }
      ReadNoRun(init);
    }
  }

  lemma QuadPart(ls: seq<str>, n: nat, k: nat)
    requires n <= |ls| && k + 4 <= n
    ensures QuadAt(ls[..n], k) <==> QuadAt(ls, k)
  {
    hide Quad;
    assert ls[..n][k..k + 4] == ls[k..k + 4];
  }

  /** No address ends such labels, so the reading drops the last. */
  lemma NoneAtEnd(ls: seq<str>)
    requires Dotless(ls) && NoRun(ls) && ls != []
    ensures Read(ls) == if |ls| == 1 then Reading([], ls) else Read(ls[..|ls| - 1])
    ensures |ls| == 1 ==> ls == [ls[0]]
  {
    hide Groups, Quad;
    var n := |ls|;
    assert ls[0] in ls && ls[n - 1] in ls;
    if n >= 4 {
      assert !QuadAt(ls, n - 4);
      assert ls[n - 4..] == ls[n - 4..n - 4 + 4];
    }
  }

  lemma GreedyNoRun(ls: seq<str>)
    requires Dotless(ls) && NoRun(ls) && ls != []
    ensures Greedy(ls) == if Trips(ls[0]) then SlicePanic else Done([])
  {
    hide Read, NoRun, Trips;
    assert ls[0] in ls;
    ReadNoRun(ls);
  }

  /** Labels in front that contain no address change nothing, if and only if the first of them does not
      make the scanner slice below the start of the string. */
  lemma PrefixIgnored(prefix: seq<str>, xs: seq<str>)
    requires Dotless(prefix) && NoRun(prefix) && prefix != [] && AllAddresses(xs)
    ensures var s := JoinDots(prefix + xs);
            Scan(s, |s| - 1) == if Trips(prefix[0]) then SlicePanic else Done(Values(xs))
  {
    hide Scan, JoinDots, Dotless, NoRun, AllAddresses, Trips;
    AddressesFound(prefix, xs);
    GreedyNoRun(prefix);
    assert [] + Values(xs) == Values(xs);
  }

  /** The shortest texts that fail: "a" slices below the start, ".a" and ".." are never left. */
  lemma ScanAccidents()
    ensures Scan([97], 0) == SlicePanic
    ensures Scan([DOT, 97], 1) == Diverges && Scan([DOT, DOT], 1) == Diverges
  {
    hide Scan, Groups;
    var a, b, c: str := [97], [DOT, 97], [DOT, DOT];
    assert |a| == 1 && |b| == 2 && |c| == 2;
    ScanIsGreedy(a);
    ScanIsGreedy(b);
    ScanIsGreedy(c);
    FieldsCons(a, DOT, []);
    FieldsCons([], DOT, a);
    FieldsCons([], DOT, [DOT]);
    FieldsCons([], DOT, []);
    assert [] + [DOT] + a == b && [] + [DOT] + [DOT] == c && [] + [DOT] + [] == [DOT];
    assert Fields(a, DOT) == [a] && Fields(b, DOT) == [[], a] && Fields(c, DOT) == [[], [], []];
    EmptyNone();
    ShortGroup(a);
  }

  lemma ShortGroup(s: str)
    requires |s| == 1
    ensures Groups(s).None?
  {
    FieldsFew([], COLON, s);
    assert [] + s == s;
  }
}
