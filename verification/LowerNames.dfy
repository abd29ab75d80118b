/** What lowering the case of a name's text does to its labels. */
module LowerNames {
  import opened Bytes
  import opened Names
  import opened LabelOps
  import opened Records
  import opened UnpackRecords

  /** The labels with their upper-case octets in lower case. */
  function LowerLabels(ls: seq<Label>): (r: seq<Label>)
    ensures |r| == |ls| && forall k | 0 <= k < |ls| :: r[k] == LowerAll(ls[k])
  {
    if ls == [] then [] else [LowerAll(ls[0])] + LowerLabels(ls[1..])
  }

  predicate IsUpperCase(b: byte) { 65 <= b <= 90 }

  /** An upper-case letter of one of the labels is written as a \DDD escape. */
  predicate CodedUpper(s: str) {
    s != [] && s != [BACKSLASH] && CountSeps(s) > 0
    && ((TokLen(s) == 4 && IsUpperCase(FirstTok(s).b)) || CodedUpper(s[TokLen(s)..]))
  }

  lemma LowerRest(s: str, n: nat)
    requires n <= |s|
    ensures LowerAll(s)[n..] == LowerAll(s[n..])
  {
  }

  /** Lower case changes no separator and no length; of the octets it changes letters, unless they are coded. */
  lemma LowerTok(s: str)
    requires s != [] && s != [BACKSLASH]
    ensures var t := LowerAll(s);
            && t != [] && t != [BACKSLASH] && TokLen(t) == TokLen(s)
            && (FirstTok(t) == Sep <==> FirstTok(s) == Sep)
            && (FirstTok(s).Lit? ==> FirstTok(t).b == if TokLen(s) == 4 then FirstTok(s).b else Lower(FirstTok(s).b))
  {
    var t := LowerAll(s);
    assert t[0] == Lower(s[0]);
    if |s| == 1 { assert s == [s[0]]; }
  }

  lemma LowerSnoc(cur: str, b: byte)
    ensures LowerAll(cur + [b]) == LowerAll(cur) + [Lower(b)]
  {
  }

  lemma {:induction false} LowerSeps(s: str)
    ensures CountSeps(LowerAll(s)) == CountSeps(s)
    decreases |s|
  {
    if s == [] {
      assert LowerAll(s) == [];
    } else if s == [BACKSLASH] {
      assert LowerAll(s) == [BACKSLASH];
    } else {
      hide TokLen, FirstTok, LowerAll, CountSeps;
      LowerTok(s);
      SepStep(s);
      SepStep(LowerAll(s));
      LowerRest(s, TokLen(s));
      LowerSeps(s[TokLen(s)..]);
    }
  }

  /** Labels of the same lengths. */
  predicate SameShape(a: seq<Label>, b: seq<Label>) {
    |a| == |b| && forall k | 0 <= k < |a| :: |a[k]| == |b[k]|
  }

  /** A name in lower case has labels of the same lengths; they are the labels in lower case if and only if no
      upper-case letter is coded. */
  lemma {:induction false} ParseLower(cur: Label, cur1: Label, s: str, first: bool)
    requires |cur1| == |cur| && ParseFrom(cur, s, first).Good?
    ensures var p := ParseFrom(cur1, LowerAll(s), first);
            var ls := ParseFrom(cur, s, first).labels;
            && p.Good? && SameShape(p.labels, ls)
            && (p.labels == LowerLabels(ls) <==> (CountSeps(s) > 0 ==> cur1 == LowerAll(cur)) && !CodedUpper(s))
    decreases |s|
  {
    hide TokLen, FirstTok, LowerAll, ParseFrom;
    if s == [] || s == [BACKSLASH] {
      ShortLower(cur, cur1, s, first);
    } else {
      LowerTok(s);
      SepStep(s);
      var n := TokLen(s);
      LowerRest(s, n);
      TokenOf(cur, s, first);
      TokenOf(cur1, LowerAll(s), first);
      if FirstTok(s) == Sep {
        assert n == 1;
        ParseLower([], [], s[1..], false);
        EmptyLower();
        var ls := ParseFrom([], s[1..], false).labels;
        LowerCons(cur, ls);
        var ls1 := ParseFrom([], LowerAll(s[1..]), false).labels;
        ConsIs(cur1, ls1, LowerAll(cur), LowerLabels(ls));
        ShapeCons(cur1, ls1, cur, ls);
      } else {
        var b, b1 := FirstTok(s).b, FirstTok(LowerAll(s)).b;
        ParseLower(cur + [b], cur1 + [b1], s[n..], first);
        LowerSnoc(cur, b);
        SnocIs(cur1, b1, LowerAll(cur), Lower(b));
      }
    }
  }

  lemma ShortLower(cur: Label, cur1: Label, s: str, first: bool)
    requires s == [] || s == [BACKSLASH]
    ensures ParseFrom(cur1, LowerAll(s), first) == Good([]) && ParseFrom(cur, s, first) == Good([])
    ensures CountSeps(s) == 0 && !CodedUpper(s)
  {
    assert LowerAll(s) == s;
  }

  lemma EmptyLower()
    ensures LowerAll([]) == []
  {
  }

  lemma TokenOf(cur: Label, s: str, first: bool)
    requires s != [] && s != [BACKSLASH]
    ensures FirstTok(s).Lit? ==> ParseFrom(cur, s, first) == ParseFrom(cur + [FirstTok(s).b], s[TokLen(s)..], first)
    ensures FirstTok(s) == Sep ==>
              && TokLen(s) == 1
              && ((cur == [] && !first) || |cur| >= 64 ==> ParseFrom(cur, s, first).Bad?)
              && (!((cur == [] && !first) || |cur| >= 64) ==>
                    ParseFrom(cur, s, first) == ParseFrom([], s[1..], false).Prepend([cur]))
  {
  }

  lemma LowerCons(l: Label, ls: seq<Label>)
    ensures LowerLabels([l] + ls) == [LowerAll(l)] + LowerLabels(ls)
  {
    assert ([l] + ls)[1..] == ls;
  }

  lemma ConsIs(a: Label, x: seq<Label>, b: Label, y: seq<Label>)
    ensures [a] + x == [b] + y <==> a == b && x == y
  {
    assert ([a] + x)[0] == a && ([a] + x)[1..] == x && ([b] + y)[0] == b && ([b] + y)[1..] == y;
  }

  lemma SnocIs(a: Label, x: byte, b: Label, y: byte)
    requires |a| == |b|
    ensures a + [x] == b + [y] <==> a == b && x == y
  {
    if a + [x] == b + [y] {
      assert a == (a + [x])[..|a|] && b == (b + [y])[..|a|];
      assert (a + [x])[|a|] == x && (b + [y])[|a|] == y;
    }
  }

  lemma ShapeCons(a: Label, x: seq<Label>, b: Label, y: seq<Label>)
    requires |a| == |b| && SameShape(x, y)
    ensures SameShape([a] + x, [b] + y)
  {
  }

  lemma {:induction false} ShapeLen(a: seq<Label>, b: seq<Label>)
    requires SameShape(a, b)
    ensures LabelsLen(a) == LabelsLen(b) && (ValidLabels(b) ==> ValidLabels(a))
    decreases |a|
  {
    if a != [] {
      ShapeLen(a[1..], b[1..]);
      assert forall l | l in b[1..] :: l in b;
      assert a == [a[0]] + a[1..] && b[0] in b;
    }
  }

  /** A name in lower case still fits. */
  lemma LowerFits(s: str)
    requires FitName(s)
    ensures FitName(LowerAll(s))
    ensures Labels(LowerAll(s)) == LowerLabels(Labels(s)) <==> !CodedUpper(s)
  {
    hide Parse, ParseFrom, CodedUpper, LabelsLen, ValidLabels, LowerLabels, LowerAll, SameShape;
    ParsedLower(s);
    LowerEnds(s);
    if s == ROOT {
      RootLower();
    } else {
      ShapeLen(Labels(LowerAll(s)), Labels(s));
    }
  }

  lemma ParsedLower(s: str)
    requires Parse(s).Good?
    ensures Parse(LowerAll(s)).Good? && SameShape(Parse(LowerAll(s)).labels, Parse(s).labels)
    ensures Parse(LowerAll(s)).labels == LowerLabels(Parse(s).labels) <==> !CodedUpper(s)
  {
    hide ParseFrom, CodedUpper, LowerLabels, LowerAll, SameShape;
    ParseLower([], [], s, true);
    EmptyLower();
  }

  lemma LowerEnds(s: str)
    requires IsFqdn(s)
    ensures IsFqdn(LowerAll(s)) && (LowerAll(s) == ROOT <==> s == ROOT)
  {
    var t := LowerAll(s);
    assert t[|t| - 1] == Lower(s[|s| - 1]);
    if t == ROOT { assert s == [s[0]]; }
    if s == ROOT { assert t == [t[0]]; }
  }

  lemma RootLower()
    ensures LowerLabels([]) == [] && !CodedUpper(ROOT)
  {
    assert ROOT[1..] == [];
    assert !CodedUpper([]);
  }

  // ---------- Printed names ----------

  lemma EscapeLower(b: byte)
    ensures LowerAll(Escape(b)) == Escape(Lower(b))
  {
    var e := Escape(b);
    if !IsSpecial(b) && !IsPrintable(b) {
      assert Lower(b) == b;
      assert b / 100 <= 2 && b / 10 % 10 <= 9 && b % 10 <= 9;
    }
  }

  lemma LowerCat(a: str, b: str)
    ensures LowerAll(a + b) == LowerAll(a) + LowerAll(b)
  {
  }

  lemma {:induction false} EscapeAllLower(l: Label)
    ensures LowerAll(EscapeAll(l)) == EscapeAll(LowerAll(l))
    decreases |l|
  {
    if l == [] {
      EmptyLower();
    } else {
      hide Escape, LowerAll;
      EscapeLower(l[0]);
      LowerCat(Escape(l[0]), EscapeAll(l[1..]));
      EscapeAllLower(l[1..]);
      LowerFirst(l);
    }
  }

  lemma LowerFirst(l: Label)
    requires l != []
    ensures LowerAll(l) != [] && LowerAll(l)[0] == Lower(l[0]) && LowerAll(l)[1..] == LowerAll(l[1..])
  {
  }

  /** Lower case and printing commute: what is printed codes no letters. */
  lemma {:induction false} PresentLower(ls: seq<Label>)
    ensures LowerAll(Present(ls)) == Present(LowerLabels(ls))
    decreases |ls|
  {
    if ls == [] {
      EmptyLower();
    } else {
      hide EscapeAll, LowerAll;
      EscapeAllLower(ls[0]);
      LowerCat(EscapeAll(ls[0]) + [DOT], Present(ls[1..]));
      LowerCat(EscapeAll(ls[0]), [DOT]);
      PresentLower(ls[1..]);
      DotLower();
      assert LowerLabels(ls)[1..] == LowerLabels(ls[1..]);
    }
  }

  lemma DotLower()
    ensures LowerAll([DOT]) == [DOT]
  {
  }

  /** The printed name in lower case stands for the labels in lower case. */
  lemma PrintedLower(s: str)
    requires FitName(s)
    ensures FitName(Printed(s)) && FitName(LowerAll(Printed(s)))
    ensures Labels(LowerAll(Printed(s))) == LowerLabels(Labels(s))
  {
    hide ParseFrom, LowerLabels, LabelsLen, LowerAll, Present;
    var ls := Labels(s);
    NameStringLabels(ls);
    LowerFits(Printed(s));
    LowerValid(ls);
    NameStringLabels(LowerLabels(ls));
    PresentLower(ls);
    DotLower();
    RootLower();
  }

  lemma LowerValid(ls: seq<Label>)
    requires ValidLabels(ls)
    ensures ValidLabels(LowerLabels(ls))
  {
    hide LowerAll;
    var r := LowerLabels(ls);
    forall l | l in r
      ensures 1 <= |l| <= 63
    {
      var k :| 0 <= k < |r| && r[k] == l;
      assert ls[k] in ls;
    }
  }

  /** A letter that is coded is lost to lower case: \065. and A. are the same name, but in lower case \065. stays
      the label A, and A. becomes a. */
  lemma CodedLetter()
    ensures var s: str := [BACKSLASH, 48, 54, 53, DOT];
            && Parse(s) == Good([[65]]) && LowerAll(s) == s && CodedUpper(s)
            && Printed(s) == [65, DOT] && LowerAll(Printed(s)) == [97, DOT]
  {
    var s: str := [BACKSLASH, 48, 54, 53, DOT];
    var d: str := [DOT];
    assert s[4..] == d && d[1..] == [] && [] + [65] == [65];
    assert ParseFrom([], [], false) == Good([]);
    assert ParseFrom([65], d, true) == Good([[65]]);
    assert ParseFrom([], s, true) == ParseFrom([65], d, true);
    assert CountSeps(d) == 1 + CountSeps([]);
    assert EscapeAll([65]) == Escape(65) + EscapeAll([]);
    assert Present([[65]]) == EscapeAll([65]) + [DOT] + Present([]);
  }
}
