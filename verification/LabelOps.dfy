/** labels.go: splitting, counting and comparing names by their presentation form, without unescaping. */
module LabelOps {
  import opened Bytes
  import opened Names
  import opened PackNames

  // ---------- Specification ----------

  /** The start of the label after the first separating dot at or after i. The last character never
      separates; quote says that the character at i is escaped. */
  function NextStart(s: str, i: nat, quote: bool): (r: Option<nat>)
    ensures r.Some? ==> i < r.value < |s| && s[r.value - 1] == DOT
    decreases |s| - i
  {
    if i + 1 >= |s| then None
    else if s[i] == BACKSLASH then NextStart(s, i + 1, !quote)
    else if s[i] == DOT && !quote then Some(i + 1)
    else NextStart(s, i + 1, false)
  }

  /** The starts of all labels after the one at off. */
  function Starts(s: str, off: nat): (r: seq<nat>)
    ensures forall k | 0 <= k < |r| :: off < r[k] < |s|
    ensures forall j, k | 0 <= j < k < |r| :: r[j] < r[k]
    decreases |s| - off
  {
    match NextStart(s, off, false)
    case None => []
    case Some(k) => [k] + Starts(s, k)
  }

  /** The pieces of s[off..], each label with the dot that ends it. */
  function Pieces(s: str, off: nat): (r: seq<str>)
    requires off <= |s|
    ensures |r| == |Starts(s, off)| + 1
    decreases |s| - off
  {
    match NextStart(s, off, false)
    case None => [s[off..]]
    case Some(k) => [s[off..k]] + Pieces(s, k)
  }

  function Concat(ps: seq<str>): str {
    if ps == [] then [] else ps[0] + Concat(ps[1..])
  }

  // ---------- The operations ----------

  method NextLabel(s: str, offset: nat) returns (i: nat, end: bool)
    ensures end <==> NextStart(s, offset, false).None?
    ensures !end ==> i == NextStart(s, offset, false).value
    ensures end ==> i == if offset + 1 >= |s| then offset + 1 else |s|
  {
    var quote := false;
    i := offset;
    while i + 1 < |s|
      invariant offset <= i && (i + 1 > |s| ==> i == offset)
      invariant NextStart(s, i, quote) == NextStart(s, offset, false)
      decreases |s| - i
    {
      if s[i] == BACKSLASH {
        quote := !quote;
      } else if s[i] == DOT {
        if quote {
          quote := !quote;
        } else {
          return i + 1, false;
        }
      } else {
        quote := false;
      }
      i := i + 1;
    }
    return i + 1, true;
  }

  /** nil for the root. */
  method Split(s: str) returns (idx: Option<seq<nat>>)
    ensures idx == if s == ROOT then None else Some([0] + Starts(s, 0))
  {
    if s == ROOT {
      return None;
    }
    var starts, off, end := [0], 0, false;
    while true
      invariant starts + Starts(s, off) == [0] + Starts(s, 0)
      decreases |s| - off
    {
      ghost var off0 := off;
      off, end := NextLabel(s, off);
      if end {
        assert starts + [] == starts;
        return Some(starts);
      }
      assert starts + ([off] + Starts(s, off)) == starts + [off] + Starts(s, off);
      starts := starts + [off];
    }
  }

  method CountLabel(s: str) returns (labels: nat)
    ensures labels == if s == ROOT then 0 else 1 + |Starts(s, 0)|
  {
    if s == ROOT {
      return 0;
    }
    labels := 0;
    var off, end := 0, false;
    while true
      invariant labels + |Starts(s, off)| == |Starts(s, 0)|
      decreases |s| - off
    {
      off, end := NextLabel(s, off);
      labels := labels + 1;
      if end {
        return;
      }
    }
  }

  method SplitDomainName(s: str) returns (labels: seq<str>)
    ensures s == [] || s == ROOT ==> labels == []
    ensures s != [] && s != ROOT ==> |labels| == 1 + |Starts(s, 0)|
    ensures s != [] && s != ROOT ==> JoinDots(labels) == if IsFqdn(s) then s[..|s| - 1] else s
  {
    hide JoinDots, Starts;
    if s == [] {
      return [];
    }
    var idx := Split(s);
    var fqdnEnd := if s[|s| - 1] == DOT then |s| - 1 else |s|;
    if idx == None {
      return [];
    }
    labels := [];
    var begin: nat := 0;
    var starts := idx.value;
    for i := 1 to |starts|
      invariant |labels| == i - 1 && begin == starts[i - 1] <= fqdnEnd
      invariant Joined(s, begin, labels)
    {
      var end := starts[i];
      StartsAfterDot(s, 0, i - 1);
      JoinedStep(s, begin, end, labels);
      labels := labels + [s[begin..end - 1]];
      begin := end;
    }
    JoinedEnd(s, begin, fqdnEnd, labels);
    labels := labels + [s[begin..fqdnEnd]];
  }

  /** labels are what stands before begin, the start of a label. */
  ghost predicate Joined(s: str, begin: nat, labels: seq<str>) {
    begin <= |s| && if labels == [] then begin == 0 else s[..begin] == JoinDots(labels) + [DOT]
  }

  lemma JoinedStep(s: str, begin: nat, end: nat, labels: seq<str>)
    requires Joined(s, begin, labels) && begin < end <= |s| && s[end - 1] == DOT
    ensures Joined(s, end, labels + [s[begin..end - 1]])
  {
    JoinedEnd(s, begin, end - 1, labels);
    assert s[..end] == s[..end - 1] + [DOT];
  }

  lemma JoinedEnd(s: str, begin: nat, end: nat, labels: seq<str>)
    requires Joined(s, begin, labels) && begin <= end <= |s|
    ensures JoinDots(labels + [s[begin..end]]) == s[..end]
  {
    JoinDotsSnoc(labels, s[begin..end]);
    assert s[..end] == s[..begin] + s[begin..end];
  }

  /** strings.Join(labels, ".") */
  function JoinDots(labels: seq<str>): str {
    if labels == [] then []
    else if |labels| == 1 then labels[0]
    else labels[0] + [DOT] + JoinDots(labels[1..])
  }

  lemma JoinDotsSnoc(labels: seq<str>, l: str)
    ensures JoinDots(labels + [l]) == if labels == [] then l else JoinDots(labels) + [DOT] + l
  {
    if |labels| == 1 {
      assert (labels + [l])[1..] == [l];
    } else if |labels| > 1 {
      assert (labels + [l])[1..] == labels[1..] + [l];
      JoinDotsSnoc(labels[1..], l);
    }
  }

  lemma StartsAfterDot(s: str, off: nat, k: nat)
    requires k < |Starts(s, off)|
    ensures s[Starts(s, off)[k] - 1] == DOT
    ensures k > 0 ==> Starts(s, off)[k] - 1 >= Starts(s, off)[k - 1]
    decreases |s| - off
  {
    if k > 0 {
      StartsAfterDot(s, NextStart(s, off, false).value, k - 1);
    }
  }

  // ---------- Agreement with packDomainName ----------

  /** One token further, NextLabel's quote flag is down again. */
  lemma NextStartToken(s: str, i: nat)
    requires i < |s| && s[i..] != [BACKSLASH] && FirstTok(s[i..]).Lit?
    ensures NextStart(s, i, false) == NextStart(s, i + TokLen(s[i..]), false)
            || (NextStart(s, i, false).None? && i + TokLen(s[i..]) >= |s|)
  {
    var t := s[i..];
    assert t[0] == s[i];
    if s[i] == BACKSLASH {
      assert t[1] == s[i + 1];
      if DddAt(t, 1) {
        assert t[2] == s[i + 2] && t[3] == s[i + 3];
        assert NextStart(s, i, false) == NextStart(s, i + 1, true) == NextStart(s, i + 2, false);
        assert i + 4 <= |s|;
        if i + 4 < |s| {
          assert NextStart(s, i + 2, false) == NextStart(s, i + 3, false) == NextStart(s, i + 4, false);
        }
      }
    }
  }

  /** Where the next label begins, one token further. */
  lemma StartsStep(s: str, i: nat)
    requires i < |s| && s[i..] != [BACKSLASH] && i + TokLen(s[i..]) < |s|
    ensures var n := TokLen(s[i..]);
            Starts(s, i) == if FirstTok(s[i..]) == Sep then [i + n] + Starts(s, i + n) else Starts(s, i + n)
  {
    var t := s[i..];
    assert t[0] == s[i];
    if FirstTok(t) == Sep {
      assert NextStart(s, i, false) == Some(i + 1);
    } else {
      NextStartToken(s, i);
    }
  }

  /** In a name that ends in a dot the two readings count the same labels, unless that dot is escaped: then
      the reading without unescaping counts one more. */
  lemma {:induction false} StartsCount(s: str, i: nat)
    requires i < |s| && s[|s| - 1] == DOT
    ensures 1 + |Starts(s, i)| == CountSeps(s[i..]) + if EndsInSep(s[i..]) then 0 else 1
    decreases |s| - i
  {
    hide *;
    var t := s[i..];
    assert t[|t| - 1] == s[|s| - 1];
    NotLone(t);
    SepStep(t);
    var n := TokLen(t);
    assert t[n..] == s[i + n..];
    if n == |t| {
      LastToken(s, i);
    } else {
      StartsStep(s, i);
      StartsCount(s, i + n);
    }
  }

  lemma NotLone(t: str)
    requires t != [] && t[|t| - 1] == DOT
    ensures t != [BACKSLASH]
  {
  }

  lemma LastToken(s: str, i: nat)
    requires i < |s| && s[|s| - 1] == DOT && TokLen(s[i..]) == |s| - i
    ensures Starts(s, i) == []
  {
    var t := s[i..];
    assert t[|t| - 1] == DOT;
    if t[0] == BACKSLASH {
      assert s[i] == BACKSLASH;
      assert |t| == 2;
      assert NextStart(s, i, false) == NextStart(s, i + 1, true) == None;
    } else {
      assert NextStart(s, i, false) == None;
    }
  }

  /** Both parsers agree, escapes or not, exactly when the last dot of the name separates: the number of
      labels packDomainName reports is the number that CountLabel, Split and SplitDomainName find. */
  lemma LabelCountsAgree(s: str)
    requires IsFqdn(s) && s != ROOT && Parse(s).Good?
    ensures |Parse(s).labels| == 1 + |Starts(s, 0)| <==> EndsInSep(s)
  {
    assert s[0..] == s;
    ParseCounts([], s, true);
    StartsCount(s, 0);
  }

  method IsDomainName(s: str) returns (labels: nat, ok: bool)
    ensures s == [] ==> labels == 0 && ok
    ensures s != [] && ok ==> Parse(Fqdn(s)).Good? && labels == |Parse(Fqdn(s)).labels|
    ensures s != [] && ok && s != ROOT ==> (labels == 1 + |Starts(Fqdn(s), 0)| <==> EndsInSep(Fqdn(s)))
    ensures ValidName(s) && LabelsLen(Labels(s)) < 256 ==> ok
  {
    hide Parse, Starts, EndsInSep, ValidName, LabelsLen;
    var off, err;
    off, labels, err := PackNames.PackDomainName(s, null, 0, null, false);
    ok := err == NoError;
    if s != [] && ok && s != ROOT { LabelCountsAgree(Fqdn(s)); }
  }

  // ---------- Comparing names from the right ----------

  function Lower(b: byte): byte { if 65 <= b <= 90 then b + 32 else b }

  /** strings.ToLower, on ASCII letters. */
  function LowerAll(s: str): (r: str)
    ensures |r| == |s| && forall k | 0 <= k < |s| :: r[k] == Lower(s[k])
  {
    seq(|s|, k requires 0 <= k < |s| => Lower(s[k]))
  }

  /** The labels of a name as CompareDomainName sees them: lower-cased, dots included, none for the root. */
  function LowerPieces(s: str): seq<str> {
    var f := Fqdn(LowerAll(s));
    if f == ROOT then [] else Pieces(f, 0)
  }

  /** The length of the longest common suffix. */
  function Common(a: seq<str>, b: seq<str>): nat {
    if a == [] || b == [] || a[|a| - 1] != b[|b| - 1] then 0
    else 1 + Common(a[..|a| - 1], b[..|b| - 1])
  }

  /** The t-th piece from the right. */
  function FromEnd(a: seq<str>, t: nat): str
    requires 1 <= t <= |a|
  {
    a[|a| - t]
  }

  /** The last k pieces are the same. */
  predicate SameEnd(a: seq<str>, b: seq<str>, k: nat) {
    k <= |a| && k <= |b| && forall t: nat | 1 <= t <= k :: FromEnd(a, t) == FromEnd(b, t)
  }

  predicate IsSuffix(a: seq<str>, b: seq<str>) {
    SameEnd(a, b, |a|)
  }

  /** Common is the largest number of pieces the two lists share at their ends. */
  lemma {:induction false} CommonLongest(a: seq<str>, b: seq<str>, k: nat)
    ensures SameEnd(a, b, k) <==> k <= Common(a, b)
    decreases |a|
  {
    if a != [] && b != [] && k > 0 {
      var a1, b1 := a[..|a| - 1], b[..|b| - 1];
      CommonLongest(a1, b1, k - 1);
      if SameEnd(a, b, k) {
        assert FromEnd(a, 1) == FromEnd(b, 1);
        forall t: nat | 1 <= t <= k - 1
          ensures FromEnd(a1, t) == FromEnd(b1, t)
        {
          assert FromEnd(a, t + 1) == FromEnd(b, t + 1);
        }
      } else if a[|a| - 1] == b[|b| - 1] && SameEnd(a1, b1, k - 1) {
        forall t: nat | 1 <= t <= k
          ensures FromEnd(a, t) == FromEnd(b, t)
        {
          if t > 1 {
            assert FromEnd(a1, t - 1) == FromEnd(b1, t - 1);
          }
        }
      }
    }
  }

  /** Where piece k of s[off..] starts. */
  function StartAt(s: str, off: nat, k: nat): (r: nat)
    requires off <= |s| && k <= |Starts(s, off)| + 1
    ensures r <= |s|
  {
    if k == 0 then off else if k <= |Starts(s, off)| then Starts(s, off)[k - 1] else |s|
  }

  lemma {:induction false} PieceAt(s: str, off: nat, k: nat)
    requires off <= |s| && k <= |Starts(s, off)|
    ensures StartAt(s, off, k) <= StartAt(s, off, k + 1)
    ensures Pieces(s, off)[k] == s[StartAt(s, off, k)..StartAt(s, off, k + 1)]
    decreases |s| - off
  {
    match NextStart(s, off, false)
    case None =>
      assert Starts(s, off) == [];
      assert s[off..] == s[off..|s|];
    case Some(j) =>
      StartsMore(s, off, k);
      if k > 0 {
        hide Starts, StartAt;
        PieceAt(s, j, k - 1);
      }
  }

  lemma StartsMore(s: str, off: nat, k: nat)
    requires off <= |s| && k <= |Starts(s, off)| && NextStart(s, off, false).Some?
    ensures var j := NextStart(s, off, false).value;
            && |Starts(s, off)| == |Starts(s, j)| + 1
            && StartAt(s, off, 0) == off && StartAt(s, off, 1) == j
            && (k > 0 ==> StartAt(s, off, k) == StartAt(s, j, k - 1) && StartAt(s, off, k + 1) == StartAt(s, j, k))
  {
    var j := NextStart(s, off, false).value;
    assert Starts(s, off) == [j] + Starts(s, j);
  }

  method CompareDomainName(s1: str, s2: str) returns (n: nat)
    ensures n == Common(LowerPieces(s1), LowerPieces(s2))
  {
    hide Pieces, Starts, Common;
    var f1, f2 := Fqdn(LowerAll(s1)), Fqdn(LowerAll(s2));
    var l1 := Split(f1);
    var l2 := Split(f2);
    ghost var p1, p2 := LowerPieces(s1), LowerPieces(s2);
    n := 0;
    if l1 == None || l2 == None {
      CommonNone(p1, p2);
      return;
    }
    var x1, x2 := l1.value, l2.value;
    var j1, i1: int := |x1| - 1, |x1| - 2;
    var j2, i2: int := |x2| - 1, |x2| - 2;
    PieceIs(f1, x1, j1);
    PieceIs(f2, x2, j2);
    assert p1[..|p1|] == p1 && p2[..|p2|] == p2;
    CommonStep(p1, p2, |p1|, |p2|);
    if f1[x1[j1]..] == f2[x2[j2]..] {
      n := n + 1;
    } else {
      return;
    }
    while true
      invariant -1 <= i1 == j1 - 1 && -1 <= i2 == j2 - 1 && j1 < |x1| && j2 < |x2|
      invariant Common(p1, p2) == n + Common(p1[..j1], p2[..j2])
      decreases i1
    {
      if i1 < 0 || i2 < 0 {
        CommonNone(p1[..j1], p2[..j2]);
        break;
      }
      PieceIs(f1, x1, i1);
      PieceIs(f2, x2, i2);
      CommonStep(p1, p2, j1, j2);
      if f1[x1[i1]..x1[j1]] == f2[x2[i2]..x2[j2]] {
        n := n + 1;
      } else {
        break;
      }
      j1, i1, j2, i2 := j1 - 1, i1 - 1, j2 - 1, i2 - 1;
    }
  }

  lemma PieceIs(s: str, x: seq<nat>, k: nat)
    requires x == [0] + Starts(s, 0) && k < |x|
    ensures |Pieces(s, 0)| == |x|
    ensures x[k] <= |s|
    ensures k + 1 == |x| ==> Pieces(s, 0)[k] == s[x[k]..]
    ensures k + 1 < |x| ==> x[k] <= x[k + 1] <= |s| && Pieces(s, 0)[k] == s[x[k]..x[k + 1]]
  {
    hide Starts, Pieces;
    PieceAt(s, 0, k);
  }

  lemma CommonNone(a: seq<str>, b: seq<str>)
    ensures a == [] || b == [] ==> Common(a, b) == 0
  {
  }

  lemma CommonStep(a: seq<str>, b: seq<str>, i: nat, j: nat)
    requires 0 < i <= |a| && 0 < j <= |b|
    ensures Common(a[..i], b[..j]) == if a[i - 1] == b[j - 1] then 1 + Common(a[..i - 1], b[..j - 1]) else 0
  {
    assert a[..i][..i - 1] == a[..i - 1] && b[..j][..j - 1] == b[..j - 1];
  }

  method IsSubDomain(parent: str, child: str) returns (b: bool)
    ensures b == (parent != [] && IsSuffix(LowerPieces(parent), LowerPieces(child)))
  {
    var n := CompareDomainName(parent, child);
    var c := CountLabel(parent);
    if parent != [] {
      PieceCount(parent);
      SubDomainIsSuffix(LowerPieces(parent), LowerPieces(child));
    } else {
      NoPieces(child);
    }
    return n == c;
  }

  /** The empty name counts as one label, but has none in common with any name. */
  lemma NoPieces(child: str)
    ensures Common(LowerPieces([]), LowerPieces(child)) == 0
  {
    assert LowerAll([]) == [];
  }

  lemma SubDomainIsSuffix(a: seq<str>, b: seq<str>)
    ensures Common(a, b) == |a| <==> IsSuffix(a, b)
  {
    CommonLongest(a, b, |a|);
    CommonLongest(a, b, Common(a, b));
  }

  /** Lower-casing and closing a name with a dot do not change where its labels start. */
  lemma {:induction false} NextStartLower(s: str, i: nat, quote: bool)
    ensures NextStart(LowerAll(s), i, quote) == NextStart(s, i, quote)
    decreases |s| - i
  {
    if i + 1 < |s| {
      NextStartLower(s, i + 1, !quote);
      NextStartLower(s, i + 1, false);
    }
  }

  lemma {:induction false} NextStartFqdn(s: str, i: nat, quote: bool)
    requires s != [] && s[|s| - 1] != DOT
    ensures NextStart(s + [DOT], i, quote) == NextStart(s, i, quote)
    decreases |s| - i
  {
    if i < |s| {
      NextStartFqdn(s, i + 1, !quote);
      NextStartFqdn(s, i + 1, false);
    }
  }

  lemma {:induction false} StartsSame(s: str, t: str, off: nat)
    requires forall i: nat :: NextStart(s, i, false) == NextStart(t, i, false)
    ensures Starts(s, off) == Starts(t, off)
    decreases |s| - off
  {
    match NextStart(s, off, false)
    case None => assert NextStart(t, off, false) == None;
    case Some(k) => StartsSame(s, t, k);
  }

  lemma PieceCount(s: str)
    requires s != []
    ensures |LowerPieces(s)| == if s == ROOT then 0 else 1 + |Starts(s, 0)|
  {
    var l := LowerAll(s);
    forall i: nat ensures NextStart(s, i, false) == NextStart(l, i, false) { NextStartLower(s, i, false); }
    StartsSame(s, l, 0);
    if !IsFqdn(l) {
      forall i: nat ensures NextStart(l, i, false) == NextStart(l + [DOT], i, false) { NextStartFqdn(l, i, false); }
      StartsSame(l, l + [DOT], 0);
    }
    assert s == ROOT <==> Fqdn(l) == ROOT;
  }

  /** Being a subdomain is a preorder with the root above every name. */
  lemma SuffixPreorder(a: str, b: str, c: str)
    ensures IsSuffix(LowerPieces(a), LowerPieces(a))
    ensures IsSuffix(LowerPieces(a), LowerPieces(b)) && IsSuffix(LowerPieces(b), LowerPieces(c)) ==>
              IsSuffix(LowerPieces(a), LowerPieces(c))
    ensures IsSuffix(LowerPieces(ROOT), LowerPieces(a))
  {
    hide *;
    RootPieces();
    SuffixTrans(LowerPieces(a), LowerPieces(b), LowerPieces(c));
  }

  lemma RootPieces()
    ensures LowerPieces(ROOT) == []
  {
    assert LowerAll(ROOT) == ROOT;
  }

  lemma SuffixTrans(x: seq<str>, y: seq<str>, z: seq<str>)
    ensures IsSuffix(x, x) && IsSuffix([], x) && IsSuffix([], y)
    ensures IsSuffix(x, y) && IsSuffix(y, z) ==> IsSuffix(x, z)
  {
  }
}
