/** ServeMux (server.go): which handler answers a question. */
module Mux {
  import opened Bytes
  import opened Names
  import opened LabelOps

  const TYPE_DS: uint16 := 43

  /** A handler, known by number. */
  type Handler = nat

  // ---------- Specification ----------

  /** The first place from off on, at the start of a label, from which the lower-cased name is a pattern. */
  function FirstHit(z: map<str, Handler>, q: str, off: nat): Option<nat>
    requires off <= |q|
    decreases |q| - off
  {
    if LowerAll(q)[off..] in z then Some(off)
    else
      match NextStart(q, off, false)
      case None => None
      case Some(k) => FirstHit(z, q, k)
  }

  function LastHit(z: map<str, Handler>, q: str, off: nat): Option<nat>
    requires off <= |q|
    decreases |q| - off
  {
    var further := match NextStart(q, off, false) case None => None case Some(k) => LastHit(z, q, k);
    if further.Some? then further else if LowerAll(q)[off..] in z then Some(off) else None
  }

  function At(z: map<str, Handler>, q: str, hit: Option<nat>): Option<Handler> {
    match hit
    case None => None
    case Some(off) => if off <= |q| && LowerAll(q)[off..] in z then Some(z[LowerAll(q)[off..]]) else None
  }

  function Dispatch(z: map<str, Handler>, q: str, t: uint16): Option<Handler> {
    var first := At(z, q, FirstHit(z, q, 0));
    if t != TYPE_DS && first.Some? then first
    else if ROOT in z then Some(z[ROOT])
    else if t == TYPE_DS then At(z, q, LastHit(z, q, 0))
    else None
  }

  // ---------- ServeMux ----------

  class ServeMux {
    var z: map<str, Handler>

    constructor ()
      ensures z == map[]
    {
      z := map[];
    }

    /** Handle; an empty pattern panics. */
    method Handle(pattern: str, handler: Handler) returns (panics: bool)
      modifies this
      ensures panics <==> pattern == []
      ensures z == if panics then old(z) else old(z)[Fqdn(pattern) := handler]
    {
      if pattern == [] {
        return true;
      }
      z := z[Fqdn(pattern) := handler];
      return false;
    }

    method HandleRemove(pattern: str) returns (panics: bool)
      modifies this
      ensures panics <==> pattern == []
      ensures z == if panics then old(z) else old(z) - {Fqdn(pattern)}
    {
      if pattern == [] {
        return true;
      }
      z := z - {Fqdn(pattern)};
      return false;
    }

    method Match(q: str, t: uint16) returns (handler: Option<Handler>)
      ensures handler == Dispatch(z, q, t)
    {
      hide LowerAll, NextStart;
      handler := None;
      var b := new byte[|q|](_ => 0);
      var off, end := 0, false;
      ghost var best: Option<nat> := None;
      while !end
        invariant off <= |q|
        invariant handler == At(z, q, best) && (t != TYPE_DS ==> best == None)
        invariant end ==> t != TYPE_DS ==> FirstHit(z, q, 0) == None
        invariant end ==> t == TYPE_DS ==> LastHit(z, q, 0) == best
        invariant !end ==> t != TYPE_DS ==> FirstHit(z, q, 0) == FirstHit(z, q, off)
        invariant !end ==> t == TYPE_DS ==>
                    LastHit(z, q, 0) == (if LastHit(z, q, off).Some? then LastHit(z, q, off) else best)
        decreases !end, |q| - off
      {
        var l := |q| - off;
        LowerInto(q, off, b);
        if b[..l] in z {
          if t != TYPE_DS {
            return Some(z[b[..l]]);
          }
          handler := Some(z[b[..l]]);
          best := Some(off);
        }
        var next;
        next, end := NextLabel(q, off);
        if !end {
          off := next;
        }
      }
      if ROOT in z {
        return Some(z[ROOT]);
      }
    }
  }

  /** The lower-cased rest of the name, at the front of the buffer. */
  method LowerInto(q: str, off: nat, b: array<byte>)
    requires off <= |q| == b.Length
    modifies b
    ensures b[..|q| - off] == LowerAll(q)[off..]
  {
    for i := 0 to |q| - off
      invariant b[..i] == LowerAll(q)[off..off + i]
    {
      b[i] := q[off + i];
      if 65 <= b[i] <= 90 {
        b[i] := b[i] + 32;
      }
      assert b[i] == LowerAll(q)[off + i];
    }
  }

  // ---------- The most specific zone ----------

  lemma {:induction false} FirstHitIs(z: map<str, Handler>, q: str, off: nat)
    requires off <= |q|
    ensures var r := FirstHit(z, q, off);
            && (r.Some? ==> off <= r.value <= |q| && r.value in [off] + Starts(q, off) && LowerAll(q)[r.value..] in z)
            && forall k | k in [off] + Starts(q, off) && (r.None? || k < r.value) :: k <= |q| && LowerAll(q)[k..] !in z
    decreases |q| - off
  {
    hide LowerAll;
    if LowerAll(q)[off..] !in z {
      match NextStart(q, off, false)
      case None =>
      case Some(n) =>
        FirstHitIs(z, q, n);
        assert Starts(q, off) == [n] + Starts(q, n);
    }
  }

  // Pieces of a suffix are the pieces of the name from there on.

  lemma NextStartStep(s: str, i: nat, quote: bool)
    ensures NextStart(s, i, quote)
            == if i + 1 >= |s| then None
               else if s[i] == BACKSLASH then NextStart(s, i + 1, !quote)
               else if s[i] == DOT && !quote then Some(i + 1)
               else NextStart(s, i + 1, false)
  {
  }

  lemma {:induction false} NextStartShift(s: str, off: nat, i: nat, quote: bool)
    requires off <= |s|
    ensures NextStart(s[off..], i, quote)
            == match NextStart(s, off + i, quote)
               case None => None
               case Some(k) => if k >= off then Some(k - off) else None
    decreases |s| - off - i
  {
    hide *;
    NextStartStep(s, off + i, quote);
    NextStartStep(s[off..], i, quote);
    if off + i + 1 < |s| {
      assert s[off..][i] == s[off + i];
      NextStartShift(s, off, i + 1, !quote);
      NextStartShift(s, off, i + 1, false);
    }
  }

  lemma PiecesStep(s: str, off: nat)
    requires off <= |s|
    ensures NextStart(s, off, false).None? ==> Pieces(s, off) == [s[off..]]
    ensures NextStart(s, off, false).Some? ==>
              var k := NextStart(s, off, false).value;
              off < k <= |s| && Pieces(s, off) == [s[off..k]] + Pieces(s, k)
  {
    hide NextStart;
  }

  lemma SliceShift(s: str, off: nat, i: nat, k: nat)
    requires off + i <= k <= |s|
    ensures s[off..][i..k - off] == s[off + i..k] && s[off..][i..] == s[off + i..]
  {
  }

  lemma {:induction false} PiecesShift(s: str, off: nat, i: nat)
    requires off + i <= |s|
    ensures Pieces(s[off..], i) == Pieces(s, off + i)
    decreases |s| - off - i
  {
    hide *;
    NextStartShift(s, off, i, false);
    PiecesStep(s, off + i);
    PiecesStep(s[off..], i);
    match NextStart(s, off + i, false)
    case None =>
      SliceShift(s, off, i, |s|);
    case Some(k) =>
      SliceShift(s, off, i, k);
      PiecesShift(s, off, k - off);
  }

  lemma {:induction false} PiecesConcat(s: str, off: nat)
    requires off <= |s|
    ensures Concat(Pieces(s, off)) == s[off..]
    decreases |s| - off
  {
    hide NextStart;
    match NextStart(s, off, false)
    case None =>
      assert Concat([s[off..]]) == s[off..] + Concat([]);
    case Some(k) =>
      PiecesConcat(s, k);
      var rest := Pieces(s, k);
      assert ([s[off..k]] + rest)[1..] == rest;
      assert s[off..] == s[off..k] + s[k..];
  }

  /** The pieces from the k-th on, and where they begin. */
  lemma {:induction false} PiecesFrom(s: str, off: nat, k: nat)
    requires off <= |s| && k <= |Starts(s, off)|
    ensures var at := ([off] + Starts(s, off))[k];
            at <= |s| && Pieces(s, at) == Pieces(s, off)[k..]
    decreases |s| - off
  {
    hide NextStart;
    if k > 0 {
      var n := NextStart(s, off, false).value;
      assert Starts(s, off) == [n] + Starts(s, n);
      PiecesFrom(s, n, k - 1);
      assert ([off] + Starts(s, off))[k] == ([n] + Starts(s, n))[k - 1];
      assert Pieces(s, off)[k..] == Pieces(s, n)[k - 1..];
    } else {
      assert Pieces(s, off)[0..] == Pieces(s, off);
    }
  }

  lemma SameEndSlice(a: seq<str>, b: seq<str>)
    ensures IsSuffix(a, b) <==> |a| <= |b| && b[|b| - |a|..] == a
  {
    if |a| <= |b| {
      var t := b[|b| - |a|..];
      if IsSuffix(a, b) {
        forall k | 0 <= k < |a|
          ensures t[k] == a[k]
        {
          assert FromEnd(a, |a| - k) == FromEnd(b, |a| - k);
        }
      } else if t == a {
        forall n: nat | 1 <= n <= |a|
          ensures FromEnd(a, n) == FromEnd(b, n)
        {
          assert t[|a| - n] == a[|a| - n];
        }
      }
    }
  }

  /** A name in lower case with a dot at its end, and not the root. */
  predicate Pattern(p: str) {
    IsFqdn(p) && p != ROOT && LowerAll(p) == p
  }

  lemma PatternPieces(p: str)
    requires Pattern(p)
    ensures LowerPieces(p) == Pieces(p, 0)
  {
  }

  /** Where the labels of p begin, when they are the last labels of q. */
  lemma SuffixWhere(p: str, q: str)
    requires IsSuffix(Pieces(p, 0), Pieces(q, 0))
    ensures exists k | 0 <= k < |[0] + Starts(q, 0)| :: StartsHere(p, q, k)
  {
    hide Pieces, Starts, IsSuffix, Concat;
    var a, b := Pieces(p, 0), Pieces(q, 0);
    SameEndSlice(a, b);
    PiecesConcat(p, 0);
    PiecesSome(p);
    assert p[0..] == p;
    var k := |b| - |a|;
    PiecesFrom(q, 0, k);
    PiecesConcat(q, ([0] + Starts(q, 0))[k]);
    assert StartsHere(p, q, k);
  }

  /** From its k-th label on, q is p. */
  predicate StartsHere(p: str, q: str, k: nat)
    requires k < |[0] + Starts(q, 0)|
  {
    var off := ([0] + Starts(q, 0))[k];
    off <= |q| && q[off..] == p
  }

  lemma WhereSuffix(p: str, q: str, k: nat)
    requires k < |[0] + Starts(q, 0)| && StartsHere(p, q, k)
    ensures IsSuffix(Pieces(p, 0), Pieces(q, 0))
  {
    hide Pieces, Starts, IsSuffix, Concat;
    var a, b := Pieces(p, 0), Pieces(q, 0);
    var off := ([0] + Starts(q, 0))[k];
    PiecesFrom(q, 0, k);
    PiecesShift(q, off, 0);
    assert b[|b| - |a|..] == b[k..];
    SameEndSlice(a, b);
  }

  /** A pattern encloses a name, label by label, exactly when it is what stands from some label on. */
  lemma Encloses(p: str, q: str)
    requires Pattern(p) && Pattern(q)
    ensures IsSuffix(LowerPieces(p), LowerPieces(q))
            <==> exists k | 0 <= k < |[0] + Starts(q, 0)| :: StartsHere(p, q, k)
  {
    hide *;
    PatternPieces(p);
    PatternPieces(q);
    if IsSuffix(Pieces(p, 0), Pieces(q, 0)) {
      SuffixWhere(p, q);
    }
    if exists k :: 0 <= k < |[0] + Starts(q, 0)| && StartsHere(p, q, k) {
      var k :| 0 <= k < |[0] + Starts(q, 0)| && StartsHere(p, q, k);
      WhereSuffix(p, q, k);
    }
  }

  lemma PiecesSome(p: str)
    ensures |Pieces(p, 0)| >= 1
  {
  }

  lemma LowerTwice(q: str)
    ensures LowerAll(LowerAll(q)) == LowerAll(q)
  {
  }

  lemma StartsLower(q: str)
    ensures Starts(q, 0) == Starts(LowerAll(q), 0)
  {
    hide NextStart, LowerAll, Starts;
    forall i: nat ensures NextStart(q, i, false) == NextStart(LowerAll(q), i, false) { NextStartLower(q, i, false); }
    StartsSame(q, LowerAll(q), 0);
  }

  /** A fully qualified name other than the root, whose last label is not empty. */
  predicate Asked(q: str) {
    IsFqdn(q) && |q| >= 2 && q[|q| - 2] != DOT
  }

  lemma AskedLower(q: str)
    requires Asked(q)
    ensures Pattern(LowerAll(q)) && LowerPieces(q) == LowerPieces(LowerAll(q)) == Pieces(LowerAll(q), 0)
  {
    hide Pieces;
    LowerTwice(q);
  }

  lemma LowerSlice(s: str, off: nat)
    requires off <= |s| && LowerAll(s) == s
    ensures LowerAll(s[off..]) == s[off..]
  {
    forall j | 0 <= j < |s[off..]|
      ensures LowerAll(s[off..])[j] == s[off..][j]
    {
      assert LowerAll(s)[off + j] == s[off + j];
    }
  }

  /** No label of such a name but the first begins at its last dot. */
  lemma StartInside(q: str, k: nat)
    requires Asked(q) && k < |[0] + Starts(LowerAll(q), 0)|
    ensures ([0] + Starts(LowerAll(q), 0))[k] < |q| - 1
  {
    hide Starts;
    var lq := LowerAll(q);
    if k > 0 {
      StartsAfterDot(lq, 0, k - 1);
      assert lq[|q| - 2] != DOT;
    }
  }

  /** What stands from a label on is a pattern again. */
  lemma SuffixPattern(q: str, k: nat)
    requires Asked(q) && k < |[0] + Starts(LowerAll(q), 0)|
    ensures var lq := LowerAll(q);
            var off := ([0] + Starts(lq, 0))[k];
            off < |lq| && Pattern(lq[off..])
  {
    StartInside(q, k);
    hide Starts, LowerAll, StartsHere;
    var lq := LowerAll(q);
    var off := ([0] + Starts(lq, 0))[k];
    AskedLower(q);
    LowerSlice(lq, off);
    assert lq[off..][|lq| - off - 1] == lq[|lq| - 1];
  }

  /** Among the suffixes of a name the one that starts at an earlier label encloses fewer names. */
  lemma SuffixOfSuffix(s: str, j: nat, k: nat)
    requires j <= k < |[0] + Starts(s, 0)|
    ensures var at := [0] + Starts(s, 0);
            at[j] <= |s| && at[k] <= |s| && IsSuffix(Pieces(s[at[k]..], 0), Pieces(s[at[j]..], 0))
  {
    hide Pieces, Starts, IsSuffix;
    var at := [0] + Starts(s, 0);
    PiecesFrom(s, 0, j);
    PiecesFrom(s, 0, k);
    PiecesShift(s, at[j], 0);
    PiecesShift(s, at[k], 0);
    var a, b := Pieces(s, 0)[k..], Pieces(s, 0)[j..];
    assert b[|b| - |a|..] == a;
    SameEndSlice(a, b);
  }

  predicate EnclosesName(p: str, q: str) {
    IsSuffix(LowerPieces(p), LowerPieces(q))
  }

  /** Where the patterns that enclose a name can be found. */
  lemma EnclosingAt(q: str, p: str)
    requires Asked(q) && Pattern(p) && EnclosesName(p, q)
    ensures exists k | 0 <= k < |[0] + Starts(LowerAll(q), 0)| :: StartsHere(p, LowerAll(q), k)
  {
    hide *;
    AskedLower(q);
    EnclosesIs(p, q);
    Encloses(p, LowerAll(q));
  }

  lemma EnclosesIs(p: str, q: str)
    ensures EnclosesName(p, q) <==> IsSuffix(LowerPieces(p), LowerPieces(q))
  {
    hide IsSuffix, LowerPieces;
  }

  /** Other than for DS, the handler of the most specific zone answers: its pattern encloses the name, and
      every other pattern that does encloses that pattern. Without one the root's handler answers, if any. */
  lemma MostSpecific(z: map<str, Handler>, q: str, t: uint16)
    requires t != TYPE_DS && Asked(q)
    ensures var hit := FirstHit(z, q, 0);
            && (hit.None? ==>
                  && Dispatch(z, q, t) == (if ROOT in z then Some(z[ROOT]) else None)
                  && forall p | p in z && Pattern(p) :: !EnclosesName(p, q))
            && (hit.Some? ==>
                  && hit.value <= |q|
                  && var best := LowerAll(q)[hit.value..];
                     && best in z && Pattern(best) && EnclosesName(best, q) && Dispatch(z, q, t) == Some(z[best])
                     && forall p | p in z && Pattern(p) && EnclosesName(p, q) :: EnclosesName(p, best))
  {
    hide Pattern, Asked, EnclosesName, Starts, StartsHere, FirstHit, LowerAll;
    var hit, lq := FirstHit(z, q, 0), LowerAll(q);
    var at := [0] + Starts(lq, 0);
    FirstHitIs(z, q, 0);
    StartsLower(q);
    forall p | p in z && Pattern(p) && EnclosesName(p, q)
      ensures hit.Some? && hit.value <= |q| && EnclosesName(p, lq[hit.value..])
    {
      EnclosingAt(q, p);
      var k :| 0 <= k < |at| && StartsHere(p, lq, k);
      StartsHereIs(p, lq, k);
      assert at[k] in at;
      assert hit.Some? && hit.value <= at[k];
      var j :| 0 <= j < |at| && at[j] == hit.value;
      StartsIncrease(lq, j, k);
      SuffixEncloses(q, j, k);
    }
    if hit.Some? {
      var j :| 0 <= j < |at| && at[j] == hit.value;
      SuffixPattern(q, j);
      SuffixEncloses(q, 0, j);
      AskedLower(q);
      assert lq[0..] == lq;
      SameZone(lq[hit.value..], lq, q);
    }
  }

  lemma SameZone(p: str, a: str, b: str)
    requires LowerPieces(a) == LowerPieces(b)
    ensures EnclosesName(p, a) <==> EnclosesName(p, b)
  {
    hide LowerPieces, IsSuffix;
  }

  lemma StartsHereIs(p: str, q: str, k: nat)
    requires k < |[0] + Starts(q, 0)|
    ensures StartsHere(p, q, k) <==> ([0] + Starts(q, 0))[k] <= |q| && q[([0] + Starts(q, 0))[k]..] == p
  {
  }

  lemma StartsIncrease(s: str, j: nat, k: nat)
    requires j < |[0] + Starts(s, 0)| && k < |[0] + Starts(s, 0)|
    requires ([0] + Starts(s, 0))[j] <= ([0] + Starts(s, 0))[k]
    ensures j <= k
  {
  }

  lemma SuffixEncloses(q: str, j: nat, k: nat)
    requires Asked(q) && j <= k < |[0] + Starts(LowerAll(q), 0)|
    ensures var lq := LowerAll(q);
            var at := [0] + Starts(lq, 0);
            at[j] <= |lq| && at[k] <= |lq| && EnclosesName(lq[at[k]..], lq[at[j]..])
  {
    hide *;
    var lq := LowerAll(q);
    var at := [0] + Starts(lq, 0);
    SuffixPattern(q, j);
    SuffixPattern(q, k);
    PatternPieces(lq[at[j]..]);
    PatternPieces(lq[at[k]..]);
    SuffixOfSuffix(lq, j, k);
    EnclosesIs(lq[at[k]..], lq[at[j]..]);
  }

  // ---------- Type DS ----------

  lemma {:induction false} LastHitIs(z: map<str, Handler>, q: str, off: nat)
    requires off <= |q|
    ensures var r := LastHit(z, q, off);
            && (r.Some? ==> off <= r.value <= |q| && r.value in [off] + Starts(q, off) && LowerAll(q)[r.value..] in z)
            && forall k | k in [off] + Starts(q, off) && (r.None? || k > r.value) :: k <= |q| && LowerAll(q)[k..] !in z
    decreases |q| - off
  {
    hide LowerAll;
    match NextStart(q, off, false)
    case None =>
    case Some(n) =>
      LastHitIs(z, q, n);
      assert Starts(q, off) == [n] + Starts(q, n);
  }

  /** For DS a handler of the root answers whatever else there is. Without one the handler of the least specific
      zone answers: its pattern encloses the name, and every other pattern that does. */
  lemma LeastSpecific(z: map<str, Handler>, q: str)
    requires Asked(q)
    ensures ROOT in z ==> Dispatch(z, q, TYPE_DS) == Some(z[ROOT])
    ensures var hit := LastHit(z, q, 0);
            ROOT !in z ==>
              && (hit.None? ==>
                    Dispatch(z, q, TYPE_DS) == None && forall p | p in z && Pattern(p) :: !EnclosesName(p, q))
              && (hit.Some? ==>
                    && hit.value <= |q|
                    && var far := LowerAll(q)[hit.value..];
                       && far in z && Pattern(far) && EnclosesName(far, q) && Dispatch(z, q, TYPE_DS) == Some(z[far])
                       && forall p | p in z && Pattern(p) && EnclosesName(p, q) :: EnclosesName(far, p))
  {
    hide Pattern, Asked, EnclosesName, Starts, StartsHere, LastHit, LowerAll;
    var hit, lq := LastHit(z, q, 0), LowerAll(q);
    var at := [0] + Starts(lq, 0);
    LastHitIs(z, q, 0);
    StartsLower(q);
    forall p | p in z && Pattern(p) && EnclosesName(p, q)
      ensures hit.Some? && hit.value <= |q| && EnclosesName(lq[hit.value..], p)
    {
      EnclosingAt(q, p);
      var k :| 0 <= k < |at| && StartsHere(p, lq, k);
      StartsHereIs(p, lq, k);
      assert at[k] in at;
      assert hit.Some? && hit.value >= at[k];
      var j :| 0 <= j < |at| && at[j] == hit.value;
      StartsIncrease(lq, k, j);
      SuffixEncloses(q, k, j);
    }
    if hit.Some? {
      var j :| 0 <= j < |at| && at[j] == hit.value;
      SuffixPattern(q, j);
      SuffixEncloses(q, 0, j);
      AskedLower(q);
      assert lq[0..] == lq;
      SameZone(lq[hit.value..], lq, q);
    }
  }

  /** Patterns that enclose each other are the same. */
  lemma SamePattern(a: str, b: str)
    requires Pattern(a) && Pattern(b) && EnclosesName(a, b) && EnclosesName(b, a)
    ensures a == b
  {
    hide Pieces, Concat;
    PatternPieces(a);
    PatternPieces(b);
    SameEndSlice(Pieces(a, 0), Pieces(b, 0));
    SameEndSlice(Pieces(b, 0), Pieces(a, 0));
    var n := |Pieces(a, 0)|;
    assert Pieces(a, 0) == Pieces(b, 0);
    PiecesConcat(a, 0);
    PiecesConcat(b, 0);
    assert a[0..] == a && b[0..] == b;
  }

  /** A pattern above the name asked for. */
  predicate Above(z: map<str, Handler>, q: str, p: str) {
    p in z && Pattern(p) && EnclosesName(p, q) && p != LowerAll(q)
  }

  /** So for DS it is the parent that answers, the nearest zone above the name, if and only if there is no other
      zone above the name. */
  lemma DsParent(z: map<str, Handler>, q: str, parent: str)
    requires Asked(q) && ROOT !in z && Above(z, q, parent)
    requires forall p | Above(z, q, p) :: EnclosesName(p, parent)
    ensures var hit := LastHit(z, q, 0);
            && hit.Some? && hit.value <= |q| && Dispatch(z, q, TYPE_DS) == At(z, q, hit)
            && (LowerAll(q)[hit.value..] == parent <==> forall p | Above(z, q, p) :: p == parent)
  {
    hide Pattern, Asked, EnclosesName, LastHit, LowerAll;
    LeastSpecific(z, q);
    var far := LowerAll(q)[LastHit(z, q, 0).value..];
    if far == parent {
      forall p | Above(z, q, p)
        ensures p == parent
      {
        SamePattern(p, parent);
      }
    }
    if forall p | Above(z, q, p) :: p == parent {
      if far == LowerAll(q) {
        AskedLower(q);
        SameZone(parent, LowerAll(q), q);
        SamePattern(far, parent);
      } else {
        assert Above(z, q, far);
      }
    }
  }

  /** Of three zones one within the other it is the outermost that answers for DS, not the parent. */
  lemma DsGrandparent(a: Handler, b: Handler, c: Handler)
    ensures var child: str := [97, DOT, 98, DOT, 99, DOT];
            Dispatch(map[child := a, child[2..] := b, child[4..] := c], child, TYPE_DS) == Some(c)
  {
    hide LowerAll;
    var q: str := [97, DOT, 98, DOT, 99, DOT];
    var z: map<str, Handler> := map[q := a, q[2..] := b, q[4..] := c];
    assert LowerAll(q) == q by { Lowered(q); }
    ThreeStarts(q);
    assert |q[2..]| == 4 && |q[4..]| == 2;
    assert LastHit(z, q, 4) == Some(4);
    assert LastHit(z, q, 2) == Some(4);
    assert LastHit(z, q, 0) == Some(4);
    assert z[q[4..]] == c;
    assert |q[4..]| == 2;
    assert |ROOT| == 1;
  }

  lemma Lowered(q: str)
    requires forall k | 0 <= k < |q| :: !(65 <= q[k] <= 90)
    ensures LowerAll(q) == q
  {
  }

  lemma ThreeStarts(q: str)
    requires q == [97, DOT, 98, DOT, 99, DOT]
    ensures NextStart(q, 0, false) == Some(2) && NextStart(q, 2, false) == Some(4) && NextStart(q, 4, false) == None
  {
    NextStartStep(q, 0, false);
    NextStartStep(q, 1, false);
    NextStartStep(q, 2, false);
    NextStartStep(q, 3, false);
    NextStartStep(q, 4, false);
    NextStartStep(q, 5, false);
  }

  // ---------- Patterns with capitals ----------

  /** A pattern with a capital is never found: names are put in lower case, patterns are not. */
  lemma CapitalNever(z: map<str, Handler>, q: str, t: uint16, p: str)
    requires LowerAll(p) != p
    ensures Dispatch(z, q, t) == Dispatch(z - {p}, q, t)
  {
    hide LowerAll;
    CapitalHits(z, q, 0, p);
    RootLowered();
    if FirstHit(z, q, 0).Some? { NotCapital(q, FirstHit(z, q, 0).value, p); }
    if LastHit(z, q, 0).Some? { NotCapital(q, LastHit(z, q, 0).value, p); }
  }

  lemma RootLowered()
    ensures LowerAll(ROOT) == ROOT
  {
  }

  lemma NotCapital(q: str, off: nat, p: str)
    requires LowerAll(p) != p
    ensures off <= |q| ==> LowerAll(q)[off..] != p
  {
    hide LowerAll;
    if off <= |q| {
      LowerTwice(q);
      LowerSlice(LowerAll(q), off);
    }
  }

  lemma {:induction false} CapitalHits(z: map<str, Handler>, q: str, off: nat, p: str)
    requires off <= |q| && LowerAll(p) != p
    ensures FirstHit(z - {p}, q, off) == FirstHit(z, q, off) && LastHit(z - {p}, q, off) == LastHit(z, q, off)
    decreases |q| - off
  {
    hide LowerAll;
    NotCapital(q, off, p);
    match NextStart(q, off, false)
    case None =>
    case Some(n) => CapitalHits(z, q, n, p);
  }
}
