/** NSEC3 coverage (nsecx.go; section 1.3 of RFC 5155), for any hash of names. */
module Nsec3 {
  import opened Bytes
  import opened Names
  import opened LabelOps
  import opened LengthsExact
  import opened Responses

  // ---------- The order of Go strings ----------

  predicate Less(a: str, b: str) {
    b != [] && (a == [] || a[0] < b[0] || (a[0] == b[0] && Less(a[1..], b[1..])))
  }

  lemma {:induction false} LessTotal(a: str, b: str)
    ensures Less(a, b) || a == b || Less(b, a)
    ensures !(Less(a, b) && Less(b, a)) && !Less(a, a)
    decreases |a|
  {
    if a != [] {
      LessTotal(a[1..], if b == [] then [] else b[1..]);
      if b != [] {
        assert a == [a[0]] + a[1..] && b == [b[0]] + b[1..];
      }
    }
  }

  lemma {:induction false} LessTrans(a: str, b: str, c: str)
    requires Less(a, b) && Less(b, c)
    ensures Less(a, c)
    decreases |a|
  {
    if a != [] && a[0] == b[0] == c[0] {
      LessTrans(a[1..], b[1..], c[1..]);
    }
  }

  // ---------- Cover and Match ----------

  /** A record: its owner name, and the hash of the next owner. */
  datatype Nsec3RR = Nsec3RR(name: str, nextDomain: str)

  predicate InZone(zone: str, name: str) {
    IsSuffix(LowerPieces(zone), LowerPieces(name))
  }

  /** What an owner name says: the hash in its first label, and the zone; nothing for a single label. */
  datatype Owner = NoOwner | Owner(hash: str, zone: str)

  function OwnerOf(rr: Nsec3RR): Owner {
    var owner := UpperAll(rr.name);
    match NextStart(owner, 0, false)
    case None => NoOwner
    case Some(k) => Owner(owner[..k - 1], owner[k..])
  }

  /** The hash lies in the interval from owner to next. */
  predicate Between(owner: str, next: str, h: str) {
    owner != next &&
    if Less(next, owner) then Less(owner, h) || Less(h, next) else !Less(h, owner) && Less(h, next)
  }

  predicate Covers(rr: Nsec3RR, name: str, h: str) {
    var o := OwnerOf(rr);
    o.Owner? && InZone(o.zone, UpperAll(name)) && Between(o.hash, rr.nextDomain, h)
  }

  predicate Matches(rr: Nsec3RR, name: str, h: str) {
    var o := OwnerOf(rr);
    o.Owner? && InZone(o.zone, UpperAll(name)) && o.hash == h
  }

  /** nameHash stands for HashName(name, rr.Hash, rr.Iterations, rr.Salt). */
  method Cover(rr: Nsec3RR, name: str, nameHash: str) returns (covered: bool)
    ensures covered == Covers(rr, name, nameHash)
  {
    hide Less, Starts, LowerPieces, IsSuffix;
    var owner := UpperAll(rr.name);
    var labelIndices := Split(owner);
    SecondLabel(owner);
    if labelIndices == None || |labelIndices.value| < 2 {
      return false;
    }
    var k := labelIndices.value[1];
    var ownerHash := owner[..k - 1];
    var ownerZone := owner[k..];
    var inZone := IsSubDomain(ownerZone, UpperAll(name));
    if !inZone {
      return false;
    }
    var nextHash := rr.nextDomain;
    if ownerHash == nextHash {
      return false;
    }
    if Less(nextHash, ownerHash) {
      if Less(ownerHash, nameHash) {
        return true;
      }
      return Less(nameHash, nextHash);
    }
    if Less(nameHash, ownerHash) {
      return false;
    }
    return Less(nameHash, nextHash);
  }

  method Match(rr: Nsec3RR, name: str, nameHash: str) returns (matched: bool)
    ensures matched == Matches(rr, name, nameHash)
  {
    hide Starts, LowerPieces, IsSuffix;
    var owner := UpperAll(rr.name);
    var labelIndices := Split(owner);
    SecondLabel(owner);
    if labelIndices == None || |labelIndices.value| < 2 {
      return false;
    }
    var k := labelIndices.value[1];
    var inZone := IsSubDomain(owner[k..], UpperAll(name));
    if !inZone {
      return false;
    }
    return owner[..k - 1] == nameHash;
  }

  lemma SecondLabel(owner: str)
    ensures owner == ROOT ==> NextStart(owner, 0, false) == None
    ensures var s := [0] + Starts(owner, 0);
            if |s| < 2 then NextStart(owner, 0, false) == None
            else NextStart(owner, 0, false) == Some(s[1]) && 0 < s[1] < |owner|
  {
  }

  // ---------- A chain of records covers its zone ----------

  /** Distinct hashes in increasing order, in upper case and without dots and backslashes. */
  predicate Chain(hs: seq<str>) {
    && |hs| >= 2
    && (forall i, j | 0 <= i < j < |hs| :: Less(hs[i], hs[j]))
    && (forall h | h in hs :: DOT !in h && BACKSLASH !in h)
  }

  /** The record of the i-th hash; the last points back to the first. */
  predicate Links(rr: Nsec3RR, hs: seq<str>, i: nat, zone: str)
    requires i < |hs|
  {
    UpperAll(rr.name) == hs[i] + [DOT] + zone && zone != [] && rr.nextDomain == hs[if i + 1 < |hs| then i + 1 else 0]
  }

  lemma OwnerIs(rr: Nsec3RR, hs: seq<str>, i: nat, zone: str)
    requires Chain(hs) && i < |hs| && Links(rr, hs, i, zone)
    ensures OwnerOf(rr) == Owner(hs[i], zone)
  {
    hide Less;
    var owner, h := UpperAll(rr.name), hs[i];
    assert h in hs;
    forall k | 0 <= k < |h|
      ensures owner[k] != DOT && owner[k] != BACKSLASH
    {
      assert owner[k] == h[k] && h[k] in h;
    }
    assert owner[|h|] == DOT;
    NextStartPlain(owner, 0, |h|);
    assert owner[..|h|] == h && owner[|h| + 1..] == zone;
  }

  /** How many hashes are at most h. */
  function Below(hs: seq<str>, h: str): (n: nat)
    ensures n <= |hs|
  {
    if hs == [] then 0 else if !Less(h, hs[|hs| - 1]) then |hs| else Below(hs[..|hs| - 1], h)
  }

  lemma {:induction false} BelowIs(hs: seq<str>, h: str)
    requires forall i, j | 0 <= i < j < |hs| :: Less(hs[i], hs[j])
    ensures forall i | 0 <= i < |hs| :: !Less(h, hs[i]) <==> i < Below(hs, h)
    decreases |hs|
  {
    hide Less;
    if hs != [] {
      var n := |hs| - 1;
      BelowIs(hs[..n], h);
      forall i | 0 <= i < n
        ensures !Less(h, hs[n]) ==> !Less(h, hs[i])
      {
        if Less(h, hs[i]) { LessTrans(h, hs[i], hs[n]); }
      }
      assert forall i | 0 <= i < n :: hs[..n][i] == hs[i];
    }
  }

  /** The record that must deny h: that of the last hash at most h, or else the last of the chain. */
  function Slot(hs: seq<str>, h: str): (i: nat)
    requires hs != []
    ensures i < |hs|
  {
    if Below(hs, h) == 0 then |hs| - 1 else Below(hs, h) - 1
  }

  lemma BetweenIs(hs: seq<str>, i: nat, h: str)
    requires Chain(hs) && i < |hs|
    ensures Between(hs[i], hs[if i + 1 < |hs| then i + 1 else 0], h) <==> i == Slot(hs, h) && h != hs[|hs| - 1]
  {
    hide Less, Below;
    var n := |hs|;
    BelowIs(hs, h);
    LessTotal(h, hs[i]);
    LessTotal(h, hs[n - 1]);
    if i + 1 < n {
      LessTotal(hs[i], hs[i + 1]);
      assert Less(hs[i], hs[i + 1]);
    } else {
      assert Less(hs[0], hs[n - 1]);
      LessTotal(hs[0], hs[n - 1]);
      LessTotal(h, hs[0]);
    }
  }

  /** Every name of the zone is covered by exactly one record of the chain, the one for its slot; except
      that the owner of the last hash is covered by none. */
  lemma CoveredOnce(rrs: seq<Nsec3RR>, hs: seq<str>, zone: str, name: str, h: str)
    requires Chain(hs) && |rrs| == |hs| && forall i | 0 <= i < |hs| :: Links(rrs[i], hs, i, zone)
    requires InZone(zone, UpperAll(name))
    ensures forall i | 0 <= i < |hs| :: Covers(rrs[i], name, h) <==> i == Slot(hs, h) && h != hs[|hs| - 1]
  {
    hide Chain, Links, Between, OwnerOf, InZone;
    forall i | 0 <= i < |hs|
      ensures Covers(rrs[i], name, h) <==> i == Slot(hs, h) && h != hs[|hs| - 1]
    {
      OwnerIs(rrs[i], hs, i, zone);
      NextIs(rrs[i], hs, i, zone);
      BetweenIs(hs, i, h);
    }
  }

  lemma NextIs(rr: Nsec3RR, hs: seq<str>, i: nat, zone: str)
    requires i < |hs| && Links(rr, hs, i, zone)
    ensures rr.nextDomain == hs[if i + 1 < |hs| then i + 1 else 0]
  {
  }

  /** A name whose hash is an owner's is matched by exactly that record, any other name by none; a name
      outside the zone is neither matched nor covered. */
  lemma MatchedOnce(rrs: seq<Nsec3RR>, hs: seq<str>, zone: str, name: str, h: str)
    requires Chain(hs) && |rrs| == |hs| && forall i | 0 <= i < |hs| :: Links(rrs[i], hs, i, zone)
    ensures InZone(zone, UpperAll(name)) ==>
              forall i | 0 <= i < |hs| :: Matches(rrs[i], name, h) <==> i == Slot(hs, h) && h in hs
    ensures !InZone(zone, UpperAll(name)) ==>
              forall i | 0 <= i < |hs| :: !Matches(rrs[i], name, h) && !Covers(rrs[i], name, h)
  {
    hide Chain, Links, Between, OwnerOf, InZone, Below;
    forall i | 0 <= i < |hs|
      ensures OwnerOf(rrs[i]) == Owner(hs[i], zone)
      ensures hs[i] == h <==> i == Slot(hs, h) && h in hs
    {
      OwnerIs(rrs[i], hs, i, zone);
      SlotOf(hs, i, h);
    }
  }

  lemma SlotOf(hs: seq<str>, i: nat, h: str)
    requires Chain(hs) && i < |hs|
    ensures hs[i] == h <==> i == Slot(hs, h) && h in hs
  {
    hide Less, Below;
    BelowIs(hs, h);
    if hs[i] == h {
      LessTotal(h, h);
      assert i < Below(hs, h);
      if i + 1 < |hs| {
        assert Less(hs[i], hs[i + 1]);
      }
    } else if h in hs {
      var j :| 0 <= j < |hs| && hs[j] == h;
      LessTotal(h, h);
      assert j < Below(hs, h);
      if j + 1 < |hs| {
        assert Less(hs[j], hs[j + 1]);
      }
    }
  }

  /** Cover does not exclude the owner's own hash: all records of a chain but the last cover the name they match. */
  lemma OwnHashCovered(rrs: seq<Nsec3RR>, hs: seq<str>, zone: str, name: str, i: nat)
    requires Chain(hs) && |rrs| == |hs| && forall k | 0 <= k < |hs| :: Links(rrs[k], hs, k, zone)
    requires InZone(zone, UpperAll(name)) && i < |hs|
    ensures Matches(rrs[i], name, hs[i])
    ensures Covers(rrs[i], name, hs[i]) <==> i < |hs| - 1
  {
    hide Links, OwnerOf, InZone, Below, Less, Matches, Covers;
    MatchedOnce(rrs, hs, zone, name, hs[i]);
    CoveredOnce(rrs, hs, zone, name, hs[i]);
    SlotOf(hs, i, hs[i]);
    SlotOf(hs, |hs| - 1, hs[i]);
    if i < |hs| - 1 {
      assert Less(hs[i], hs[|hs| - 1]);
      LessTotal(hs[i], hs[|hs| - 1]);
      LessTotal(hs[i], hs[i]);
    }
  }
}
