/** sanitize.go: the normalized text of a record, and the removal of duplicates in place. */
module Dedup {
  import opened Bytes

  const TAB: byte := 9

  // ---------- Records and their text ----------

  function TtlText(n: nat): (s: str)
    ensures s != [] && forall c | c in s :: 48 <= c <= 57
  {
    if n < 10 then [48 + n] else TtlText(n / 10) + [48 + n % 10]
  }

  /** A record as its String method shows it: owner name, TTL, and the rest from the class on. */
  class Record {
    const name: str
    const rest: str
    var ttl: uint32

    constructor (name: str, ttl: uint32, rest: str)
      ensures this.name == name && this.rest == rest && this.ttl == ttl
    {
      this.name, this.ttl, this.rest := name, ttl, rest;
    }

    function Text(): str
      reads this
    {
      name + [TAB] + TtlText(ttl) + [TAB] + rest
    }
  }

  /** Whether the character after s is escaped. */
  predicate EscAfter(s: str) {
    s != [] && s[|s| - 1] == BACKSLASH && !EscAfter(s[..|s| - 1])
  }

  predicate IsUpper(c: byte) { 65 <= c <= 90 }

  /** Upper-case letters in lower case, unless they are escaped. */
  function LowerName(s: str): (r: str)
    ensures |r| == |s|
  {
    if s == [] then []
    else
      var n := |s| - 1;
      LowerName(s[..n]) + [if IsUpper(s[n]) && !EscAfter(s[..n]) then s[n] + 32 else s[n]]
  }

  /** An owner name as it is printed: not empty, no escape left open, and no tab that is not escaped. */
  predicate Printable(name: str) {
    && name != [] && !EscAfter(name)
    && forall k | 0 <= k < |name| :: name[k] == TAB ==> EscAfter(name[..k])
  }

  /** What identifies a record. */
  function Key(name: str, rest: str): str {
    LowerName(name) + [TAB] + rest
  }

  /** The loop of normalizedString has looked at i characters of s, a name of n characters, a TTL and the rest. */
  ghost predicate Looked(b: str, s: str, name: str, ttl: str, i: nat, esc: bool, ttlStart: nat, ttlEnd: nat) {
    var n, e := |name|, |name| + 1 + |ttl|;
    && |b| == |s| && i <= |s|
    && if i <= n then
         && ttlStart == ttlEnd == 0 && esc == EscAfter(name[..i])
         && b == LowerName(name[..i]) + s[i..]
       else
         && ttlStart == n && b == LowerName(name) + s[n..]
         && if i <= e then ttlEnd == 0 && !esc else i == e + 1 && ttlEnd == e
  }

  lemma LookName(b: str, s: str, name: str, ttl: str, rest: str, i: nat, esc: bool)
    requires s == name + [TAB] + ttl + [TAB] + rest && i < |name| && Printable(name)
    requires Looked(b, s, name, ttl, i, esc, 0, 0)
    ensures b[i] == name[i] && (name[i] == TAB ==> esc)
    ensures var c := name[i];
            var b1 := if IsUpper(c) && !esc then b[i := c + 32] else b;
            Looked(b1, s, name, ttl, i + 1, if c == BACKSLASH then !esc else false, 0, 0)
  {
    var c := name[i];
    assert s[i] == c && s[i..][0] == c;
    assert name[..i + 1][..i] == name[..i];
    assert s[i..] == [c] + s[i + 1..];
    var b1 := if IsUpper(c) && !esc then b[i := c + 32] else b;
    assert b1 == LowerName(name[..i]) + [if IsUpper(c) && !esc then c + 32 else c] + s[i + 1..];
  }

  lemma LookTtl(b: str, s: str, name: str, ttl: str, rest: str, i: nat, esc: bool, ttlStart: nat)
    requires s == name + [TAB] + ttl + [TAB] + rest && |name| <= i <= |name| + 1 + |ttl| && Printable(name)
    requires Looked(b, s, name, ttl, i, esc, ttlStart, 0)
    requires forall c | c in ttl :: 48 <= c <= 57
    ensures i < |s| && b[i] == s[i] && !esc
    ensures b[i] == TAB <==> i == |name| || i == |name| + 1 + |ttl|
    ensures b[i] != TAB ==> 48 <= b[i] <= 57
    ensures i == |name| ==> ttlStart == 0 && Looked(b, s, name, ttl, i + 1, false, i, 0)
    ensures |name| < i <= |name| + |ttl| ==>
              ttlStart == |name| > 0 && Looked(b, s, name, ttl, i + 1, false, ttlStart, 0)
    ensures i == |name| + 1 + |ttl| ==> ttlStart == |name| > 0 && Looked(b, s, name, ttl, i + 1, false, ttlStart, i)
  {
    var n := |name|;
    assert name[..n] == name;
    assert s[n..][i - n] == s[i];
    if n < i <= n + |ttl| {
      assert s[i] == ttl[i - n - 1];
      assert s[i] in ttl;
    }
  }

  /** What one round of the loop leaves: the text, the escape flag, and where the TTL begins and ends. */
  datatype Round = Round(b: str, esc: bool, ttlStart: nat, ttlEnd: nat)

  function OneRound(b: str, i: nat, esc: bool, ttlStart: nat, ttlEnd: nat): Round
    requires i < |b|
  {
    var c := b[i];
    if c == BACKSLASH then Round(b, !esc, ttlStart, ttlEnd)
    else if c == TAB && !esc then
      if ttlStart == 0 then Round(b, esc, i, ttlEnd)
      else if ttlEnd == 0 then Round(b, esc, ttlStart, i)
      else Round(b, esc, ttlStart, ttlEnd)
    else if IsUpper(c) && !esc then Round(b[i := c + 32], esc, ttlStart, ttlEnd)
    else Round(b, false, ttlStart, ttlEnd)
  }

  /** The switch of normalizedString. */
  method Look(b: array<byte>, i: nat, esc0: bool, ttlStart0: nat, ttlEnd0: nat)
    returns (esc: bool, ttlStart: nat, ttlEnd: nat)
    requires i < b.Length
    modifies b
    ensures Round(b[..], esc, ttlStart, ttlEnd) == OneRound(old(b[..]), i, esc0, ttlStart0, ttlEnd0)
  {
    esc, ttlStart, ttlEnd := esc0, ttlStart0, ttlEnd0;
    if b[i] == BACKSLASH {
      esc := !esc;
    } else if b[i] == TAB && !esc {
      if ttlStart == 0 {
        ttlStart := i;
        return;
      }
      if ttlEnd == 0 {
        ttlEnd := i;
      }
    } else if IsUpper(b[i]) && !esc {
      b[i] := b[i] + 32;
    } else {
      esc := false;
    }
  }

  lemma LookOn(b: str, s: str, name: str, ttl: str, rest: str, i: nat, esc: bool, ttlStart: nat)
    requires s == name + [TAB] + ttl + [TAB] + rest && i < |b| && Printable(name)
    requires Looked(b, s, name, ttl, i, esc, ttlStart, 0)
    requires forall c | c in ttl :: 48 <= c <= 57
    ensures var r := OneRound(b, i, esc, ttlStart, 0);
            Looked(r.b, s, name, ttl, i + 1, r.esc, r.ttlStart, r.ttlEnd)
  {
    hide Looked, LowerName, EscAfter, Printable;
    LookedTo(b, s, name, ttl, i, esc, ttlStart, 0);
    PrintableSome(name);
    if i < |name| {
      LookName(b, s, name, ttl, rest, i, esc);
    } else {
      LookTtl(b, s, name, ttl, rest, i, esc, ttlStart);
    }
  }

  lemma PrintableSome(name: str)
    requires Printable(name)
    ensures |name| > 0
  {
    hide EscAfter;
  }

  method NormalizedString(r: Record) returns (key: str)
    requires Printable(r.name)
    ensures key == Key(r.name, r.rest)
  {
    hide *;
    var text := r.Text();
    ghost var ttl := TtlText(r.ttl);
    TextIs(r);
    var b := new byte[|text|](i requires 0 <= i < |text| => text[i]);
    assert b[..] == text;
    var esc, ttlStart: nat, ttlEnd: nat := false, 0, 0;
    LookStart(text, r.name, ttl);
    var i: nat := 0;
    while i < b.Length && ttlEnd == 0
      invariant Looked(b[..], text, r.name, ttl, i, esc, ttlStart, ttlEnd)
      decreases b.Length - i
    {
      LookOn(b[..], text, r.name, ttl, r.rest, i, esc, ttlStart);
      esc, ttlStart, ttlEnd := Look(b, i, esc, ttlStart, ttlEnd);
      i := i + 1;
    }
    LookEnd(b[..], text, r.name, ttl, r.rest, i, esc, ttlStart, ttlEnd);
    key := b[..ttlStart] + b[ttlEnd..];
    assert b[..ttlStart] == b[..][..ttlStart] && b[ttlEnd..] == b[..][ttlEnd..];
  }

  lemma TextIs(r: Record)
    ensures r.Text() == r.name + [TAB] + TtlText(r.ttl) + [TAB] + r.rest
  {
    hide TtlText;
  }

  lemma LookStart(s: str, name: str, ttl: str)
    ensures Looked(s, s, name, ttl, 0, false, 0, 0)
  {
    assert name[..0] == [] && s[0..] == s;
  }

  lemma LookedTo(b: str, s: str, name: str, ttl: str, i: nat, esc: bool, ttlStart: nat, ttlEnd: nat)
    requires Looked(b, s, name, ttl, i, esc, ttlStart, ttlEnd) && ttlEnd == 0
    ensures i <= |name| + 1 + |ttl| && (i < |name| ==> ttlStart == 0)
  {
  }

  lemma LookEnd(b: str, s: str, name: str, ttl: str, rest: str, i: nat, esc: bool, ttlStart: nat, ttlEnd: nat)
    requires Looked(b, s, name, ttl, i, esc, ttlStart, ttlEnd) && s == name + [TAB] + ttl + [TAB] + rest
    requires i >= |b| || ttlEnd != 0
    ensures ttlStart <= ttlEnd <= |b| && b[..ttlStart] + b[ttlEnd..] == Key(name, rest)
  {
    var n, e := |name|, |name| + 1 + |ttl|;
    assert ttlEnd == e && ttlStart == n;
    assert b[..n] == LowerName(name);
    assert b[e..] == s[n..][e - n..] == s[e..] == [TAB] + rest;
  }

  // ---------- Specification of Dedup ----------

  function KeyOf(r: Record): str {
    Key(r.name, r.rest)
  }

  function KeysOf(rs: seq<Record>): (ks: seq<str>)
    ensures |ks| == |rs| && forall i | 0 <= i < |rs| :: ks[i] == KeyOf(rs[i])
  {
    if rs == [] then [] else KeysOf(rs[..|rs| - 1]) + [KeyOf(rs[|rs| - 1])]
  }

  /** The first record of every key, in their order. */
  function Firsts(rs: seq<Record>): seq<Record> {
    if rs == [] then []
    else
      var n := |rs| - 1;
      Firsts(rs[..n]) + if KeyOf(rs[n]) in KeysOf(rs[..n]) then [] else [rs[n]]
  }

  function KeySet(rs: seq<Record>): set<str> {
    if rs == [] then {} else KeySet(rs[..|rs| - 1]) + {KeyOf(rs[|rs| - 1])}
  }

  function Min(a: uint32, b: uint32): uint32 { if b < a then b else a }

  /** The lowest TTL of a key; ttls are those of the records. */
  function Lowest(rs: seq<Record>, ttls: seq<uint32>, key: str): uint32
    requires |rs| == |ttls| && key in KeySet(rs)
  {
    var n := |rs| - 1;
    if KeyOf(rs[n]) != key then Lowest(rs[..n], ttls[..n], key)
    else if key in KeySet(rs[..n]) then Min(Lowest(rs[..n], ttls[..n], key), ttls[n])
    else ttls[n]
  }

  function Ttls(rs: seq<Record>): (ts: seq<uint32>)
    reads rs
    ensures |ts| == |rs| && forall i | 0 <= i < |rs| :: ts[i] == rs[i].ttl
  {
    if rs == [] then [] else Ttls(rs[..|rs| - 1]) + [rs[|rs| - 1].ttl]
  }

  lemma {:induction false} KeySetIs(rs: seq<Record>)
    ensures forall k :: k in KeysOf(rs) <==> k in KeySet(rs)
    ensures forall r | r in rs :: KeyOf(r) in KeySet(rs)
    ensures forall r | r in Firsts(rs) :: r in rs
    decreases |rs|
  {
    hide KeyOf;
    if rs != [] {
      var n := |rs| - 1;
      KeySetIs(rs[..n]);
      assert rs == rs[..n] + [rs[n]];
    }
  }

  lemma Step(rs: seq<Record>, i: nat)
    requires i < |rs|
    ensures KeySet(rs[..i + 1]) == KeySet(rs[..i]) + {KeyOf(rs[i])}
    ensures KeysOf(rs[..i + 1]) == KeysOf(rs[..i]) + [KeyOf(rs[i])]
    ensures Firsts(rs[..i + 1]) == Firsts(rs[..i]) + if KeyOf(rs[i]) in KeySet(rs[..i]) then [] else [rs[i]]
  {
    hide KeyOf;
    assert rs[..i + 1][..i] == rs[..i];
    KeySetIs(rs[..i]);
  }

  lemma LowestStep(rs: seq<Record>, ttls: seq<uint32>, i: nat, key: str)
    requires i < |rs| == |ttls| && key in KeySet(rs[..i + 1])
    ensures key in KeySet(rs[..i]) || key == KeyOf(rs[i])
    ensures Lowest(rs[..i + 1], ttls[..i + 1], key)
            == if KeyOf(rs[i]) != key then Lowest(rs[..i], ttls[..i], key)
               else if key in KeySet(rs[..i]) then Min(Lowest(rs[..i], ttls[..i], key), ttls[i])
               else ttls[i]
  {
    hide KeyOf;
    assert rs[..i + 1][..i] == rs[..i] && ttls[..i + 1][..i] == ttls[..i];
    Step(rs, i);
  }

  /** There are as many first records as keys. */
  lemma {:induction false} FirstsCount(rs: seq<Record>)
    ensures |Firsts(rs)| == |KeySet(rs)| <= |rs|
    ensures |Firsts(rs)| == |rs| ==> Firsts(rs) == rs
    decreases |rs|
  {
    hide *;
    if rs == [] {
      NoneFirst();
    } else {
      var n := |rs| - 1;
      FirstsCount(rs[..n]);
      assert rs[..n + 1] == rs == rs[..n] + [rs[n]];
      Step(rs, n);
      OneMore(KeySet(rs[..n]), KeyOf(rs[n]));
    }
  }

  lemma NoneFirst()
    ensures Firsts([]) == [] && KeySet([]) == {}
  {
  }

  lemma OneMore(s: set<str>, k: str)
    ensures |s + {k}| == if k in s then |s| else |s| + 1
  {
    if k in s {
      assert s + {k} == s;
    }
  }

  /** Once all keys are seen no further record is kept. */
  lemma {:induction false} FirstsDone(rs: seq<Record>, i: nat)
    requires i <= |rs| && KeySet(rs) <= KeySet(rs[..i])
    ensures Firsts(rs) == Firsts(rs[..i])
    decreases |rs|
  {
    hide KeyOf;
    if i == |rs| {
      assert rs[..i] == rs;
    } else {
      var n := |rs| - 1;
      assert rs[..n][..i] == rs[..i];
      KeySetIs(rs[..n]);
      KeySetPrefix(rs[..n], i);
      FirstsDone(rs[..n], i);
    }
  }

  lemma {:induction false} KeySetPrefix(rs: seq<Record>, i: nat)
    requires i <= |rs|
    ensures KeySet(rs[..i]) <= KeySet(rs)
    decreases |rs|
  {
    hide KeyOf;
    if i == |rs| {
      assert rs[..i] == rs;
    } else {
      assert rs[..|rs| - 1][..i] == rs[..i];
      KeySetPrefix(rs[..|rs| - 1], i);
    }
  }

  // ---------- Dedup ----------

  /** The map that Dedup uses. */
  class Table {
    var m: map<str, Record>

    constructor ()
      ensures m == map[]
    {
      m := map[];
    }
  }

  /** The table after the records in seen: the first record of each key, with the lowest TTL so far. */
  ghost predicate Tabled(m: map<str, Record>, seen: seq<Record>, ttls: seq<uint32>)
    requires |seen| == |ttls|
    reads m.Values
  {
    && m.Keys == KeySet(seen)
    && (forall key | key in m ::
          KeyOf(m[key]) == key && m[key] in Firsts(seen) && m[key].ttl == Lowest(seen, ttls, key))
    && (forall r | r in Firsts(seen) :: KeyOf(r) in m && m[KeyOf(r)] == r)
  }

  /** Whether a record is the one in the table. */
  predicate InTable(m: map<str, Record>, r: Record) {
    KeyOf(r) in m && m[KeyOf(r)] == r
  }

  lemma NothingTabled()
    ensures Tabled(map[], [], []) && KeysOf([]) == []
  {
  }

  lemma KeyIs(r: Record)
    ensures KeyOf(r) == Key(r.name, r.rest)
  {
  }

  /** The lowest TTL of a key is at most that of every record with the key. */
  lemma {:induction false} LowestBelow(rs: seq<Record>, ttls: seq<uint32>, k: nat)
    requires |rs| == |ttls| && k < |rs|
    ensures KeyOf(rs[k]) in KeySet(rs) && Lowest(rs, ttls, KeyOf(rs[k])) <= ttls[k]
    decreases |rs|
  {
    hide KeyOf;
    var n := |rs| - 1;
    if k < n {
      LowestBelow(rs[..n], ttls[..n], k);
    }
  }

  /** The table is right for one record more: r takes the place of nothing, or lowers the TTL of the one
      that stands for its key. */
  lemma TabledMore(m: map<str, Record>, m1: map<str, Record>, rs: seq<Record>, ts: seq<uint32>, i: nat,
                   low: map<str, uint32>)
    requires |rs| == |ts| && i < |rs|
    requires m.Keys == KeySet(rs[..i]) == low.Keys
    requires forall key | key in m ::
               KeyOf(m[key]) == key && m[key] in Firsts(rs[..i]) && low[key] == Lowest(rs[..i], ts[..i], key)
    requires forall r | r in Firsts(rs[..i]) :: KeyOf(r) in m && m[KeyOf(r)] == r
    requires var key := KeyOf(rs[i]);
             if key in m then m1 == m && m[key].ttl == Min(low[key], ts[i])
             else m1 == m[key := rs[i]] && rs[i].ttl == ts[i]
    requires forall key | key in m && key != KeyOf(rs[i]) :: m[key].ttl == low[key]
    ensures Tabled(m1, rs[..i + 1], ts[..i + 1])
  {
    hide KeyOf, Firsts, Lowest, KeySet, Min;
    Step(rs, i);
    var f, f1 := Firsts(rs[..i]), Firsts(rs[..i + 1]);
    forall key | key in m1
      ensures KeyOf(m1[key]) == key && m1[key] in f1 && m1[key].ttl == Lowest(rs[..i + 1], ts[..i + 1], key)
    {
      LowestStep(rs, ts, i, key);
      if key in m {
        assert m[key] in f;
      }
    }
  }

  /** One round of the first loop. */
  method Enter(m: Table, r: Record, key: str, ghost rs: seq<Record>, ghost ts: seq<uint32>, ghost i: nat)
    requires |rs| == |ts| && i < |rs| && rs[i] == r && key == KeyOf(r)
    requires Tabled(m.m, rs[..i], ts[..i])
    requires !InTable(m.m, r) ==> r.ttl == ts[i]
    requires InTable(m.m, r) ==> r.ttl <= ts[i]
    modifies m, m.m.Values
    ensures Tabled(m.m, rs[..i + 1], ts[..i + 1])
    ensures forall o: Record :: !InTable(m.m, o) ==> !InTable(old(m.m), o)
    ensures forall o: Record | o in old(m.m.Values) && !InTable(old(m.m), o) :: o.ttl == old(o.ttl)
  {
    hide KeyOf, Firsts, Lowest, KeySet;
    ghost var m0 := m.m;
    ghost var low := map k | k in m0 :: m0[k].ttl;
    if key in m.m {
      if m.m[key].ttl > r.ttl {
        m.m[key].ttl := r.ttl;
      }
    } else {
      m.m := m.m[key := r];
    }
    TabledMore(m0, m.m, rs, ts, i, low);
  }

  /** Removes duplicates in place: rrs[..n] are the records that stay. */
  method Dedup(rrs: array<Record>, m: Table) returns (n: nat)
    requires m.m == map[] && forall r | r in rrs[..] :: Printable(r.name)
    modifies rrs, m, rrs[..]
    ensures n <= rrs.Length && rrs[..n] == Firsts(old(rrs[..]))
    ensures forall r | r in rrs[..n] ::
              KeyOf(r) in KeySet(old(rrs[..])) && r.ttl == Lowest(old(rrs[..]), old(Ttls(rrs[..])), KeyOf(r))
    ensures forall r | r in old(rrs[..]) && r !in rrs[..n] :: r.ttl == old(r.ttl)
  {
    hide Printable, KeyOf, Key, Firsts, Lowest, KeySet;
    ghost var rs, ts := rrs[..], Ttls(rrs[..]);
    NothingTabled();
    assert rs[..0] == [] && ts[..0] == [];
    var keys: seq<str> := [];
    for i := 0 to rrs.Length
      invariant rrs[..] == rs && keys == KeysOf(rs[..i])
      invariant Tabled(m.m, rs[..i], ts[..i])
      invariant m.m.Values <= set r | r in rs
      invariant forall r | r in rs && !InTable(m.m, r) :: r.ttl == old(r.ttl)
    {
      var r := rrs[i];
      assert r == rs[i] && r in rs;
      var key := NormalizedString(r);
      KeyIs(r);
      keys := keys + [key];
      Step(rs, i);
      if InTable(m.m, r) { TableBelow(m.m, rs, ts, i); }
      Enter(m, r, key, rs, ts, i);
    }
    assert rs[..rrs.Length] == rs && ts[..rrs.Length] == ts;
    ghost var table := m.m;
    n := Compact(rrs, keys, m, rs);
  }

  lemma TableBelow(m: map<str, Record>, rs: seq<Record>, ts: seq<uint32>, i: nat)
    requires |rs| == |ts| && i < |rs| && Tabled(m, rs[..i], ts[..i]) && InTable(m, rs[i])
    requires forall j, k | 0 <= j < |rs| && 0 <= k < |rs| && rs[j] == rs[k] :: ts[j] == ts[k]
    ensures rs[i].ttl <= ts[i]
  {
    hide KeyOf, Firsts, Lowest, KeySet;
    KeySetIs(rs[..i]);
    var k :| 0 <= k < i && rs[..i][k] == rs[i];
    LowestBelow(rs[..i], ts[..i], k);
  }

  /** One round of the second loop: if the key is still in the table, takes it out and moves the record to
      the front. */
  method Keep(rrs: array<Record>, m: Table, key: str, i: nat, j: nat, ghost rs: seq<Record>) returns (j1: nat)
    requires i < rrs.Length == |rs| && key == KeyOf(rs[i])
    requires Compacted(rrs[..], rs, i, j) && m.m.Keys == Left(rs, i)
    modifies rrs, m
    ensures Compacted(rrs[..], rs, i + 1, j1) && m.m.Keys == Left(rs, i + 1)
  {
    hide *;
    LeftStep(rs, i);
    CompactStep(rrs[..], rs, i, j);
    MapMinus(m.m, key);
    j1 := j;
    if key in m.m {
      ghost var b := rrs[..];
      m.m := m.m - {key};
      rrs[j] := rrs[i];
      assert rrs[..] == b[j := b[i]];
      j1 := j + 1;
    }
  }

  /** The second loop: moves the first record of each key to the front. */
  method Compact(rrs: array<Record>, keys: seq<str>, m: Table, ghost rs: seq<Record>) returns (n: nat)
    requires rrs[..] == rs && keys == KeysOf(rs) && m.m.Keys == KeySet(rs)
    modifies rrs, m
    ensures n <= rrs.Length && rrs[..n] == Firsts(rs)
  {
    hide *;
    FirstsCount(rs);
    MapSize(m.m);
    if |m.m| == rrs.Length {
      assert rrs[..rrs.Length] == rs;
      return rrs.Length;
    }
    NoneCompacted(rs);
    var j: nat := 0;
    var i: nat := 0;
    while i < rrs.Length
      invariant i <= rrs.Length && Compacted(rrs[..], rs, i, j) && m.m.Keys == Left(rs, i)
    {
      j := Keep(rrs, m, keys[i], i, j, rs);
      i := i + 1;
      if |m.m| == 0 {
        break;
      }
    }
    MapSize(m.m);
    AllCompacted(rrs[..], rs, i, j);
    assert rrs[..][..j] == rrs[..j];
    return j;
  }

  lemma AllCompacted(b: seq<Record>, rs: seq<Record>, i: nat, j: nat)
    requires Compacted(b, rs, i, j) && (i == |rs| || Left(rs, i) == {})
    ensures j <= |b| && b[..j] == Firsts(rs)
  {
    hide KeyOf, KeySet, Firsts, Left;
    if i == |rs| {
      assert rs[..i] == rs;
    } else {
      NothingLeft(rs, i);
    }
  }

  /** The keys that occur first at i or later. */
  function Left(rs: seq<Record>, i: nat): set<str>
    requires i <= |rs|
  {
    KeySet(rs) - KeySet(rs[..i])
  }

  lemma LeftStep(rs: seq<Record>, i: nat)
    requires i < |rs|
    ensures |KeysOf(rs)| == |rs| && KeysOf(rs)[i] == KeyOf(rs[i])
    ensures KeyOf(rs[i]) in Left(rs, i) <==> KeyOf(rs[i]) !in KeySet(rs[..i])
    ensures Left(rs, i + 1) == Left(rs, i) - {KeyOf(rs[i])}
  {
    hide KeyOf, KeySet, Firsts;
    KeySetIs(rs);
    assert rs[i] in rs;
    Step(rs, i);
  }

  lemma NothingLeft(rs: seq<Record>, i: nat)
    requires i <= |rs| && Left(rs, i) == {}
    ensures Firsts(rs) == Firsts(rs[..i])
  {
    hide KeyOf, KeySet, Firsts;
    NoDifference(KeySet(rs), KeySet(rs[..i]));
    FirstsDone(rs, i);
  }

  lemma NoDifference(a: set<str>, b: set<str>)
    requires a - b == {}
    ensures a <= b
  {
    forall k | k in a
      ensures k in b
    {
      assert k in a - b || k in b;
    }
  }

  lemma MapMinus(m: map<str, Record>, k: str)
    ensures (m - {k}).Keys == m.Keys - {k}
    ensures k !in m ==> m.Keys == m.Keys - {k}
  {
  }

  /** The first records of rs[..i] stand in front, and from i on nothing has moved. */
  ghost predicate Compacted(b: seq<Record>, rs: seq<Record>, i: nat, j: nat) {
    && j <= i <= |rs| == |b| && b[..j] == Firsts(rs[..i]) && b[i..] == rs[i..]
  }

  lemma CompactStep(b: seq<Record>, rs: seq<Record>, i: nat, j: nat)
    requires Compacted(b, rs, i, j) && i < |b|
    ensures j <= i && b[i] == rs[i]
    ensures if KeyOf(rs[i]) in KeySet(rs[..i]) then Compacted(b, rs, i + 1, j)
            else Compacted(b[j := b[i]], rs, i + 1, j + 1)
  {
    hide KeyOf, Firsts, KeySet;
    Step(rs, i);
    assert b[i] == b[i..][0] == rs[i];
    var c := b[j := b[i]];
    assert c[..j + 1] == b[..j] + [b[i]];
    assert b[i + 1..] == b[i..][1..] && rs[i + 1..] == rs[i..][1..];
    assert c[i + 1..] == b[i + 1..];
  }

  lemma NoneCompacted(rs: seq<Record>)
    ensures Compacted(rs, rs, 0, 0) && Left(rs, 0) == KeySet(rs)
  {
    assert rs[..0] == [];
  }

  lemma MapSize(m: map<str, Record>)
    ensures |m| == |m.Keys| && (|m| == 0 ==> m.Keys == {})
  {
  }

  // ---------- What Dedup keeps ----------

  lemma {:induction false} KeySetFirsts(rs: seq<Record>)
    ensures KeySet(Firsts(rs)) == KeySet(rs)
    decreases |rs|
  {
    hide KeyOf, KeysOf;
    if rs != [] {
      var n := |rs| - 1;
      KeySetFirsts(rs[..n]);
      KeySetIs(rs[..n]);
      var f := Firsts(rs[..n]);
      assert (f + [rs[n]])[..|f|] == f;
      assert f + [] == f;
    }
  }

  /** A record stays exactly if none before it has its key, and those that stay keep their order. */
  lemma FirstsGrow(rs: seq<Record>, i: nat)
    requires i < |rs|
    ensures Firsts([]) == []
    ensures Firsts(rs[..i + 1])
            == Firsts(rs[..i]) + if exists j | 0 <= j < i :: KeyOf(rs[j]) == KeyOf(rs[i]) then [] else [rs[i]]
  {
    hide KeyOf;
    var p := rs[..i + 1];
    assert p[..i] == rs[..i];
    KeysOfAre(rs[..i], KeyOf(rs[i]));
  }

  lemma {:induction false} KeysOfAre(rs: seq<Record>, key: str)
    ensures key in KeysOf(rs) <==> exists j | 0 <= j < |rs| :: KeyOf(rs[j]) == key
    decreases |rs|
  {
    hide KeyOf;
    if rs != [] {
      var n := |rs| - 1;
      KeysOfAre(rs[..n], key);
      if exists j | 0 <= j < |rs| :: KeyOf(rs[j]) == key {
        var j :| 0 <= j < |rs| && KeyOf(rs[j]) == key;
        if j < n { assert rs[..n][j] == rs[j]; }
      }
    }
  }

  /** The lowest TTL of a key is one of its records' and none of them has a lower one. */
  lemma LowestIs(rs: seq<Record>, ttls: seq<uint32>, key: str)
    requires |rs| == |ttls| && key in KeySet(rs)
    ensures exists k | 0 <= k < |rs| :: KeyOf(rs[k]) == key && ttls[k] == Lowest(rs, ttls, key)
    ensures forall k | 0 <= k < |rs| && KeyOf(rs[k]) == key :: Lowest(rs, ttls, key) <= ttls[k]
  {
    hide KeyOf, Lowest;
    LowestSome(rs, ttls, key);
    forall k | 0 <= k < |rs| && KeyOf(rs[k]) == key
      ensures Lowest(rs, ttls, key) <= ttls[k]
    {
      LowestBelow(rs, ttls, k);
    }
  }

  lemma {:induction false} LowestSome(rs: seq<Record>, ttls: seq<uint32>, key: str)
    requires |rs| == |ttls| && key in KeySet(rs)
    ensures exists k | 0 <= k < |rs| :: KeyOf(rs[k]) == key && ttls[k] == Lowest(rs, ttls, key)
    decreases |rs|
  {
    hide KeyOf;
    var n := |rs| - 1;
    if key in KeySet(rs[..n]) {
      LowestSome(rs[..n], ttls[..n], key);
      var k :| 0 <= k < n && KeyOf(rs[..n][k]) == key && ttls[..n][k] == Lowest(rs[..n], ttls[..n], key);
      assert rs[k] == rs[..n][k] && ttls[k] == ttls[..n][k];
    }
    if KeyOf(rs[n]) == key { assert ttls[n] == ttls[n]; }
  }

  /** Removing duplicates again removes nothing. */
  lemma FirstsIdempotent(rs: seq<Record>)
    ensures Firsts(Firsts(rs)) == Firsts(rs)
  {
    hide KeyOf, Firsts, KeySet;
    KeySetFirsts(rs);
    FirstsCount(rs);
    FirstsCount(Firsts(rs));
  }

  /** ... and lowers no TTL: a record that is alone with its key has the lowest. */
  lemma {:induction false} LowestAlone(rs: seq<Record>, ttls: seq<uint32>, k: nat)
    requires |rs| == |ttls| && k < |rs| && Firsts(rs) == rs
    ensures KeyOf(rs[k]) in KeySet(rs) && Lowest(rs, ttls, KeyOf(rs[k])) == ttls[k]
    decreases |rs|
  {
    hide *;
    var n := |rs| - 1;
    FirstsAll(rs);
    KeySetSnoc(rs);
    if k < n {
      LowestAlone(rs[..n], ttls[..n], k);
      LowestBefore(rs, ttls, KeyOf(rs[k]));
    } else {
      LowestLast(rs, ttls);
    }
  }

  lemma LowestBefore(rs: seq<Record>, ttls: seq<uint32>, key: str)
    requires |rs| == |ttls| > 0 && key in KeySet(rs[..|rs| - 1]) && key in KeySet(rs) && key != KeyOf(rs[|rs| - 1])
    ensures Lowest(rs, ttls, key) == Lowest(rs[..|rs| - 1], ttls[..|rs| - 1], key)
  {
    hide KeyOf, KeySet;
  }

  lemma LowestLast(rs: seq<Record>, ttls: seq<uint32>)
    requires |rs| == |ttls| > 0 && KeyOf(rs[|rs| - 1]) !in KeySet(rs[..|rs| - 1]) && KeyOf(rs[|rs| - 1]) in KeySet(rs)
    ensures Lowest(rs, ttls, KeyOf(rs[|rs| - 1])) == ttls[|rs| - 1]
  {
    hide KeyOf, KeySet;
  }

  lemma KeySetSnoc(rs: seq<Record>)
    requires rs != []
    ensures KeySet(rs) == KeySet(rs[..|rs| - 1]) + {KeyOf(rs[|rs| - 1])}
  {
    hide KeyOf;
  }

  lemma FirstsAll(rs: seq<Record>)
    requires rs != [] && Firsts(rs) == rs
    ensures Firsts(rs[..|rs| - 1]) == rs[..|rs| - 1] && KeyOf(rs[|rs| - 1]) !in KeySet(rs[..|rs| - 1])
  {
    hide KeyOf, KeySet;
    var n := |rs| - 1;
    var f := Firsts(rs[..n]);
    FirstsCount(rs[..n]);
    KeySetIs(rs[..n]);
    assert |f| == n;
    assert rs == f + [rs[n]];
    assert f == rs[..n];
  }

  function Fold(c: byte): byte { if IsUpper(c) then c + 32 else c }

  /** Two names that differ only in the case of letters that are not escaped. */
  predicate SameName(a: str, b: str) {
    |a| == |b| && forall k | 0 <= k < |a| :: SameAt(a, b, k)
  }

  predicate SameAt(a: str, b: str, k: nat)
    requires k < |a| == |b|
  {
    if EscAfter(a[..k]) then a[k] == b[k] else Fold(a[k]) == Fold(b[k])
  }

  lemma {:induction false} EscLower(s: str)
    ensures EscAfter(LowerName(s)) <==> EscAfter(s)
    decreases |s|
  {
    if s != [] {
      var n := |s| - 1;
      EscLower(s[..n]);
      assert LowerName(s)[..n] == LowerName(s[..n]);
    }
  }

  lemma {:induction false} LowerSame(a: str, b: str)
    requires |a| == |b|
    ensures LowerName(a) == LowerName(b) <==> SameName(a, b)
    decreases |a|
  {
    hide EscAfter;
    if a != [] {
      var n := |a| - 1;
      var a1, b1 := a[..n], b[..n];
      LowerSame(a1, b1);
      EscLower(a1);
      EscLower(b1);
      LowerLast(a);
      LowerLast(b);
      SameLast(a, b);
      LastEqual(LowerName(a1), LowerName(b1), LowerName(a)[n], LowerName(b)[n]);
    }
  }

  lemma LowerLast(s: str)
    requires s != []
    ensures var n := |s| - 1;
            && LowerName(s)[n] == (if EscAfter(s[..n]) then s[n] else Fold(s[n]))
            && LowerName(s) == LowerName(s[..n]) + [LowerName(s)[n]]
  {
    hide EscAfter;
  }

  lemma LastEqual(x: str, y: str, c: byte, d: byte)
    requires |x| == |y|
    ensures x + [c] == y + [d] <==> x == y && c == d
  {
    assert (x + [c])[..|x|] == x && (y + [d])[..|x|] == y;
    assert (x + [c])[|x|] == c && (y + [d])[|x|] == d;
  }

  lemma SameLast(a: str, b: str)
    requires |a| == |b| && a != []
    ensures var n := |a| - 1;
            SameName(a, b) <==> SameName(a[..n], b[..n]) && SameAt(a, b, n)
  {
    hide EscAfter;
    var n := |a| - 1;
    forall k | 0 <= k < n
      ensures SameAt(a, b, k) <==> SameAt(a[..n], b[..n], k)
    {
      assert a[..n][..k] == a[..k];
    }
  }

  /** The shorter of two printable names does not run into the longer: a tab ends it. */
  lemma NoOverrun(a: str, b: str, x: str, y: str)
    requires Printable(a) && Printable(b) && |a| < |b|
    ensures Key(a, x) != Key(b, y)
  {
    hide LowerName;
    var n := |a|;
    assert Key(a, x)[n] == TAB && Key(b, y)[n] == LowerName(b)[n];
    assert Key(a, x)[..n] == LowerName(a) && Key(b, y)[..n] == LowerName(b)[..n];
    LowerIndex(b, n);
    if LowerName(a) == LowerName(b)[..n] {
      EscLower(a);
      EscLower(b[..n]);
      assert b[n] != TAB;
    }
  }

  lemma {:induction false} LowerIndex(s: str, k: nat)
    requires k < |s|
    ensures LowerName(s)[..k] == LowerName(s[..k])
    ensures LowerName(s)[k] == (if EscAfter(s[..k]) then s[k] else Fold(s[k]))
    decreases |s|
  {
    hide EscAfter;
    var n := |s| - 1;
    if k < n {
      LowerIndex(s[..n], k);
      assert s[..n][..k] == s[..k];
    }
  }

  /** Two printable records share a key if and only if they differ at most in the TTL and in the case of
      unescaped letters of the owner name. */
  lemma SharedKey(a: str, b: str, x: str, y: str)
    requires Printable(a) && Printable(b)
    ensures Key(a, x) == Key(b, y) <==> SameName(a, b) && x == y
  {
    hide LowerName, Printable, SameName;
    if |a| == |b| {
      LowerSame(a, b);
      var n := |a|;
      assert LowerName(a) == Key(a, x)[..n] && LowerName(b) == Key(b, y)[..n];
      assert x == Key(a, x)[n + 1..] && y == Key(b, y)[n + 1..];
    } else {
      SameLength(a, b);
      if |a| < |b| { NoOverrun(a, b, x, y); } else { NoOverrun(b, a, y, x); }
    }
  }

  lemma SameLength(a: str, b: str)
    requires |a| != |b|
    ensures !SameName(a, b)
  {
  }
}
