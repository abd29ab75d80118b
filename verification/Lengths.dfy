/** compressedLen and its helpers (msg.go, zcompress.go): the size of a packed message, predicted
    without packing it. */
module Lengths {
  import opened Bytes
  import opened Names
  import opened Records
  import opened LabelOps
  import opened MessageTypes

  /** The suffixes seen so far; the values are their lengths. */
  class Seen {
    var m: map<str, nat>

    constructor ()
      ensures m == map[]
    {
      m := map[];
    }
  }

  // ---------- Specification, by presentation form ----------

  function SuffixesFrom(s: str, off: nat): set<str>
    requires off <= |s|
    decreases |s| - off
  {
    {s[off..]} + match NextStart(s, off, false)
                 case None => {}
                 case Some(k) => SuffixesFrom(s, k)
  }

  function Suffixes(s: str): set<str> {
    if s == ROOT then {} else SuffixesFrom(s, 0)
  }

  /** The length of the longest suffix of s[off..], cut at a label, that was seen. */
  function SearchFrom(seen: set<str>, s: str, off: nat): Option<nat>
    requires off <= |s|
    decreases |s| - off
  {
    if s[off..] in seen then Some(|s| - off)
    else
      match NextStart(s, off, false)
      case None => if [] in seen then Some(0) else None
      case Some(k) => SearchFrom(seen, s, k)
  }

  function Search(seen: set<str>, s: str): Option<nat> {
    if s == [] then None else SearchFrom(seen, s, 0)
  }

  /** What a hit saves: the suffix and the final zero give way to two octets. */
  function Saved(found: Option<nat>): int {
    match found
    case None => 0
    case Some(k) => k - 1
  }

  // ---------- The helpers ----------

  /** The map has grown by the suffixes in added, each with its length. */
  ghost predicate Grown(before: map<str, nat>, now: map<str, nat>, added: set<str>) {
    && now.Keys == before.Keys + added
    && (forall k | k in before :: now[k] == before[k])
    && (forall k | k in now && k !in before :: now[k] == |k|)
  }

  lemma GrownNone(m: map<str, nat>)
    ensures Grown(m, m, {})
  {
  }

  lemma GrownOne(before: map<str, nat>, now: map<str, nat>, added: set<str>, k: str)
    requires Grown(before, now, added)
    ensures Grown(before, if k in now then now else now[k := |k|], {k} + added)
  {
  }

  lemma GrownKeys(before: map<str, nat>, now: map<str, nat>, added: set<str>)
    requires Grown(before, now, added)
    ensures now.Keys == before.Keys + added
  {
  }

  /** Places within s. */
  predicate Placed(s: str, idx: seq<nat>) {
    forall k | 0 <= k < |idx| :: idx[k] <= |s|
  }

  /** The suffixes of s that start at the given places. */
  function SuffixSet(s: str, idx: seq<nat>): set<str>
    requires Placed(s, idx)
  {
    if idx == [] then {} else {s[idx[0]..]} + SuffixSet(s, idx[1..])
  }

  lemma SuffixSetFrom(s: str, idx: seq<nat>, j: nat)
    requires Placed(s, idx) && j < |idx|
    ensures idx[j] <= |s| && Placed(s, idx[j..]) && Placed(s, idx[j + 1..])
    ensures SuffixSet(s, idx[j..]) == {s[idx[j]..]} + SuffixSet(s, idx[j + 1..])
  {
    assert idx[j..][0] == idx[j] && idx[j..][1..] == idx[j + 1..];
  }

  lemma SuffixSetNone(s: str)
    ensures Placed(s, []) && SuffixSet(s, []) == {}
  {
  }

  method CompressionLenHelper(c: Seen, s: str)
    modifies c
    ensures Grown(old(c.m), c.m, Suffixes(s))
    ensures c.m.Keys == old(c.m).Keys + Suffixes(s)
  {
    hide *;
    ghost var m0 := c.m;
    GrownNone(m0);
    SuffixesSplit(s);
    var lbs := Split(s);
    if lbs == None {
      GrownKeys(m0, c.m, {});
      return;
    }
    var idx := lbs.value;
    assert idx[0..] == idx && idx[|idx|..] == [];
    SuffixSetNone(s);
    for j := |idx| downto 0
      invariant Placed(s, idx[j..]) && Grown(m0, c.m, SuffixSet(s, idx[j..]))
    {
      SuffixSetFrom(s, idx, j);
      GrownOne(m0, c.m, SuffixSet(s, idx[j + 1..]), s[idx[j]..]);
      var pref := s[idx[j]..];
      if pref !in c.m {
        c.m := c.m[pref := |pref|];
      }
    }
    GrownKeys(m0, c.m, Suffixes(s));
  }

  /** The suffixes start where the labels do. */
  lemma {:induction false} SuffixesAre(s: str, off: nat)
    requires off <= |s|
    ensures Placed(s, [off] + Starts(s, off))
    ensures SuffixesFrom(s, off) == SuffixSet(s, [off] + Starts(s, off))
    decreases |s| - off
  {
    var idx := [off] + Starts(s, off);
    assert idx[0] == off && idx[1..] == Starts(s, off);
    match NextStart(s, off, false)
    case None =>
      assert Starts(s, off) == [];
    case Some(n) =>
      assert Starts(s, off) == [n] + Starts(s, n);
      SuffixesAre(s, n);
  }

  lemma SuffixesSplit(s: str)
    ensures Placed(s, [0] + Starts(s, 0))
    ensures Suffixes(s) == if s == ROOT then {} else SuffixSet(s, [0] + Starts(s, 0))
  {
    hide Starts, SuffixSet, SuffixesFrom;
    SuffixesAre(s, 0);
  }

  method CompressionLenSearch(c: Seen, s: str) returns (n: int, ok: bool)
    ensures ok == Search(c.m.Keys, s).Some?
    ensures n == if ok then Search(c.m.Keys, s).value else 0
  {
    var off, end := 0, false;
    if s == [] {
      return 0, false;
    }
    while true
      invariant off <= |s|
      invariant end ==> off == |s| && Search(c.m.Keys, s) == if [] in c.m then Some(0) else None
      invariant !end ==> off < |s| && Search(c.m.Keys, s) == SearchFrom(c.m.Keys, s, off)
      decreases !end, |s| - off
    {
      assert s[|s|..] == [];
      if s[off..] in c.m {
        return |s[off..]|, true;
      }
      if end {
        break;
      }
      off, end := NextLabel(s, off);
    }
    return 0, false;
  }

  // ---------- compressedLen ----------

  /** The length so far and the suffixes seen so far. */
  datatype Tally = Tally(l: int, seen: set<str>)

  /** compressionLenSearchType: SRV targets are not compressed. */
  function SearchType(seen: set<str>, d: RData): Option<nat> {
    match Final(d)
    case Some((n, true)) => Search(seen, n)
    case _ => None
  }

  /** compressionLenHelperType */
  function TypeSuffixes(d: RData): set<str> {
    match Final(d)
    case Some((n, _)) => Suffixes(n)
    case None => {}
  }

  function LenRec(r: Rec, t: Tally, compress: bool): Tally {
    var full := t.l + RecChars(r);
    if compress then
      var seen1 := t.seen + Suffixes(r.name);
      Tally(full - Saved(Search(t.seen, r.name)) - Saved(SearchType(seen1, r.data)), seen1 + TypeSuffixes(r.data))
    else Tally(full, t.seen)
  }

  function LenRecs(rs: seq<Rec>, t: Tally, compress: bool): Tally {
    if rs == [] then t else LenRecs(rs[1..], LenRec(rs[0], t, compress), compress)
  }

  function LenQuestion(q: Question, t: Tally, compress: bool): Tally {
    Tally(t.l + |q.name| + 1 + 2 + 2, if compress then t.seen + Suffixes(q.name) else t.seen)
  }

  function LenQuestions(qs: seq<Question>, t: Tally, compress: bool): Tally {
    if qs == [] then t else LenQuestions(qs[1..], LenQuestion(qs[0], t, compress), compress)
  }

  function LenMsg(dns: Msg, compress: bool): Tally {
    LenRecs(dns.Recs(), LenQuestions(dns.question, Tally(12, {}), compress), compress)
  }

  lemma LenRecsAppend(a: seq<Rec>, b: seq<Rec>, t: Tally, compress: bool)
    ensures LenRecs(a + b, t, compress) == LenRecs(b, LenRecs(a, t, compress), compress)
  {
    if a == [] {
      assert a + b == b;
    } else {
      assert (a + b)[1..] == a[1..] + b;
      LenRecsAppend(a[1..], b, LenRec(a[0], t, compress), compress);
    }
  }

  method CompressionLenSearchType(c: Seen, d: RData) returns (n: int, ok: bool)
    ensures ok == SearchType(c.m.Keys, d).Some?
    ensures n == if ok then SearchType(c.m.Keys, d).value else 0
  {
    match d
    case NS(s) => n, ok := CompressionLenSearch(c, s);
    case CNAME(s) => n, ok := CompressionLenSearch(c, s);
    case PTR(s) => n, ok := CompressionLenSearch(c, s);
    case MX(_, s) => n, ok := CompressionLenSearch(c, s);
    case _ => return 0, false;
  }

  method CompressionLenHelperType(c: Seen, d: RData)
    modifies c
    ensures c.m.Keys == old(c.m).Keys + TypeSuffixes(d)
  {
    match d
    case NS(s) => CompressionLenHelper(c, s);
    case CNAME(s) => CompressionLenHelper(c, s);
    case PTR(s) => CompressionLenHelper(c, s);
    case MX(_, s) => CompressionLenHelper(c, s);
    case SRV(_, _, _, s) => CompressionLenHelper(c, s);
    case _ =>
  }

  lemma LenRecsStep(rs: seq<Rec>, t: Tally, compress: bool)
    requires rs != []
    ensures LenRecs(rs, t, compress) == LenRecs(rs[1..], LenRec(rs[0], t, compress), compress)
  {
    hide LenRec;
  }

  lemma LenRecsNone(t: Tally, compress: bool)
    ensures LenRecs([], t, compress) == t
  {
  }

  /** One round of the loops over the records. */
  method RecordLen(r: Rec, l: int, c: Seen, compress: bool) returns (l1: int)
    modifies c
    ensures Tally(l1, c.m.Keys) == LenRec(r, Tally(l, old(c.m).Keys), compress)
  {
    hide Suffixes, Search, TypeSuffixes, SearchType, RecChars;
    l1 := l + RecChars(r);
    if compress {
      var k, ok := CompressionLenSearch(c, r.name);
      if ok {
        l1 := l1 + 1 - k;
      }
      CompressionLenHelper(c, r.name);
      k, ok := CompressionLenSearchType(c, r.data);
      if ok {
        l1 := l1 + 1 - k;
      }
      CompressionLenHelperType(c, r.data);
    }
  }

  /** One of the three identical loops over the sections of records. */
  method SectionLen(rrs: seq<RR>, l: int, c: Seen, compress: bool) returns (l1: int)
    modifies c
    ensures Tally(l1, c.m.Keys) == LenRecs(RecsOf(rrs), Tally(l, old(c.m).Keys), compress)
  {
    hide *;
    l1 := l;
    ghost var rs := RecsOf(rrs);
    ghost var goal := LenRecs(rs, Tally(l, c.m.Keys), compress);
    assert rs[0..] == rs;
    for i := 0 to |rrs|
      invariant LenRecs(rs[i..], Tally(l1, c.m.Keys), compress) == goal
    {
      assert rs[i..][0] == rrs[i].rec && rs[i..][1..] == rs[i + 1..];
      LenRecsStep(rs[i..], Tally(l1, c.m.Keys), compress);
      l1 := RecordLen(rrs[i].rec, l1, c, compress);
    }
    assert rs[|rrs|..] == [];
    LenRecsNone(Tally(l1, c.m.Keys), compress);
  }

  method CompressedLen(dns: Msg, compress: bool) returns (l: int)
    ensures l == LenMsg(dns, compress).l
  {
    hide Suffixes;
    l := 12;
    var c := new Seen();
    ghost var goal := LenQuestions(dns.question, Tally(12, {}), compress);
    assert c.m.Keys == {};
    assert dns.question[0..] == dns.question;
    for i := 0 to |dns.question|
      invariant fresh(c)
      invariant LenQuestions(dns.question[i..], Tally(l, c.m.Keys), compress) == goal
    {
      assert dns.question[i..][0] == dns.question[i] && dns.question[i..][1..] == dns.question[i + 1..];
      l := l + |dns.question[i].name| + 1 + 2 + 2;
      if compress {
        CompressionLenHelper(c, dns.question[i].name);
      }
    }
    assert dns.question[|dns.question|..] == [];
    ghost var a, n, e := RecsOf(dns.answer), RecsOf(dns.ns), RecsOf(dns.extra);
    LenRecsAppend(a, n, goal, compress);
    LenRecsAppend(a + n, e, goal, compress);
    l := SectionLen(dns.answer, l, c, compress);
    l := SectionLen(dns.ns, l, c, compress);
    l := SectionLen(dns.extra, l, c, compress);
  }
}
