/** The predicted length against the packed one: compressedLen keeps the very suffixes the packer keeps. */
module LengthsExact {
  import opened Bytes
  import opened Names
  import opened PackNames
  import opened Compression
  import opened Records
  import opened UnpackRecords
  import opened LabelOps
  import opened MessageTypes
  import opened Lengths
  import opened Messages

  // ---------- Suffixes by labels ----------

  /** The map keys of a name: each of its suffixes. */
  function SufKeys(ls: seq<Label>): set<str> {
    if ls == [] then {} else {Join(ls)} + SufKeys(ls[1..])
  }

  /** The length of the longest suffix among keys. */
  function LongestKey(keys: set<str>, ls: seq<Label>): Option<nat> {
    if ls == [] then None
    else if Join(ls) in keys then Some(LabelsLen(ls))
    else LongestKey(keys, ls[1..])
  }

  /** Every key is the concatenation of plain labels, and its own suffixes are keys. */
  ghost predicate Closed(keys: set<str>) {
    forall k | k in keys :: ClosedKey(keys, k)
  }

  ghost predicate ClosedKey(keys: set<str>, k: str) {
    var ls := KeyLabels(k);
    ls != [] && PlainLabels(ls) && Join(ls) == k && (|ls| > 1 ==> Join(ls[1..]) in keys)
  }

  lemma PlainFirst(ls: seq<Label>)
    requires PlainLabels(ls) && ls != []
    ensures PlainLabels(ls[1..]) && 1 <= |ls[0]| <= 63 && DOT !in ls[0] && BACKSLASH !in ls[0]
    ensures ShortLabels(ls) && ShortLabels(ls[1..]) && KeyLabels(Join(ls)) == ls
  {
    hide Join, KeyLabels;
    assert ls[0] in ls;
    assert forall l | l in ls[1..] :: l in ls;
    KeyLabelsJoin(ls);
  }

  /** A key brings all its suffixes. */
  lemma {:induction false} ClosedSuffixes(keys: set<str>, ls: seq<Label>)
    requires Closed(keys) && PlainLabels(ls) && (ls == [] || Join(ls) in keys)
    ensures SufKeys(ls) <= keys
    decreases |ls|
  {
    hide PlainLabels, KeyLabels;
    if ls != [] {
      PlainFirst(ls);
      assert ClosedKey(keys, Join(ls));
      ClosedSuffixes(keys, ls[1..]);
    }
  }

  lemma {:induction false} ClosedGrows(keys: set<str>, ls: seq<Label>)
    requires Closed(keys) && PlainLabels(ls)
    ensures Closed(keys + SufKeys(ls))
    decreases |ls|
  {
    hide PlainLabels, KeyLabels, Join;
    if ls == [] {
      assert keys + {} == keys;
    } else {
      PlainFirst(ls);
      ClosedGrows(keys, ls[1..]);
      var more := keys + SufKeys(ls[1..]);
      forall k | k in keys + SufKeys(ls)
        ensures ClosedKey(keys + SufKeys(ls), k)
      {
        if k in more {
          assert ClosedKey(more, k);
        } else {
          assert k == Join(ls);
          assert |ls| > 1 ==> Join(ls[1..]) in SufKeys(ls[1..]);
        }
      }
    }
  }

  function Keys(mp: Option<Offsets>): set<str> {
    match mp
    case None => {}
    case Some(m) => m.Keys
  }

  /** Packing ls adds exactly its suffixes to the map, and saves exactly what the longest suffix found
      there is long. mp is the map before the name, mpx the map with some of its longer suffixes. */
  ghost predicate KeysPacked(ls: seq<Label>, off: nat, mp: Option<Offsets>, mpx: Option<Offsets>, compress: bool)
    requires ShortLabels(ls)
  {
    var o := PackName(ls, off, mpx, compress);
    && Keys(o.mp) == Keys(mpx) + SufKeys(ls)
    && |o.bytes| == LabelsLen(ls) + 1 - Saved(if compress then LongestKey(Keys(mp), ls) else None)
  }

  lemma KeysNone(off: nat, mp: Option<Offsets>, mpx: Option<Offsets>, compress: bool)
    ensures KeysPacked([], off, mp, mpx, compress)
  {
  }

  lemma KeysHit(ls: seq<Label>, off: nat, mp: Option<Offsets>, mpx: Option<Offsets>)
    requires PlainLabels(ls) && ShortLabels(ls) && ls != [] && Closed(Keys(mp))
    requires LongerOnly(mp, mpx, LabelsLen(ls)) && Hit(mpx, Join(ls))
    ensures KeysPacked(ls, off, mp, mpx, true)
  {
    hide Closed, PlainLabels, ShortLabels, LabelsLen, Join, SufKeys;
    assert Join(ls) in Keys(mp);
    ClosedSuffixes(Keys(mp), ls);
  }

  lemma KeysMore(ls: seq<Label>, off: nat, mp: Option<Offsets>, mpx: Option<Offsets>, compress: bool)
    requires ls != [] && ShortLabels(ls) && ShortLabels(ls[1..]) && mpx.Some? && off < MAX_OFFSET
    requires LongerOnly(mp, mpx, LabelsLen(ls)) && !(compress && Hit(mpx, Join(ls)))
    requires KeysPacked(ls[1..], off + |ls[0]| + 1, mp, Record(mpx, Join(ls), off), compress)
    ensures KeysPacked(ls, off, mp, mpx, compress)
  {
    hide PackName, LabelsLen, Join, SufKeys, ShortLabels;
    PackNameMore(ls, off, mpx, compress);
    SufKeysMore(ls);
    assert Keys(Record(mpx, Join(ls), off)) == Keys(mpx) + {Join(ls)};
    assert compress ==> Join(ls) !in Keys(mp);
  }

  lemma SufKeysMore(ls: seq<Label>)
    requires ls != []
    ensures SufKeys(ls) == {Join(ls)} + SufKeys(ls[1..]) && LabelsLen(ls) == |ls[0]| + 1 + LabelsLen(ls[1..])
  {
  }

  lemma {:induction false} PackedKeys(ls: seq<Label>, off: nat, mp: Option<Offsets>, mpx: Option<Offsets>,
                                      compress: bool)
    requires PlainLabels(ls) && ShortLabels(ls) && mp.Some? && LongerOnly(mp, mpx, LabelsLen(ls)) && Closed(Keys(mp))
    requires off + |PackName(ls, off, mpx, compress).bytes| <= MAX_OFFSET
    ensures KeysPacked(ls, off, mp, mpx, compress)
    decreases |ls|
  {
    hide Closed, PlainLabels, ShortLabels, PackName, Join, KeysPacked;
    if ls == [] {
      KeysNone(off, mp, mpx, compress);
    } else if compress && Hit(mpx, Join(ls)) {
      KeysHit(ls, off, mp, mpx);
    } else {
      PlainFirst(ls);
      PackNameMore(ls, off, mpx, compress);
      PackedKeys(ls[1..], off + |ls[0]| + 1, mp, Record(mpx, Join(ls), off), compress);
      KeysMore(ls, off, mp, mpx, compress);
    }
  }

  // ---------- Suffixes by presentation form ----------

  /** In a name without escapes NextLabel stops behind the next dot. */
  lemma {:induction false} NextStartPlain(s: str, i: nat, e: nat)
    requires i <= e < |s| && s[e] == DOT && forall k | i <= k < e :: s[k] != DOT && s[k] != BACKSLASH
    ensures NextStart(s, i, false) == if e + 1 < |s| then Some(e + 1) else None
    decreases e - i
  {
    if i < e {
      NextStartPlain(s, i + 1, e);
    }
  }

  lemma NextStartLabel(s: str, off: nat, ls: seq<Label>)
    requires off <= |s| && s[off..] == Join(ls) && ls != [] && PlainLabels(ls)
    ensures var e := off + |ls[0]| + 1;
            e <= |s| && s[e..] == Join(ls[1..])
            && NextStart(s, off, false) == if |ls| > 1 then Some(e) else None
  {
    hide NextStart, PlainLabels;
    PlainFirst(ls);
    var e := off + |ls[0]|;
    var t := s[off..];
    assert t == ls[0] + [DOT] + Join(ls[1..]);
    forall k | off <= k < e
      ensures s[k] != DOT && s[k] != BACKSLASH
    {
      assert s[k] == t[k - off] == ls[0][k - off];
      assert s[k] in ls[0];
    }
    assert s[e] == t[|ls[0]|] == DOT;
    assert s[e + 1..] == t[|ls[0]| + 1..];
    NextStartPlain(s, off, e);
  }

  lemma {:induction false} SuffixesPlain(s: str, off: nat, ls: seq<Label>, keys: set<str>)
    requires off <= |s| && s[off..] == Join(ls) && ls != [] && PlainLabels(ls) && [] !in keys
    ensures SuffixesFrom(s, off) == SufKeys(ls)
    ensures SearchFrom(keys, s, off) == LongestKey(keys, ls)
    decreases |ls|
  {
    hide NextStart, PlainLabels, Join;
    NextStartLabel(s, off, ls);
    if |ls| > 1 {
      PlainFirst(ls);
      SuffixesPlain(s, off + |ls[0]| + 1, ls[1..], keys);
    } else {
      assert ls[1..] == [];
    }
  }

  // ---------- One name, one record, one message ----------

  /** The root name takes one octet, but is counted as two. */
  function Roots(s: str): nat { if s == ROOT then 1 else 0 }

  lemma ClosedPlain(keys: set<str>)
    requires Closed(keys)
    ensures [] !in keys && ROOT !in keys
  {
    hide Closed, PlainLabels;
    if [] in keys {
      ClosedOne(keys, []);
    }
    if ROOT in keys {
      ClosedOne(keys, ROOT);
      assert ParseFrom([], ROOT, true) == ParseFrom([], [], false).Prepend([[]]);
      var ls := KeyLabels(ROOT);
      PlainFirst(ls);
    }
  }

  lemma ClosedOne(keys: set<str>, k: str)
    requires Closed(keys) && k in keys
    ensures ClosedKey(keys, k)
  {
  }

  /** One name: the two keep the same suffixes, and the count is right but for the root. */
  lemma NameExact(s: str, off: nat, mp: Option<Offsets>, compress: bool)
    requires GoodName(s, true) && mp.Some? && Closed(Keys(mp))
    requires off + |PackName(Labels(s), off, mp, compress).bytes| <= MAX_OFFSET
    ensures var o := PackName(Labels(s), off, mp, compress);
            && o.mp.Some? && Closed(Keys(o.mp)) && Keys(o.mp) == Keys(mp) + Suffixes(s)
            && |o.bytes| + Roots(s) == |s| + 1 - Saved(if compress then Search(Keys(mp), s) else None)
  {
    hide PlainLabels, ShortLabels, Closed, Parse, Labels, NoBackslash, ValidName;
    LabelsShape(s);
    var ls := Labels(s);
    if s == ROOT {
      ClosedPlain(Keys(mp));
      assert Keys(mp) + {} == Keys(mp);
    } else {
      NameTwice(s, ls, Keys(mp));
      PackedKeys(ls, off, mp, mp, compress);
      ClosedGrows(Keys(mp), ls);
    }
  }

  lemma NameTwice(s: str, ls: seq<Label>, keys: set<str>)
    requires s != ROOT && ls != [] && PlainLabels(ls) && Join(ls) == s && Closed(keys)
    ensures Suffixes(s) == SufKeys(ls) && Search(keys, s) == LongestKey(keys, ls)
  {
    hide PlainLabels, Join, Closed;
    assert s[0..] == s;
    ClosedPlain(keys);
    SuffixesPlain(s, 0, ls, keys);
    assert s != [] by { PlainFirst(ls); JoinNonempty(ls); }
  }

  lemma JoinNonempty(ls: seq<Label>)
    requires ls != []
    ensures Join(ls) != []
  {
  }

  lemma LabelsShape(s: str)
    requires ValidName(s) && NoBackslash(s)
    ensures Parse(s).Good? && ShortLabels(Labels(s)) && PlainLabels(Labels(s)) && (s == ROOT <==> Labels(s) == [])
    ensures s != ROOT ==> Join(Labels(s)) == s && |s| == LabelsLen(Labels(s))
  {
    PlainName(s);
  }

  function DataRoots(d: RData): nat {
    match Final(d)
    case Some((n, _)) => Roots(n)
    case None => 0
  }

  lemma DataExact(d: RData, off: nat, mp: Option<Offsets>)
    requires GoodData(d, true) && mp.Some? && Closed(Keys(mp))
    requires off + |PackData(d, off, mp, true).bytes| <= MAX_OFFSET
    ensures var o := PackData(d, off, mp, true);
            && o.mp.Some? && Closed(Keys(o.mp)) && Keys(o.mp) == Keys(mp) + TypeSuffixes(d)
            && |o.bytes| + DataRoots(d) == DataChars(d) - Saved(SearchType(Keys(mp), d))
  {
    hide Closed, Parse, Labels, PackName, PackNamed, GoodName, FitName, Suffixes, Search, U16;
    if Final(d).Some? {
      DataShape(d, off, mp, true);
      var (n, c) := Final(d).value;
      hide PackData;
      NameExact(n, off + |Fixed(d)|, mp, c);
    } else {
      assert Keys(mp) + {} == Keys(mp);
    }
  }

  function RecRoots(r: Rec): nat { Roots(r.name) + DataRoots(r.data) }

  lemma RecExact(r: Rec, off: nat, mp: Option<Offsets>, l: int)
    requires GoodRec(r, true) && mp.Some? && Closed(Keys(mp))
    requires off + |PackRec(r, off, mp, true).bytes| <= MAX_OFFSET
    ensures var o := PackRec(r, off, mp, true);
            && o.mp.Some? && Closed(Keys(o.mp))
            && LenRec(r, Tally(l, Keys(mp)), true) == Tally(l + |o.bytes| + RecRoots(r), Keys(o.mp))
  {
    hide Closed, Parse, Labels, PackName, PackNamed, GoodRec, GoodData, GoodName, FitRec, FitData, FitName, Suffixes,
         Search, PackRec, PackData, RdataLen, DataChars, TypeSuffixes,
         SearchType, Roots, DataRoots;
    RecShape(r, off, mp, true);
    var h := PackName(Labels(r.name), off, mp, true);
    NameExact(r.name, off, mp, true);
    DataExact(r.data, off + |h.bytes| + 10, h.mp);
  }

  function RecsRoots(rs: seq<Rec>): nat {
    if rs == [] then 0 else RecRoots(rs[0]) + RecsRoots(rs[1..])
  }

  lemma {:induction false} RecsExact(rs: seq<Rec>, off: nat, mp: Option<Offsets>, l: int)
    requires GoodRecs(rs, true) && mp.Some? && Closed(Keys(mp))
    requires off + |PackRecs(rs, off, mp, true).bytes| <= MAX_OFFSET
    ensures var o := PackRecs(rs, off, mp, true);
            && o.mp.Some? && Closed(Keys(o.mp))
            && LenRecs(rs, Tally(l, Keys(mp)), true) == Tally(l + |o.bytes| + RecsRoots(rs), Keys(o.mp))
    decreases |rs|
  {
    hide Closed, GoodRec, GoodRecs, FitRecs, PackRec, LenRec, RecRoots;
    if rs != [] {
      hide PackRecs;
      GoodFirstRec(rs, true);
      RecsStep(rs, off, mp, true);
      var o := PackRec(rs[0], off, mp, true);
      RecExact(rs[0], off, mp, l);
      RecsExact(rs[1..], off + |o.bytes|, o.mp, l + |o.bytes| + RecRoots(rs[0]));
    }
  }

  /** How much too long the predicted length of the questions is: every root name, and every octet that
      compression saves on a question, since compressedLen looks up no question name. */
  function QuestionsExcess(qs: seq<Question>, seen: set<str>): int {
    if qs == [] then 0
    else Roots(qs[0].name) + Saved(Search(seen, qs[0].name)) + QuestionsExcess(qs[1..], seen + Suffixes(qs[0].name))
  }

  lemma {:induction false} QuestionsExact(qs: seq<Question>, off: nat, mp: Option<Offsets>, l: int)
    requires GoodQuestions(qs, true) && mp.Some? && Closed(Keys(mp))
    requires off + |PackQuestions(qs, off, mp, true).bytes| <= MAX_OFFSET
    ensures var o := PackQuestions(qs, off, mp, true);
            && o.mp.Some? && Closed(Keys(o.mp))
            && LenQuestions(qs, Tally(l, Keys(mp)), true)
               == Tally(l + |o.bytes| + QuestionsExcess(qs, Keys(mp)), Keys(o.mp))
    decreases |qs|
  {
    hide Closed, GoodName, FitName, GoodQuestions, FitQuestions, PackQuestion, Suffixes, Search, Roots, Parse, Labels;
    if qs != [] {
      hide PackQuestions;
      GoodFirstQuestion(qs, true);
      PackedAsLabels(qs[0].name, off, mp, true);
      QuestionsStep(qs, off, mp, true);
      QuestionShape(qs[0], off, mp, true);
      var o := PackQuestion(qs[0], off, mp, true);
      NameExact(qs[0].name, off, mp, true);
      QuestionsExact(qs[1..], off + |o.bytes|, o.mp, LenQuestion(qs[0], Tally(l, Keys(mp)), true).l);
    }
  }

  function MsgExcess(dns: Msg): int {
    QuestionsExcess(dns.question, {}) + RecsRoots(dns.Recs())
  }

  /** The predicted compressed length is the packed length plus exactly the excess, and the suffixes
      predicted are exactly the keys of the packer's map. */
  lemma LenExact(dns: Msg)
    requires GoodMsg(dns) && dns.compress && |PackMsg(dns).bytes| <= MAX_OFFSET
    ensures LenMsg(dns, true) == Tally(|PackMsg(dns).bytes| + MsgExcess(dns), Keys(PackMsg(dns).mp))
  {
    hide GoodRecs, GoodQuestions, PackQuestions, PackRecs, LenRecs, LenQuestions, HeaderBytes, RecsRoots,
         QuestionsExcess, Bits;
    assert Keys(StartMap(dns)) == {};
    var q := PackQuestions(dns.question, 12, StartMap(dns), true);
    QuestionsExact(dns.question, 12, StartMap(dns), 12);
    RecsExact(dns.Recs(), 12 + |q.bytes|, q.mp, 12 + |q.bytes| + QuestionsExcess(dns.question, {}));
  }

  /** With at most one question the fast length is never too short, and it is exact if and only if the
      root is not among the names. */
  lemma LenExactOneQuestion(dns: Msg)
    requires GoodMsg(dns) && dns.compress && |PackMsg(dns).bytes| <= MAX_OFFSET && |dns.question| <= 1
    ensures LenMsg(dns, true).l >= |PackMsg(dns).bytes|
    ensures LenMsg(dns, true).l == |PackMsg(dns).bytes| <==> ROOT !in AllNames(dns)
  {
    hide LenMsg, PackMsg, GoodMsg, Suffixes;
    LenExact(dns);
    NothingSaved(dns.question);
    NoRoots(dns.Recs());
  }

  /** All names in a message. */
  function AllNames(dns: Msg): seq<str> {
    QuestionNames(dns.question) + RecNames(dns.Recs())
  }

  function QuestionNames(qs: seq<Question>): seq<str> {
    if qs == [] then [] else [qs[0].name] + QuestionNames(qs[1..])
  }

  function RecNames(rs: seq<Rec>): seq<str> {
    if rs == [] then []
    else [rs[0].name] + (if Final(rs[0].data).Some? then [Final(rs[0].data).value.0] else []) + RecNames(rs[1..])
  }

  lemma NothingSaved(qs: seq<Question>)
    requires |qs| <= 1
    ensures QuestionsExcess(qs, {}) >= 0
    ensures QuestionsExcess(qs, {}) == 0 <==> ROOT !in QuestionNames(qs)
  {
    if qs != [] {
      FoundNothing(qs[0].name, 0);
      assert QuestionNames(qs) == [qs[0].name];
    }
  }

  lemma {:induction false} FoundNothing(s: str, off: nat)
    requires off <= |s|
    ensures SearchFrom({}, s, off) == None
    decreases |s| - off
  {
    match NextStart(s, off, false)
    case None =>
    case Some(k) => FoundNothing(s, k);
  }

  lemma {:induction false} NoRoots(rs: seq<Rec>)
    ensures RecsRoots(rs) == 0 <==> ROOT !in RecNames(rs)
    decreases |rs|
  {
    if rs != [] {
      NoRoots(rs[1..]);
    }
  }
}
