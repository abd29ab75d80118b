/** Which messages PackBuffer refuses and with what error. Each name must be empty or end in a dot and have no
    empty and no overlong label, and each address must have one of the sizes of its type; what offends first
    decides the error. Only a known key can let an offending label pass, and only if names are escaped. */
module PackErrors {
  import opened Bytes
  import opened Names
  import opened PackNames
  import opened EscapedNames
  import opened Records
  import opened MessageTypes
  import opened Messages
  import opened Misread

  // ---------- Names without escapes ----------

  /** No two dots in a row, and no 64 characters in a row without one. */
  predicate Tidy(s: str) {
    && (forall k | 0 < k < |s| :: !(s[k - 1] == 46 && s[k] == 46))
    && (forall k | 0 <= k <= |s| - 64 :: DotWithin(s, k))
  }

  predicate DotWithin(s: str, k: nat) {
    exists j | k <= j < k + 64 && j < |s| :: s[j] == 46
  }

  /** A name without escapes is read without error exactly when it is tidy. */
  lemma TidyParses(s: str)
    requires NoBackslash(s) && IsFqdn(s)
    ensures Parse(s).Good? <==> Tidy(s)
  {
    TidyFrom([], s, true);
    assert [] + s == s;
  }

  lemma {:induction false} TidyFrom(cur: Label, s: str, first: bool)
    requires NoBackslash(s) && DOT !in cur && if s == [] then cur == [] else s[|s| - 1] == DOT
    ensures ParseFrom(cur, s, first).Good? <==> Tidy(cur + s) && !(cur == [] && !first && s != [] && s[0] == DOT)
    decreases |s|
  {
    hide ParseFrom, Tidy;
    if s == [] {
      NothingTidy(cur, first);
    } else {
      NoBackslashRest(s);
      TidyChar(cur, s, first);
      var t := s[1..];
      if s[0] != DOT {
        DotLast(s);
        Concat3(cur, [s[0]], t);
        TidyFrom(cur + [s[0]], t, first);
      } else {
        TidyFrom([], t, false);
        assert [] + t == t;
        Concat3(cur, [DOT], t);
        TidyDot(cur, t);
      }
    }
  }

  lemma DotLast(s: str)
    requires s != [] && s[|s| - 1] == DOT && s[0] != DOT
    ensures s[1..] != [] && s[1..][|s[1..]| - 1] == DOT
  {
  }

  lemma NothingTidy(cur: Label, first: bool)
    ensures ParseFrom(cur, [], first).Good?
    ensures cur == [] ==> Tidy(cur + [])
  {
  }

  lemma TidyChar(cur: Label, s: str, first: bool)
    requires s != [] && s[0] != BACKSLASH
    ensures s[0] != DOT ==> ParseFrom(cur, s, first) == ParseFrom(cur + [s[0]], s[1..], first)
    ensures s[0] == DOT ==>
              (ParseFrom(cur, s, first).Good?
               <==> (cur != [] || first) && |cur| < 64 && ParseFrom([], s[1..], false).Good?)
  {
  }

  lemma TidyDot(cur: Label, t: str)
    requires DOT !in cur
    ensures Tidy(cur + [DOT] + t) <==> |cur| < 64 && Tidy(t) && !(t != [] && t[0] == DOT)
  {
    var s := cur + [DOT] + t;
    var n := |cur| + 1;
    assert s[|cur|] == DOT && s[n..] == t;
    if Tidy(s) {
      if |cur| >= 64 { LongFirst(cur, t); }
      TidySuffix(s, n);
      if t != [] { assert s[n - 1] == DOT && s[n] == t[0]; }
    }
    if |cur| < 64 && Tidy(t) && !(t != [] && t[0] == DOT) {
      forall k | 0 < k < |s|
        ensures !(s[k - 1] == 46 && s[k] == 46)
      {
        if k < n {
          assert s[k - 1] == cur[k - 1] && cur[k - 1] in cur;
        } else if k > n {
          assert s[k - 1] == t[k - 1 - n] && s[k] == t[k - n];
        }
      }
      forall k | 0 <= k <= |s| - 64
        ensures DotWithin(s, k)
      {
        if k >= n {
          assert DotWithin(t, k - n);
          var j :| k - n <= j < k - n + 64 && j < |t| && t[j] == 46;
          assert s[n + j] == 46;
        }
      }
    }
  }

  lemma LongFirst(cur: Label, t: str)
    requires DOT !in cur && |cur| >= 64
    ensures !Tidy(cur + [DOT] + t)
  {
    var s := cur + [DOT] + t;
    forall j | 0 <= j < 64
      ensures s[j] != 46
    {
      assert s[j] == cur[j] && cur[j] in cur;
    }
    assert !DotWithin(s, 0);
  }

  lemma TidySuffix(s: str, n: nat)
    requires Tidy(s) && n <= |s|
    ensures Tidy(s[n..])
  {
    var t := s[n..];
    forall k | 0 < k < |t|
      ensures !(t[k - 1] == 46 && t[k] == 46)
    {
      assert t[k - 1] == s[n + k - 1] && t[k] == s[n + k];
    }
    forall k | 0 <= k <= |t| - 64
      ensures DotWithin(t, k)
    {
      assert DotWithin(s, n + k);
      var j :| n + k <= j < n + k + 64 && j < |s| && s[j] == 46;
      assert t[j - n] == 46;
    }
  }

  // ---------- What lets an offending label pass ----------

  /** A name with an empty or overlong label is refused, unless compress is on and the key of one of the labels
      before it is known when the name comes up. */
  lemma RefusedExactly(s: str, off: nat, mp: Option<Offsets>, compress: bool)
    ensures Refused(s, off, mp, compress)
            <==> Parse(s).Bad? && !(compress && KeyKnown(s, compress, mp))
  {
    hide *;
    var ls, keys := Parse(s).labels, UsedKeys(s, compress);
    UsedShrink(s, compress);
    NewerNone(mp, keys);
    PointedExactly(ls, keys, off, mp, mp, compress);
    RefusedIs(s, off, mp, compress);
    UsedHit(s, mp, compress);
  }

  /** The key of one of the labels before the offending one is known. */
  predicate KeyKnown(s: str, compress: bool, mp: Option<Offsets>) {
    exists i: nat | i < |Parse(s).labels| && i < |NameKeys(s, compress)| :: Hit(mp, NameKeys(s, compress)[i])
  }

  lemma RefusedIs(s: str, off: nat, mp: Option<Offsets>, compress: bool)
    ensures Refused(s, off, mp, compress)
            <==> Parse(s).Bad? && !Pointed(Parse(s).labels, UsedKeys(s, compress), off, mp, compress)
  {
  }

  lemma UsedHit(s: str, mp: Option<Offsets>, compress: bool)
    ensures SomeHit(UsedKeys(s, compress), mp)
            <==> KeyKnown(s, compress, mp)
  {
    hide Parse, NameKeys, UsedKeys, Hit;
    var us, ks := UsedKeys(s, compress), NameKeys(s, compress);
    assert forall i | 0 <= i < |us| :: us[i] == ks[i];
  }

  predicate SomeHit(keys: seq<str>, mp: Option<Offsets>) {
    exists i | 0 <= i < |keys| :: Hit(mp, keys[i])
  }

  lemma UsedShrink(s: str, compress: bool)
    ensures |UsedKeys(s, compress)| == |Parse(s).labels| && Shrinking(UsedKeys(s, compress))
  {
    hide Parse, KeysFrom;
    KeysShrink(s, [], s, [], compress);
    assert NameKeys(s, compress) == KeysFrom(s, [], s, [], compress);
  }

  /** mp is the map before the name, mpx the map so far; the name's own keys are never met again. */
  lemma {:induction false} PointedExactly(ls: seq<Label>, keys: seq<str>, off: nat, mp: Option<Offsets>,
                                          mpx: Option<Offsets>, compress: bool)
    requires |keys| == |ls| && Shrinking(keys) && Newer(mp, mpx, keys)
    ensures Pointed(ls, keys, off, mpx, compress) <==> compress && SomeHit(keys, mp)
    decreases |ls|
  {
    hide *;
    if ls == [] {
      NothingPointed(off, mp, mpx, compress);
      assert keys == [];
    } else {
      PointedStep(ls, keys, off, mpx, compress);
      HitOld(mp, mpx, keys);
      NewerStep(mp, mpx, keys, off);
      SomeHitStep(keys, mp);
      PointedExactly(ls[1..], keys[1..], off + |ls[0]| + 1, mp, Record(mpx, keys[0], off), compress);
    }
  }

  lemma NothingPointed(off: nat, mp: Option<Offsets>, mpx: Option<Offsets>, compress: bool)
    ensures !Pointed([], [], off, mpx, compress) && !SomeHit([], mp)
  {
  }

  lemma SomeHitStep(keys: seq<str>, mp: Option<Offsets>)
    requires keys != []
    ensures SomeHit(keys, mp) <==> Hit(mp, keys[0]) || SomeHit(keys[1..], mp)
  {
    hide Hit;
    if SomeHit(keys, mp) {
      var i :| 0 <= i < |keys| && Hit(mp, keys[i]);
      if i > 0 { assert keys[1..][i - 1] == keys[i]; }
    }
    if SomeHit(keys[1..], mp) {
      var i :| 0 <= i < |keys[1..]| && Hit(mp, keys[1..][i]);
      assert keys[i + 1] == keys[1..][i];
    }
  }

  // ---------- Without escapes no offending label passes ----------

  predicate TidyMap(mp: Option<Offsets>) {
    mp.Some? ==> forall k | k in mp.value :: Tidy(k)
  }

  /** A name without escapes that meets a tidy key is tidy itself. */
  lemma {:induction false} HitTidy(name: str, cur: Label, s: str, mp: Option<Offsets>, first: bool, i: nat)
    requires |cur| + |s| <= |name| && TidyMap(mp)
    requires NoBackslash(s) && DOT !in cur && if s == [] then cur == [] else s[|s| - 1] == DOT
    requires i < |ParseFrom(cur, s, first).labels| && i < |KeysFrom(name, cur, s, [], true)|
    requires Hit(mp, KeysFrom(name, cur, s, [], true)[i])
    ensures ParseFrom(cur, s, first).Good?
    decreases |s|
  {
    hide *;
    if s == [] {
      NothingLeft(cur, first);
    } else {
      NoBackslashRest(s);
      TidyChar(cur, s, first);
      KeysChar(name, cur, s, [], true);
      if s[0] != DOT {
        assert s[1..] != [];
        HitTidy(name, cur + [s[0]], s[1..], mp, first, i);
      } else {
        LabelChar(cur, s, first);
        if i == 0 {
          assert cur + s + [] == cur + s;
          TidyHit(cur + s, mp);
          TidyFrom(cur, s, first);
        } else {
          assert [] + s[1..] == s[1..];
          HitTidy(name, [], s[1..], mp, false, i - 1);
        }
      }
    }
  }

  lemma TidyHit(key: str, mp: Option<Offsets>)
    requires TidyMap(mp) && Hit(mp, key)
    ensures Tidy(key)
  {
  }

  lemma LabelChar(cur: Label, s: str, first: bool)
    requires s != [] && s[0] == DOT
    requires ParseFrom(cur, s, first).labels != []
    ensures (cur != [] || first) && |cur| < 64
    ensures |ParseFrom(cur, s, first).labels| == 1 + |ParseFrom([], s[1..], false).labels|
  {
  }

  lemma {:induction false} KeysTidy(name: str, cur: Label, s: str, compress: bool)
    requires NoBackslash(s) && |cur| + |s| <= |name| && name[|name| - |cur + s|..] == cur + s && Tidy(name)
    ensures forall k | k in KeysFrom(name, cur, s, [], compress) :: Tidy(k)
    decreases |s|
  {
    hide *;
    if s == [] {
      NoKeys(name, cur, [], compress);
    } else {
      NoBackslashRest(s);
      KeysChar(name, cur, s, [], compress);
      var t := s[1..];
      Concat3(cur, [s[0]], t);
      if s[0] != DOT {
        KeysTidy(name, cur + [s[0]], t, compress);
      } else {
        SuffixRest(name, cur, s);
        TidySuffix(name, |name| - |cur + s|);
        KeysTidy(name, [], t, compress);
      }
    }
  }

  lemma SuffixRest(name: str, cur: str, s: str)
    requires s != [] && |cur + s| <= |name| && name[|name| - |cur + s|..] == cur + s
    ensures cur + s + [] == cur + s && [] + s[1..] == s[1..] && name[|name| - |s[1..]|..] == s[1..]
  {
    assert name[|name| - |s[1..]|..] == (cur + s)[|cur| + 1..];
  }

  lemma {:induction false} MapGrows(ls: seq<Label>, keys: seq<str>, off: nat, mp: Option<Offsets>, compress: bool)
    requires ShortLabels(ls) && |keys| == |ls|
    ensures var o := PackKeyed(ls, keys, off, mp, compress);
            o.mp.Some? == mp.Some? && (mp.Some? ==> forall k | k in o.mp.value :: k in mp.value || k in keys)
    decreases |ls|
  {
    hide *;
    if ls == [] {
      assert keys == [];
      KeyedEnds(off, mp, compress);
    } else if compress && Hit(mp, keys[0]) {
      KeyedHit(ls, keys, off, mp);
    } else {
      ShortParts([], ls);
      KeyedMore(ls, keys, off, mp, compress);
      RecordGrows(mp, keys[0], off);
      MapGrows(ls[1..], keys[1..], off + |ls[0]| + 1, Record(mp, keys[0], off), compress);
    }
  }

  lemma RecordGrows(mp: Option<Offsets>, key: str, off: nat)
    ensures var r := Record(mp, key, off);
            r.Some? == mp.Some? && (mp.Some? ==> forall k | k in r.value :: k in mp.value || k == key)
  {
  }

  // ---------- The first offence decides ----------

  /** What is checked as it is packed: names, and addresses that must have one of the given sizes. */
  datatype Item = AName(name: str) | AnAddress(ip: str, sizes: set<nat>)

  /** The error an item is refused with when no known key lets it pass. */
  function ItemError(i: Item): Error {
    match i
    case AName(s) =>
      if s == [] then NoError
      else if s[|s| - 1] != 46 then ErrFqdn
      else if Parse(s).Bad? then ErrRdata
      else NoError
    case AnAddress(ip, sizes) => if ip == [] || |ip| in sizes then NoError else ErrOverflow
  }

  function FirstError(items: seq<Item>): Error {
    if items == [] then NoError
    else if ItemError(items[0]) != NoError then ItemError(items[0])
    else FirstError(items[1..])
  }

  function DataItem(d: RData): Item {
    match d
    case A(ip) => AnAddress(ip, {4, 16})
    case AAAA(ip) => AnAddress(ip, {16})
    case NS(n) => AName(n)
    case CNAME(n) => AName(n)
    case PTR(n) => AName(n)
    case MX(_, n) => AName(n)
    case SRV(_, _, _, n) => AName(n)
  }

  function RecsItems(rs: seq<Rec>): seq<Item> {
    if rs == [] then [] else [AName(rs[0].name), DataItem(rs[0].data)] + RecsItems(rs[1..])
  }

  function QuestionItems(qs: seq<Question>): seq<Item> {
    if qs == [] then [] else [AName(qs[0].name)] + QuestionItems(qs[1..])
  }

  /** All of them in the order of the message. */
  function Items(dns: Msg): seq<Item> {
    QuestionItems(dns.question) + RecsItems(dns.Recs())
  }

  /** No map, or a tidy one and a name without escapes. */
  predicate Tame(i: Item, mp: Option<Offsets>) {
    mp.None? || (TidyMap(mp) && (i.AName? ==> NoBackslash(i.name)))
  }

  predicate EscapeFree(items: seq<Item>) {
    forall i | i in items :: i.AName? ==> NoBackslash(i.name)
  }

  predicate AllTame(items: seq<Item>, mp: Option<Offsets>) {
    mp.None? || (TidyMap(mp) && EscapeFree(items))
  }

  /** The fate is the one the error tells, and the map stays tame. */
  predicate Agrees(f: Fate, e: Error, mp: Option<Offsets>) {
    if e == NoError then f.Packed? && f.mp.None? == mp.None? && TidyMap(f.mp) else f == Stopped(e)
  }

  lemma NameAgrees(s: str, off: nat, mp: Option<Offsets>, compress: bool)
    requires Tame(AName(s), mp)
    ensures Agrees(NameFate(s, off, mp, compress), ItemError(AName(s)), mp)
  {
    hide PackNamed, Parse, Tidy, Refused, NoBackslash;
    if s != [] && IsFqdn(s) {
      RefusedExactly(s, off, mp, compress);
      if Parse(s).Bad? {
        NoKeyKnown(s, compress, mp);
      } else {
        NewMapTidy(s, off, mp, compress);
      }
    }
  }

  lemma NoKeyKnown(s: str, compress: bool, mp: Option<Offsets>)
    requires Tame(AName(s), mp) && IsFqdn(s) && Parse(s).Bad?
    ensures !(compress && KeyKnown(s, compress, mp))
  {
    hide ParseFrom, KeysFrom, TidyMap;
    if compress && mp.Some? {
      forall i: nat | i < |Parse(s).labels| && i < |NameKeys(s, compress)|
        ensures !Hit(mp, NameKeys(s, compress)[i])
      {
        if Hit(mp, NameKeys(s, compress)[i]) { HitTidy(s, [], s, mp, true, i); }
      }
    }
  }

  lemma NewMapTidy(s: str, off: nat, mp: Option<Offsets>, compress: bool)
    requires Tame(AName(s), mp) && IsFqdn(s) && Parse(s).Good?
    ensures var o := PackNamed(s, off, mp, compress); o.mp.None? == mp.None? && TidyMap(o.mp)
  {
    hide Tidy, PackKeyed, NoBackslash, ParseFrom, KeysFrom, PackNamed;
    if s == ROOT {
      RootOctet(off, mp, compress);
    } else if mp.Some? {
      PackNamedIs(s, off, mp, compress);
      var keys := UsedKeys(s, compress);
      MapGrows(Parse(s).labels, keys, off, mp, compress);
      TidyParses(s);
      assert [] + s == s && s[|s| - |s|..] == s;
      KeysTidy(s, [], s, compress);
    }
  }

  lemma DataAgrees(d: RData, off: nat, mp: Option<Offsets>, compress: bool)
    requires Tame(DataItem(d), mp)
    ensures Agrees(DataFate(d, off, mp, compress), ItemError(DataItem(d)), mp)
  {
    hide NameFate, Tidy, NoBackslash, Parse;
    match d
    case A(ip) =>
    case AAAA(ip) =>
    case NS(n) => NameAgrees(n, off, mp, compress);
    case CNAME(n) => NameAgrees(n, off, mp, compress);
    case PTR(n) => NameAgrees(n, off, mp, compress);
    case MX(_, n) => NameAgrees(n, off + 2, mp, compress);
    case SRV(_, _, _, n) => NameAgrees(n, off + 6, mp, false);
  }

  lemma {:induction false} RecsAgree(rs: seq<Rec>, off: nat, mp: Option<Offsets>, compress: bool)
    requires AllTame(RecsItems(rs), mp)
    ensures Agrees(RecsFate(rs, off, mp, compress), FirstError(RecsItems(rs)), mp)
    decreases |rs|
  {
    hide *;
    if rs == [] {
      AgreedNone(off, mp, compress);
    } else {
      var x, y, more := AName(rs[0].name), DataItem(rs[0].data), RecsItems(rs[1..]);
      ItemsStep(x, y, more);
      RecsItemsAre(rs);
      TameStep(x, [y] + more, mp, RecsItems(rs));
      NameAgrees(rs[0].name, off, mp, compress);
      RecFateStep(rs, off, mp, compress);
      FateParts(rs[0], off, mp, compress);
      var f := NameFate(rs[0].name, off, mp, compress);
      AgreedThen(f, ItemError(x), mp, [y] + more);
      if ItemError(x) == NoError {
        TameStep(y, more, f.mp, [y] + more);
        DataAgrees(rs[0].data, f.off1 + 10, f.mp, compress);
        var g := DataFate(rs[0].data, f.off1 + 10, f.mp, compress);
        AgreedThen(g, ItemError(y), f.mp, more);
        if ItemError(y) == NoError {
          RecsAgree(rs[1..], g.off1, g.mp, compress);
          AgreesOn(RecsFate(rs[1..], g.off1, g.mp, compress), FirstError(more), g.mp, f.mp);
          AgreesOn(RecsFate(rs[1..], g.off1, g.mp, compress), FirstError(more), f.mp, mp);
        } else {
          AgreesOn(g, ItemError(y), f.mp, mp);
        }
      }
    }
  }

  lemma RecsItemsAre(rs: seq<Rec>)
    requires rs != []
    ensures RecsItems(rs) == [AName(rs[0].name), DataItem(rs[0].data)] + RecsItems(rs[1..])
  {
  }

  lemma AgreedNone(off: nat, mp: Option<Offsets>, compress: bool)
    ensures AllTame(RecsItems([]), mp) ==> Agrees(RecsFate([], off, mp, compress), FirstError(RecsItems([])), mp)
    ensures AllTame(QuestionItems([]), mp) ==>
              Agrees(QuestionsFate([], off, mp, compress), FirstError(QuestionItems([])), mp)
  {
  }

  lemma ItemsStep(x: Item, y: Item, more: seq<Item>)
    ensures [x, y] + more == [x] + ([y] + more)
    ensures FirstError([x] + ([y] + more)) == if ItemError(x) != NoError then ItemError(x) else FirstError([y] + more)
    ensures FirstError([y] + more) == if ItemError(y) != NoError then ItemError(y) else FirstError(more)
  {
    hide ItemError;
    assert ([x] + ([y] + more))[1..] == [y] + more && ([y] + more)[1..] == more;
  }

  lemma TameStep(i: Item, more: seq<Item>, mp: Option<Offsets>, all: seq<Item>)
    requires all == [i] + more && AllTame(all, mp)
    ensures Tame(i, mp)
    ensures forall mp1: Option<Offsets> | mp1.None? == mp.None? && TidyMap(mp1) :: AllTame(more, mp1)
  {
    hide TidyMap, NoBackslash;
    assert i in all && forall x | x in more :: x in all;
  }

  lemma AgreedThen(f: Fate, e: Error, mp: Option<Offsets>, more: seq<Item>)
    requires Agrees(f, e, mp)
    requires forall mp1: Option<Offsets> | mp1.None? == mp.None? && TidyMap(mp1) :: AllTame(more, mp1)
    ensures f.Packed? <==> e == NoError
    ensures f.Packed? ==> AllTame(more, f.mp) && f.mp.None? == mp.None?
  {
    hide TidyMap, AllTame;
  }

  lemma AgreesOn(f: Fate, e: Error, mp: Option<Offsets>, mp0: Option<Offsets>)
    requires Agrees(f, e, mp) && mp.None? == mp0.None?
    ensures Agrees(f, e, mp0)
  {
  }

  lemma {:induction false} QuestionsAgree(qs: seq<Question>, off: nat, mp: Option<Offsets>, compress: bool)
    requires AllTame(QuestionItems(qs), mp)
    ensures Agrees(QuestionsFate(qs, off, mp, compress), FirstError(QuestionItems(qs)), mp)
    decreases |qs|
  {
    hide *;
    if qs == [] {
      AgreedNone(off, mp, compress);
    } else {
      var x, more := AName(qs[0].name), QuestionItems(qs[1..]);
      QuestionItemsAre(qs, x, more);
      TameStep(x, more, mp, QuestionItems(qs));
      NameAgrees(qs[0].name, off, mp, compress);
      QuestionFateStep(qs, off, mp, compress);
      var f := NameFate(qs[0].name, off, mp, compress);
      AgreedThen(f, ItemError(x), mp, more);
      if ItemError(x) == NoError {
        QuestionsAgree(qs[1..], f.off1 + 4, f.mp, compress);
        AgreesOn(QuestionsFate(qs[1..], f.off1 + 4, f.mp, compress), FirstError(more), f.mp, mp);
      }
    }
  }

  lemma {:induction false} QuestionItemsAre(qs: seq<Question>, x: Item, more: seq<Item>)
    requires qs != [] && x == AName(qs[0].name) && more == QuestionItems(qs[1..])
    ensures QuestionItems(qs) == [x] + more
    ensures FirstError([x] + more) == if ItemError(x) != NoError then ItemError(x) else FirstError(more)
  {
    hide ItemError;
    assert ([x] + more)[1..] == more;
  }

  lemma {:induction false} FirstErrorAppend(a: seq<Item>, b: seq<Item>)
    ensures FirstError(a + b) == if FirstError(a) != NoError then FirstError(a) else FirstError(b)
    decreases |a|
  {
    hide ItemError;
    if a == [] {
      assert a + b == b;
    } else {
      assert (a + b)[1..] == a[1..] + b;
      FirstErrorAppend(a[1..], b);
    }
  }

  /** Uncompressed, or with names without escapes, a message is packed exactly when nothing in it offends, and
      else the first offence decides the error. */
  lemma FirstOffence(dns: Msg)
    requires dns.compress ==> EscapeFree(Items(dns))
    ensures MsgFate(dns).Packed? <==> FirstError(Items(dns)) == NoError
    ensures MsgFate(dns).Stopped? ==> MsgFate(dns).err == FirstError(Items(dns))
  {
    hide *;
    var qs, rs := QuestionItems(dns.question), RecsItems(dns.Recs());
    StartTame(dns, qs, rs);
    FirstErrorAppend(qs, rs);
    QuestionsAgree(dns.question, 12, StartMap(dns), dns.compress);
    MsgFateIs(dns);
    var f := QuestionsFate(dns.question, 12, StartMap(dns), dns.compress);
    AgreedThen(f, FirstError(qs), StartMap(dns), rs);
    AgreesIs(f, FirstError(qs), StartMap(dns));
    if f.Packed? {
      RecsAgree(dns.Recs(), f.off1, f.mp, dns.compress);
      AgreesIs(RecsFate(dns.Recs(), f.off1, f.mp, dns.compress), FirstError(rs), f.mp);
    }
  }

  lemma AgreesIs(f: Fate, e: Error, mp: Option<Offsets>)
    requires Agrees(f, e, mp)
    ensures if e == NoError then f.Packed? else f == Stopped(e)
  {
    hide TidyMap;
  }

  lemma StartTame(dns: Msg, qs: seq<Item>, rs: seq<Item>)
    requires qs == QuestionItems(dns.question) && rs == RecsItems(dns.Recs())
    requires dns.compress ==> EscapeFree(Items(dns))
    ensures Items(dns) == qs + rs && AllTame(qs, StartMap(dns))
    ensures forall mp1: Option<Offsets> | mp1.None? == StartMap(dns).None? && TidyMap(mp1) :: AllTame(rs, mp1)
  {
    hide NoBackslash, QuestionItems, RecsItems, RecsOf;
    var all := Items(dns);
    assert forall x | x in qs || x in rs :: x in all;
  }

  // ---------- Whatever the names ----------

  /** What no key can let pass: a missing final dot, or an address of a wrong size. */
  predicate Closed(i: Item) {
    match i
    case AName(s) => s == [] || s[|s| - 1] == 46
    case AnAddress(ip, sizes) => ip == [] || |ip| in sizes
  }

  predicate AllClosed(items: seq<Item>) { forall i | i in items :: Closed(i) }

  /** In a packed message every name is empty or ends in a dot, and every address has a size of its type. */
  lemma PackedIsClosed(dns: Msg)
    requires MsgFate(dns).Packed?
    ensures AllClosed(Items(dns))
  {
    hide *;
    MsgFateIs(dns);
    var f := QuestionsFate(dns.question, 12, StartMap(dns), dns.compress);
    QuestionsClosed(dns.question, 12, StartMap(dns), dns.compress);
    RecsClosed(dns.Recs(), f.off1, f.mp, dns.compress);
    ItemsClosed(dns);
  }

  lemma ItemsClosed(dns: Msg)
    requires AllClosed(QuestionItems(dns.question)) && AllClosed(RecsItems(dns.Recs()))
    ensures AllClosed(Items(dns))
  {
    hide Closed, QuestionItems, RecsItems, RecsOf;
  }

  lemma {:induction false} QuestionsClosed(qs: seq<Question>, off: nat, mp: Option<Offsets>, compress: bool)
    requires QuestionsFate(qs, off, mp, compress).Packed?
    ensures AllClosed(QuestionItems(qs))
    decreases |qs|
  {
    hide NameFate, Closed;
    if qs != [] {
      QuestionFateStep(qs, off, mp, compress);
      NameClosed(qs[0].name, off, mp, compress);
      var f := NameFate(qs[0].name, off, mp, compress);
      QuestionsClosed(qs[1..], f.off1 + 4, f.mp, compress);
    }
  }

  lemma {:induction false} RecsClosed(rs: seq<Rec>, off: nat, mp: Option<Offsets>, compress: bool)
    requires RecsFate(rs, off, mp, compress).Packed?
    ensures AllClosed(RecsItems(rs))
    decreases |rs|
  {
    hide NameFate, DataFate, Closed, DataItem;
    if rs != [] {
      NameClosed(rs[0].name, off, mp, compress);
      var f := NameFate(rs[0].name, off, mp, compress);
      DataClosed(rs[0].data, f.off1 + 10, f.mp, compress);
      var g := RecFate(rs[0], off, mp, compress);
      RecsClosed(rs[1..], g.off1, g.mp, compress);
    }
  }

  lemma NameClosed(s: str, off: nat, mp: Option<Offsets>, compress: bool)
    requires NameFate(s, off, mp, compress).Packed?
    ensures Closed(AName(s))
  {
    hide PackNamed, Refused;
  }

  lemma DataClosed(d: RData, off: nat, mp: Option<Offsets>, compress: bool)
    requires DataFate(d, off, mp, compress).Packed?
    ensures Closed(DataItem(d))
  {
    hide NameFate;
    match d
    case A(ip) =>
    case AAAA(ip) =>
    case NS(n) => NameClosed(n, off, mp, compress);
    case CNAME(n) => NameClosed(n, off, mp, compress);
    case PTR(n) => NameClosed(n, off, mp, compress);
    case MX(_, n) => NameClosed(n, off + 2, mp, compress);
    case SRV(_, _, _, n) => NameClosed(n, off + 6, mp, false);
  }

  /** x.a.b.. with its empty label at the end. */
  const OFFENDER: str := [120, DOT, 97, DOT, 98, DOT, DOT]

  /** Escapes do let an offending label pass: behind \a.b. the name x.a.b.. is cut at the key "a.b.." and the
      compressed message is packed without error. */
  lemma OffenderPasses(dns: Msg, qtype: uint16, qclass: uint16)
    requires dns.compress && dns.Recs() == []
    requires dns.question == [Question(TWO_LABELS, qtype, qclass), Question(OFFENDER, qtype, qclass)]
    ensures Parse(OFFENDER).Bad? && MsgFate(dns).Packed?
  {
    hide Parse, ParseFrom, NameKeys, KeysFrom, PackNamed, Refused, NameFate, TWO_LABELS, OFFENDER;
    Collision();
    OffenderKeys();
    FirstPasses();
    var f := NameFate(TWO_LABELS, 12, Some(map[]), true);
    SecondPasses(f.off1 + 4, f.mp);
    MsgFateIs(dns);
    var qs := dns.question;
    QuestionFateStep(qs, 12, StartMap(dns), true);
    QuestionFateStep(qs[1..], f.off1 + 4, f.mp, true);
  }

  lemma FirstPasses()
    ensures var f := NameFate(TWO_LABELS, 12, Some(map[]), true);
            f.Packed? && Hit(f.mp, [97, DOT, 98, DOT, DOT])
  {
    hide Parse, ParseFrom, NameKeys, KeysFrom, PackNamed;
    Collision();
    PackedTwo(TWO_LABELS, [97], [98], [97, DOT, 98, DOT, DOT], [98, DOT, DOT], 12, true);
  }

  lemma SecondPasses(off: nat, mp: Option<Offsets>)
    requires Hit(mp, [97, DOT, 98, DOT, DOT])
    ensures NameFate(OFFENDER, off, mp, true).Packed?
  {
    hide Parse, ParseFrom, NameKeys, KeysFrom, PackNamed, Refused, Hit;
    OffenderKeys();
    RefusedExactly(OFFENDER, off, mp, true);
    assert KeyKnown(OFFENDER, true, mp);
  }

  lemma OffenderKeys()
    ensures Parse(OFFENDER).Bad? && |Parse(OFFENDER).labels| > 1
    ensures |NameKeys(OFFENDER, true)| > 1 && NameKeys(OFFENDER, true)[1] == [97, DOT, 98, DOT, DOT]
  {
    hide ParseFrom, KeysFrom;
    var s, t: str := OFFENDER, [97, DOT, 98, DOT, DOT];
    Plain(s, [], s, [120], [DOT] + t, true);
    Ended(s, [120], t, true);
    OffenderRest(s);
  }

  lemma OffenderRest(s: str)
    requires |s| >= 5
    ensures ParseFrom([], [97, DOT, 98, DOT, DOT], false) == Bad([[97], [98]])
    ensures var ks := KeysFrom(s, [], [97, DOT, 98, DOT, DOT], [], true); |ks| > 0 && ks[0] == [97, DOT, 98, DOT, DOT]
  {
    hide ParseFrom, KeysFrom;
    var t, u: str := [97, DOT, 98, DOT, DOT], [98, DOT, DOT];
    Plain(s, [], t, [97], [DOT] + u, false);
    Ended(s, [97], u, false);
    OffenderEnd(s);
  }

  lemma OffenderEnd(s: str)
    requires |s| >= 3
    ensures ParseFrom([], [98, DOT, DOT], false) == Bad([[98]])
  {
    hide ParseFrom, KeysFrom;
    Plain(s, [], [98, DOT, DOT], [98], [DOT] + [DOT], false);
    Ended(s, [98], [DOT], false);
    EmptyLabel();
  }

  lemma Plain(name: str, cur: Label, s: str, cur1: Label, more: str, first: bool)
    requires |cur| + |s| <= |name| && s != [] && s[0] != BACKSLASH && s[0] != DOT
    requires cur1 == cur + [s[0]] && more == s[1..]
    ensures ParseFrom(cur, s, first) == ParseFrom(cur1, more, first)
    ensures KeysFrom(name, cur, s, [], true) == KeysFrom(name, cur1, more, [], true)
  {
    hide KeysFrom;
    KeysChar(name, cur, s, [], true);
  }

  lemma Ended(name: str, cur: Label, more: str, first: bool)
    requires 0 < |cur| < 64 && |cur| + 1 + |more| <= |name|
    ensures ParseFrom(cur, [DOT] + more, first) == ParseFrom([], more, false).Prepend([cur])
    ensures KeysFrom(name, cur, [DOT] + more, [], true) == [cur + ([DOT] + more)] + KeysFrom(name, [], more, [], true)
  {
    hide KeysFrom;
    var s := [DOT] + more;
    assert s[0] == DOT && s[1..] == more && cur + s + [] == cur + s;
    KeysChar(name, cur, s, [], true);
  }

  lemma EmptyLabel()
    ensures ParseFrom([], [DOT], false) == Bad([])
  {
  }
}
