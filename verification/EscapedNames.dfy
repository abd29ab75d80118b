/** Escaped names and compression. packDomainName takes the keys of its map from a scratch array with stale
    octets at its end, or from the raw name at a place that is off by the escapes before it. What such a key
    stands for, when that is the name it was recorded for, and what a name packed by it then reads as. */
module EscapedNames {
  import opened Bytes
  import opened Names
  import opened PackNames
  import opened UnpackNames
  import opened Compression

  // ---------- When a key spells its name ----------

  /** How many characters the first k labels of s take, with their dots. */
  function RawLen(s: str, k: nat): (n: nat)
    ensures n <= |s|
    decreases |s|
  {
    if k == 0 || s == [] || s == [BACKSLASH] then 0
    else if FirstTok(s) == Sep then 1 + RawLen(s[1..], k - 1)
    else TokLen(s) + RawLen(s[TokLen(s)..], k)
  }

  /** The first k labels of s are written without escapes. */
  predicate PlainStart(s: str, k: nat) {
    NoBackslash(s[..RawLen(s, k)])
  }

  /** The text a key is taken from at the start of a label: what is left of the name, and the stale tail. */
  predicate TailOk(t: str) {
    t == [] || CountSeps(t) >= 1
  }

  lemma {:induction false} CountCat(x: str, t: str)
    requires x == [] || x[|x| - 1] == DOT
    ensures CountSeps(x + t) == CountSeps(x) + CountSeps(t)
    decreases |x|
  {
    hide TokLen, FirstTok, CountSeps;
    if x == [] {
      assert x + t == t;
      NoSeps();
    } else {
      TokenCat(x, t);
      SepStep(x);
      SepStep(x + t);
      var n := TokLen(x);
      if n < |x| {
        CountCat(x[n..], t);
      } else {
        CountCat([], t);
      }
      assert (x + t)[n..] == x[n..] + t;
    }
  }

  lemma NoSeps()
    ensures CountSeps([]) == 0
  {
  }

  /** Text that ends in a dot is read alike whatever follows it. */
  lemma TokenCat(x: str, t: str)
    requires x != [] && x[|x| - 1] == DOT
    ensures x != [BACKSLASH] && x + t != [BACKSLASH] && TokLen(x + t) == TokLen(x) && FirstTok(x + t) == FirstTok(x)
  {
    var s := x + t;
    assert s[0] == x[0] && s[|x| - 1] == DOT;
    if x[0] == BACKSLASH {
      assert s[1] == x[1];
    }
  }

  lemma StaleOk(s: str, t: str)
    requires s != [] && s[|s| - 1] == DOT && TailOk(t)
    ensures TailOk(Stale(s) + t)
    ensures Stale(s) + t == [] <==> TokLen(s) == 1 && t == []
  {
    var st := Stale(s);
    if TokLen(s) == 1 {
      assert st + t == t;
    } else {
      CountCat(st, t);
      if TokLen(s) == 2 {
        assert st == [DOT] && st[1..] == [];
      } else {
        assert |s| > 4;
        var c := s[|s| - 2];
        assert st == [c, DOT, DOT];
        assert CountSeps([DOT]) == 1 + CountSeps([]);
        assert st[1..] == [DOT, DOT] && st[2..] == [DOT] && [DOT, DOT][1..] == [DOT];
      }
    }
  }

  /** Octets already read come first in the label under way. */
  lemma {:induction false} AccPrefix(acc: Label, cur: Label, s: str, first: bool)
    requires ParseFrom(acc + cur, s, first).Good? && ParseFrom(acc + cur, s, first).labels != []
    ensures acc <= ParseFrom(acc + cur, s, first).labels[0]
    decreases |s|
  {
    if s != [] && s != [BACKSLASH] && FirstTok(s).Lit? {
      assert acc + cur + [FirstTok(s).b] == acc + (cur + [FirstTok(s).b]);
      AccPrefix(acc, cur + [FirstTok(s).b], s[TokLen(s)..], first);
    }
  }

  /** A label that reads itself back from its raw octets has nothing to escape: at its first dot the reading
      would end, and after its first backslash it is ahead of what it has to yield and never falls back. */
  lemma {:induction false} FirstLabel(c: Label, x: str, h: nat)
    requires h <= |c| && DOT !in c[..h] && BACKSLASH !in c[..h]
    requires ReadsFrom(c, x, h, h)
    ensures DOT !in c && BACKSLASH !in c
    decreases |c| - h
  {
    hide ParseFrom;
    if h == |c| {
      assert c[..h] == c;
    } else {
      ReadsOn(c, x, h, h);
      assert c[..h + 1] == c[..h] + [c[h]];
      if c[h] == BACKSLASH {
        Ahead(c, x, h + 1, h + TokLen(c[h..] + [DOT] + x));
      } else {
        FirstLabel(c, x, h + 1);
      }
    }
  }

  /** With the first q octets of c read, c is what the raw text from its octet h on completes. */
  predicate ReadsFrom(c: Label, x: str, q: nat, h: nat)
    requires q <= |c| && h <= |c|
  {
    var p := ParseFrom(c[..q], c[h..] + [DOT] + x, true);
    p.Good? && p.labels != [] && p.labels[0] == c
  }

  /** The token at octet h of c, in front of a dot. */
  lemma TokenIn(c: Label, x: str, h: nat)
    requires h < |c|
    ensures var s := c[h..] + [DOT] + x;
            && s != [] && s != [BACKSLASH] && (FirstTok(s) == Sep <==> c[h] == DOT)
            && (c[h] != BACKSLASH <==> TokLen(s) == 1)
            && (FirstTok(s).Lit? && FirstTok(s).b != DOT ==> h + TokLen(s) <= |c| && DOT !in c[h..h + TokLen(s)])
  {
    var s := c[h..] + [DOT] + x;
    var k := |c| - h;
    assert s[0] == c[h] && s[k] == DOT;
    assert forall i | 0 <= i < k :: s[i] == c[h + i];
  }

  lemma RestIn(c: Label, x: str, h: nat, n: nat)
    requires h + n <= |c|
    ensures |c[h..] + [DOT] + x| >= n && (c[h..] + [DOT] + x)[n..] == c[h + n..] + [DOT] + x
  {
    var a, b := c[h..h + n], c[h + n..];
    assert c[h..] == a + b;
    assert a + b + [DOT] + x == a + (b + [DOT] + x);
  }

  /** At a dot the reading ends, and too early. */
  lemma DotEnds(c: Label, x: str, q: nat, h: nat)
    requires q < |c| && h <= |c|
    ensures h == |c| || c[h] == DOT ==> !ReadsFrom(c, x, q, h)
  {
    var s := c[h..] + [DOT] + x;
    if h == |c| || c[h] == DOT {
      assert s[0] == DOT;
      var p := ParseFrom(c[..q], s, true);
      if p.Good? {
        assert p.labels[0] == c[..q];
        assert |p.labels[0]| < |c|;
      }
    }
  }

  /** One token more. */
  lemma ReadsOn(c: Label, x: str, q: nat, h: nat)
    requires q <= h < |c| && DOT !in c[..h] && ReadsFrom(c, x, q, h)
    ensures var n := TokLen(c[h..] + [DOT] + x);
            && c[h] != DOT && h + n <= |c| && DOT !in c[..h + n] && ReadsFrom(c, x, q + 1, h + n)
            && (c[h] != BACKSLASH <==> n == 1)
  {
    hide TokLen, FirstTok;
    var s := c[h..] + [DOT] + x;
    var n := TokLen(s);
    TokenIn(c, x, h);
    DotEnds(c, x, q, h);
    if c[h] != DOT {
      var b := FirstTok(s).b;
      var read := c[..q] + [b];
      assert read + [] == read;
      AccPrefix(read, [], s[n..], true);
      assert c[q] == read[q] == b;
      assert c[..q + 1] == read;
      if q < h { assert c[q] in c[..h]; }
      RestIn(c, x, h, n);
      assert c[..h + n] == c[..h] + c[h..h + n];
    }
  }

  /** A reading that is ahead of what it has to yield cannot yield it. */
  lemma {:induction false} Ahead(c: Label, x: str, q: nat, h: nat)
    requires q < h <= |c| && DOT !in c[..h]
    ensures !ReadsFrom(c, x, q, h)
    decreases |c| - h
  {
    hide ReadsFrom;
    DotEnds(c, x, q, h);
    if h < |c| && ReadsFrom(c, x, q, h) {
      ReadsOn(c, x, q, h);
      Ahead(c, x, q + 1, h + TokLen(c[h..] + [DOT] + x));
    }
  }

  // One token further, for all that is read from a name.

  lemma ParseTok(cur: Label, s: str, first: bool)
    requires s != [] && s != [BACKSLASH] && ParseFrom(cur, s, first).Good?
    ensures match FirstTok(s)
            case Lit(b) => ParseFrom(cur, s, first) == ParseFrom(cur + [b], s[TokLen(s)..], first)
            case Sep => ParseFrom([], s[1..], false).Good? && TokLen(s) == 1 && |cur| < 64
                        && ParseFrom(cur, s, first) == Good([cur] + ParseFrom([], s[1..], false).labels)
  {
  }

  lemma KeysTok(name: str, cur: Label, s: str, tail: str, compress: bool)
    requires |cur| + |s| + |tail| <= |name| && s != [] && s != [BACKSLASH]
    ensures var ks := KeysFrom(name, cur, s, tail, compress);
            match FirstTok(s)
            case Lit(b) => ks == KeysFrom(name, cur + [b], s[TokLen(s)..], Stale(s) + tail, compress)
            case Sep => var key := cur + s + tail;
                        ks == [if compress then key else name[|name| - |key|..]]
                              + KeysFrom(name, [], s[1..], tail, compress)
  {
  }

  lemma RawTok(s: str, k: nat)
    requires s != [] && s != [BACKSLASH] && k > 0
    ensures RawLen(s, 0) == 0
    ensures RawLen(s, k) == match FirstTok(s)
                            case Sep => 1 + RawLen(s[1..], k - 1)
                            case Lit(_) => TokLen(s) + RawLen(s[TokLen(s)..], k)
    ensures FirstTok(s) == Sep <==> s[0] == DOT
    ensures TokLen(s) == 1 <==> s[0] != BACKSLASH
  {
  }

  /** Plain text in front of plain text. */
  lemma PlainCat(s: str, n: nat, m: nat)
    requires n <= |s| && m <= |s| - n
    ensures NoBackslash(s[..n + m]) <==> NoBackslash(s[..n]) && NoBackslash(s[n..][..m])
  {
    assert s[..n + m] == s[..n] + s[n..][..m];
  }

  lemma ParsedSome(cur: Label, s: str, first: bool)
    requires ParseFrom(cur, s, first).Good? && ParseFrom(cur, s, first).labels != []
    ensures s != [] && s != [BACKSLASH]
  {
  }

  lemma NoRaw(s: str)
    ensures RawLen(s, 0) == 0
  {
  }

  /** Skips the labels before the i-th: r is the raw text from there on, t the stale tail by then. */
  lemma {:induction false} ToLabel(name: str, cur: Label, s: str, tail: str, compress: bool, first: bool, i: nat)
    returns (r: str, t: str)
    requires |cur| + |s| + |tail| <= |name| && TailOk(tail) && (s == [] || s[|s| - 1] == DOT)
    requires ParseFrom(cur, s, first).Good? && i < |ParseFrom(cur, s, first).labels| && (i == 0 ==> cur == [])
    ensures |r| == |s| - RawLen(s, i) && r == s[RawLen(s, i)..] && r != [] && |r| + |t| <= |name|
    ensures i > 0 ==> RawLen(s, i) > 0 && s[RawLen(s, i) - 1] == DOT
    ensures RawLen(s, i + 1) == RawLen(s, i) + RawLen(r, 1)
    ensures var ks := KeysFrom(name, cur, s, tail, compress);
            i < |ks| && |KeysFrom(name, [], r, t, compress)| > 0 && ks[i] == KeysFrom(name, [], r, t, compress)[0]
    ensures ParseFrom([], r, first && i == 0) == Good(ParseFrom(cur, s, first).labels[i..])
    ensures TailOk(t) && (t == [] <==> tail == [] && NoBackslash(s[..RawLen(s, i)]))
    decreases |s|
  {
    hide *;
    ParsedSome(cur, s, first);
    ParseCounts(cur, s, first);
    var n := TokLen(s);
    SepStep(s);
    ParseTok(cur, s, first);
    KeysTok(name, cur, s, tail, compress);
    RawTok(s, i + 1);
    if i == 0 {
      r, t := s, tail;
      assert NoBackslash(s[..0]) by { PlainNothing(s); }
      assert s[0..] == s;
      assert ParseFrom(cur, s, first).labels[0..] == ParseFrom(cur, s, first).labels;
    } else {
      RawTok(s, i);
      NoRaw(s[n..]);
      StaleOk(s, tail);
      StaleLen(s);
      var more := s[n..];
      assert more != [] ==> more[|more| - 1] == DOT;
      if FirstTok(s) == Sep {
        r, t := ToLabel(name, [], more, tail, compress, false, i - 1);
        assert ParseFrom(cur, s, first).labels[i..] == ParseFrom([], more, false).labels[i - 1..];
      } else {
        r, t := ToLabel(name, cur + [FirstTok(s).b], more, Stale(s) + tail, compress, first, i);
      }
      PlainToken(s, n, RawLen(s, i) - n);
    }
  }

  lemma PlainNothing(s: str)
    ensures NoBackslash(s[..0])
  {
  }

  lemma StaleLen(s: str)
    requires s != []
    ensures |Stale(s)| == TokLen(s) - 1
  {
  }

  /** The first token is plain when it is a single character. */
  lemma PlainToken(s: str, n: nat, m: nat)
    requires s != [] && s != [BACKSLASH] && n == TokLen(s) && n + m <= |s|
    ensures NoBackslash(s[..n + m]) <==> n == 1 && NoBackslash(s[n..][..m])
  {
    PlainCat(s, n, m);
    if n == 1 {
      assert s[..1] == [s[0]];
    }
    if n > 1 {
      assert s[..n][0] == BACKSLASH;
      assert BACKSLASH in s[..n];
    }
  }

  /** Reads one label to its dot: c are its octets, x the raw text behind the dot, t the stale tail by then. */
  lemma {:induction false} ToDot(name: str, cur: Label, s: str, tail: str, compress: bool, first: bool)
    returns (c: Label, x: str, t: str)
    requires |cur| + |s| + |tail| <= |name| && TailOk(tail) && (s == [] || s[|s| - 1] == DOT)
    requires ParseFrom(cur, s, first).Good? && ParseFrom(cur, s, first).labels != []
    ensures var ls := ParseFrom(cur, s, first).labels;
            ls[0] == c && ParseFrom([], x, false) == Good(ls[1..])
    ensures |c| + 1 + |x| + |t| == |cur| + |s| + |tail|
    ensures var ks := KeysFrom(name, cur, s, tail, compress);
            |ks| > 0 && ks[0] == if compress then c + [DOT] + x + t else name[|name| - (|cur| + |s| + |tail|)..]
    ensures x == [] || x[|x| - 1] == DOT
    ensures TailOk(t) && (t == [] <==> tail == [] && NoBackslash(s[..RawLen(s, 1)]))
    ensures NoBackslash(s[..RawLen(s, 1)]) ==> c + [DOT] + x == cur + s
    decreases |s|
  {
    hide *;
    ParsedSome(cur, s, first);
    ParseCounts(cur, s, first);
    var n := TokLen(s);
    SepStep(s);
    ParseTok(cur, s, first);
    KeysTok(name, cur, s, tail, compress);
    RawTok(s, 1);
    NoRaw(s[n..]);
    StaleOk(s, tail);
    StaleLen(s);
    var more := s[n..];
    assert more != [] ==> more[|more| - 1] == DOT;
    if FirstTok(s) == Sep {
      c, x, t := cur, more, tail;
      assert s == [DOT] + more;
      Concat3(cur, [DOT], more);
      FirstOff(cur, ParseFrom([], more, false).labels);
      PlainToken(s, 1, 0);
      PlainNothing(more);
    } else {
      var b := FirstTok(s).b;
      c, x, t := ToDot(name, cur + [b], more, Stale(s) + tail, compress, first);
      PlainToken(s, n, RawLen(s, 1) - n);
      if n == 1 {
        LitChar(s);
        assert s == [b] + more;
        Concat3(cur, [b], more);
      }
    }
  }

  lemma LitChar(s: str)
    requires s != [] && s != [BACKSLASH] && TokLen(s) == 1 && FirstTok(s).Lit?
    ensures FirstTok(s).b == s[0] && s == [s[0]] + s[1..]
  {
  }

  lemma {:induction false} FirstFlag(cur: Label, s: str)
    requires ParseFrom(cur, s, false).Good?
    ensures ParseFrom(cur, s, true) == ParseFrom(cur, s, false)
    decreases |s|
  {
    if s != [] && s != [BACKSLASH] && FirstTok(s).Lit? {
      FirstFlag(cur + [FirstTok(s).b], s[TokLen(s)..]);
    }
  }

  /** Text without a separating dot only adds octets to the label that follows it. */
  lemma {:induction false} OnlyOctets(cur: Label, e: str, s: str, first: bool) returns (octets: Label)
    requires e != [] && e[|e| - 1] == DOT && CountSeps(e) == 0
    ensures octets != [] && ParseFrom(cur, e + s, first) == ParseFrom(cur + octets, s, first)
    decreases |e|
  {
    hide TokLen, FirstTok, CountSeps;
    TokenCat(e, s);
    SepStep(e);
    var n := TokLen(e);
    var b := FirstTok(e).b;
    assert (e + s)[n..] == e[n..] + s;
    if n == |e| {
      octets := [b];
      assert e[n..] + s == s;
    } else {
      var more := OnlyOctets(cur + [b], e[n..], s, first);
      octets := [b] + more;
      assert cur + [b] + more == cur + octets;
    }
  }

  /** The key under which a suffix of a name is recorded spells that suffix if and only if there is no escape
      before the place the key is taken from: when compressing, up to the end of the suffix's first label,
      otherwise up to the beginning of that label. */
  lemma KeySpells(s: str, i: nat, compress: bool)
    requires ValidName(s) && s != ROOT && i < |Labels(s)|
    ensures i < |NameKeys(s, compress)|
    ensures Parse(NameKeys(s, compress)[i]) == Good(Labels(s)[i..])
            <==> PlainStart(s, if compress then i + 1 else i)
  {
    hide *;
    ValidShape(s, i, compress);
    if compress { ScratchKey(s, i); } else { RawKey(s, i); }
  }

  /** A key taken from the scratch array. */
  lemma ScratchKey(s: str, i: nat)
    requires ValidName(s) && s != ROOT && i < |Labels(s)| && i < |NameKeys(s, true)|
    ensures Parse(NameKeys(s, true)[i]) == Good(Labels(s)[i..]) <==> PlainStart(s, i + 1)
  {
    hide *;
    ValidShape(s, i, true);
    var ls := Labels(s)[i..];
    var r, t := ToLabel(s, [], s, [], true, true, i);
    var c, x, t1 := ToDot(s, [], r, t, true, i == 0);
    PlainCat(s, RawLen(s, i), RawLen(r, 1));
    StartIs(s, i + 1);
    if t1 == [] {
      NothingAdded(c + [DOT] + x, r);
      WholeKey(r, i, ls);
    } else {
      StaleKey(c, x, t1, ls);
    }
  }

  lemma NothingAdded(a: str, r: str)
    ensures a + [] == a && [] + r == r
  {
  }

  lemma FirstOff(l: Label, ls: seq<Label>)
    ensures ([l] + ls)[1..] == ls
  {
  }

  /** A key taken from the raw name. */
  lemma RawKey(s: str, i: nat)
    requires ValidName(s) && s != ROOT && i < |Labels(s)| && i < |NameKeys(s, false)|
    ensures Parse(NameKeys(s, false)[i]) == Good(Labels(s)[i..]) <==> PlainStart(s, i)
  {
    hide *;
    ValidShape(s, i, false);
    var ls, key, n := Labels(s)[i..], NameKeys(s, false)[i], RawLen(s, i);
    var r, t := ToLabel(s, [], s, [], false, true, i);
    var c, x, t1 := ToDot(s, [], r, t, false, i == 0);
    StartIs(s, i);
    if t == [] {
      assert key == r;
      WholeKey(r, i, ls);
    } else {
      NoRaw(s);
      PlainNothing(s);
      var e := s[n - |t|..n];
      assert key == e + r;
      assert e[|e| - 1] == DOT;
      EarlyKey(e, r, i, ls);
    }
  }

  lemma StartIs(s: str, k: nat)
    ensures PlainStart(s, k) <==> NoBackslash(s[..RawLen(s, k)])
  {
  }

  lemma ValidShape(s: str, i: nat, compress: bool)
    requires ValidName(s) && s != ROOT && i < |Labels(s)|
    ensures Parse(s).Good? && |NameKeys(s, compress)| == |Labels(s)|
    ensures s != [] && s[|s| - 1] == DOT && TailOk([]) && ParseFrom([], s, true) == Good(Labels(s))
    ensures NameKeys(s, compress) == KeysFrom(s, [], s, [], compress)
    ensures Labels(s)[i..] != [] && Labels(s)[i..][0] != []
  {
    assert Labels(s)[i] in Labels(s);
  }

  /** The raw suffix itself. */
  lemma WholeKey(r: str, i: nat, ls: seq<Label>)
    requires ParseFrom([], r, i == 0) == Good(ls)
    ensures Parse(r) == Good(ls)
  {
    hide ParseFrom;
    if i > 0 {
      FirstFlag([], r);
    }
  }

  /** A label, the raw text behind it, and a stale tail. */
  lemma StaleKey(c: Label, x: str, t: str, ls: seq<Label>)
    requires ls != [] && ls[0] == c && ParseFrom([], x, false) == Good(ls[1..])
    requires x == [] || x[|x| - 1] == DOT
    requires TailOk(t) && t != []
    ensures Parse(c + [DOT] + x + t) != Good(ls)
  {
    hide ParseFrom, CountSeps;
    var rest := x + t;
    assert c + [DOT] + x + t == c + [DOT] + rest;
    if Parse(c + [DOT] + rest) == Good(ls) {
      ReadBackPlain(c, rest, ls);
      assert |ls| == 1 + CountSeps(rest);
      ParseCounts([], x, false);
      CountCat(x, t);
    }
  }

  /** A label that is read back from its octets in front of a dot has nothing to escape. */
  lemma ReadBackPlain(c: Label, rest: str, ls: seq<Label>)
    requires ls != [] && ls[0] == c && Parse(c + [DOT] + rest) == Good(ls)
    ensures |ls| == 1 + CountSeps(rest)
  {
    hide ParseFrom, CountSeps;
    assert c[..0] == [] && c[0..] == c;
    FirstLabel(c, rest, 0);
    var s := [DOT] + rest;
    assert c + [DOT] + rest == c + s && [] + c == c && s[1..] == rest;
    ParsePlain([], c, s, true);
    PlainChar(c, s, true);
    ParseCounts([], rest, false);
  }

  /** The raw suffix behind more text of the name than it should have. */
  lemma EarlyKey(e: str, r: str, i: nat, ls: seq<Label>)
    requires e != [] && e[|e| - 1] == DOT
    requires ls != [] && ParseFrom([], r, i == 0) == Good(ls)
    ensures Parse(e + r) != Good(ls)
  {
    hide ParseFrom, CountSeps;
    if Parse(e + r) == Good(ls) {
      ParseCounts([], e + r, true);
      ParseCounts([], r, i == 0);
      CountCat(e, r);
      var octets := OnlyOctets([], e, r, true);
      assert [] + octets == octets && octets + [] == octets;
      FirstGrows(octets, r, i == 0);
    }
  }

  lemma FirstGrows(octets: Label, r: str, first: bool)
    requires octets != [] && ParseFrom([], r, first).Good? && ParseFrom([], r, first).labels != []
    requires ParseFrom(octets, r, true).Good?
    ensures ParseFrom(octets, r, true) != ParseFrom([], r, first)
  {
    if ParseFrom(octets, r, true) == ParseFrom([], r, first) {
      assert octets + [] == octets;
      GrownFirst(octets, [], r, first);
    }
  }

  lemma {:induction false} GrownFirst(octets: Label, cur: Label, r: str, first: bool)
    requires octets != [] && ParseFrom(cur, r, first).Good? && ParseFrom(cur, r, first).labels != []
    requires ParseFrom(octets + cur, r, true).Good? && ParseFrom(octets + cur, r, true).labels != []
    ensures |ParseFrom(octets + cur, r, true).labels[0]| == |octets| + |ParseFrom(cur, r, first).labels[0]|
    decreases |r|
  {
    if FirstTok(r).Lit? {
      var b := FirstTok(r).b;
      assert octets + cur + [b] == octets + (cur + [b]);
      GrownFirst(octets, cur + [b], r[TokLen(r)..], first);
    }
  }

  // ---------- What a name packed by its keys reads as ----------

  /** What is spelled where a key points: the labels, and the pointers on the way. */
  datatype Known = Known(labels: seq<Label>, depth: nat)

  type Meanings = map<str, Known>

  function KnownAt(km: Meanings, k: str): Known {
    if k in km then km[k] else Known([], 0)
  }

  /** Every key names an offset from which the octets so far spell what km says of it. */
  ghost predicate SoundFor(buf: str, mp: Option<Offsets>, km: Meanings) {
    mp.Some? ==> forall k | k in mp.value :: KeyMeans(buf, mp.value[k], KnownAt(km, k))
  }

  ghost predicate KeyMeans(buf: str, p: nat, w: Known) {
    p < |buf| && ValidLabels(w.labels) && Spells(buf, p, w.labels, w.depth)
  }

  /** The first key that is replaced by a pointer, if there is one. */
  function Cut(keys: seq<str>, mp: Option<Offsets>, compress: bool): (i: nat)
    ensures i <= |keys|
  {
    if keys == [] || (compress && Hit(mp, keys[0])) then 0 else 1 + Cut(keys[1..], mp, compress)
  }

  /** What the octets packed for ls will spell: its labels up to the first known key, and from there on what
      that key was recorded for. */
  function Meant(ls: seq<Label>, keys: seq<str>, mp: Option<Offsets>, km: Meanings, compress: bool): Known
    requires |keys| == |ls|
  {
    var i := Cut(keys, mp, compress);
    if i == |ls| then Known(ls, 0)
    else Known(ls[..i] + KnownAt(km, keys[i]).labels, KnownAt(km, keys[i]).depth + 1)
  }

  /** What the key of one of the suffixes is recorded for. */
  function KeyMeant(ls: seq<Label>, keys: seq<str>, mp: Option<Offsets>, km: Meanings, compress: bool, k: str): Known
    requires |keys| == |ls|
  {
    if ls == [] then Known([], 0)
    else if keys[0] == k then Meant(ls, keys, mp, km, compress)
    else KeyMeant(ls[1..], keys[1..], mp, km, compress, k)
  }

  function Learned(ls: seq<Label>, keys: seq<str>, mp: Option<Offsets>, mp1: Option<Offsets>, km: Meanings,
                   compress: bool): Meanings
    requires |keys| == |ls|
  {
    if mp.Some? && mp1.Some? then
      map k | k in mp1.value :: if k in mp.value then KnownAt(km, k) else KeyMeant(ls, keys, mp, km, compress, k)
    else km
  }

  /** Each key is shorter than the one before, so no name meets its own keys. */
  predicate Shrinking(keys: seq<str>) {
    forall i, j | 0 <= i < j < |keys| :: |keys[j]| < |keys[i]|
  }

  lemma {:induction false} KeysShrink(name: str, cur: Label, rest: str, tail: str, compress: bool)
    requires |cur| + |rest| + |tail| <= |name|
    ensures var ks := KeysFrom(name, cur, rest, tail, compress);
            Shrinking(ks) && forall k | k in ks :: |k| <= |cur| + |rest| + |tail|
    decreases |rest|
  {
    if rest != [] && rest != [BACKSLASH] {
      hide *;
      KeysTok(name, cur, rest, tail, compress);
      SepStep(rest);
      StaleLen(rest);
      var n := TokLen(rest);
      if FirstTok(rest) == Sep {
        SepLen(rest);
        KeysShrink(name, [], rest[1..], tail, compress);
        var key := cur + rest + tail;
        ShrinkCons(if compress then key else name[|name| - |key|..], KeysFrom(name, [], rest[1..], tail, compress));
      } else {
        KeysShrink(name, cur + [FirstTok(rest).b], rest[n..], Stale(rest) + tail, compress);
      }
    }
  }

  lemma SepLen(s: str)
    requires s != [] && s != [BACKSLASH] && FirstTok(s) == Sep
    ensures TokLen(s) == 1
  {
  }

  lemma ShrinkCons(k: str, ks: seq<str>)
    requires Shrinking(ks) && forall x | x in ks :: |x| < |k|
    ensures Shrinking([k] + ks)
  {
    assert forall i | 0 <= i < |ks| :: ks[i] in ks;
  }

  lemma CutStep(ls: seq<Label>, keys: seq<str>, mp: Option<Offsets>, km: Meanings, compress: bool)
    requires |keys| == |ls| && ls != []
    ensures compress && Hit(mp, keys[0]) ==>
              Meant(ls, keys, mp, km, compress) == Known(KnownAt(km, keys[0]).labels, KnownAt(km, keys[0]).depth + 1)
    ensures !(compress && Hit(mp, keys[0])) ==>
              var w := Meant(ls[1..], keys[1..], mp, km, compress);
              Meant(ls, keys, mp, km, compress) == Known([ls[0]] + w.labels, w.depth)
  {
    var i := Cut(keys, mp, compress);
    if compress && Hit(mp, keys[0]) {
      assert [] + KnownAt(km, keys[0]).labels == KnownAt(km, keys[0]).labels;
    } else if i < |ls| {
      assert ls[..i] == [ls[0]] + ls[1..][..i - 1];
      assert [ls[0]] + (ls[1..][..i - 1] + KnownAt(km, keys[i]).labels) == ls[..i] + KnownAt(km, keys[i]).labels;
    } else {
      assert ls == [ls[0]] + ls[1..];
    }
  }

  /** mpx knows everything mp knows, and beyond that only keys longer than any of keys. */
  ghost predicate Newer(mp: Option<Offsets>, mpx: Option<Offsets>, keys: seq<str>) {
    && mp.Some? == mpx.Some?
    && (mp.Some? ==> forall k | k in mp.value :: k in mpx.value && mpx.value[k] == mp.value[k])
    && (mp.Some? ==> forall k, x | k in mpx.value && k !in mp.value && x in keys :: |k| > |x|)
  }

  /** The octets of ls, packed at the end of buf, spell what they are meant to, and so does every suffix
      recorded on the way; mp is the map before the name, mpx the map so far. */
  ghost predicate PackedFor(buf: str, ls: seq<Label>, keys: seq<str>, mp: Option<Offsets>, mpx: Option<Offsets>,
                            km: Meanings, compress: bool)
    requires ShortLabels(ls) && |keys| == |ls|
  {
    var o := PackKeyed(ls, keys, |buf|, mpx, compress);
    var w := Meant(ls, keys, mp, km, compress);
    && Spells(buf + o.bytes, |buf|, w.labels, w.depth) && ValidLabels(w.labels)
    && SkipName(buf + o.bytes, |buf|) == Some(|buf + o.bytes|)
    && (mpx.Some? ==> forall k | k in mpx.value :: k in o.mp.value && o.mp.value[k] == mpx.value[k])
    && (mpx.Some? ==> forall k | k in o.mp.value && k !in mpx.value ::
          k in keys && KeyMeans(buf + o.bytes, o.mp.value[k], KeyMeant(ls, keys, mp, km, compress, k)))
  }

  lemma {:induction false} KeyedSpells(start: str, buf: str, ls: seq<Label>, keys: seq<str>, mp: Option<Offsets>,
                                       mpx: Option<Offsets>, km: Meanings, compress: bool)
    requires ValidLabels(ls) && |keys| == |ls| && Shrinking(keys)
    requires SoundFor(start, mp, km) && start <= buf && Newer(mp, mpx, keys)
    ensures ShortLabels(ls) && PackedFor(buf, ls, keys, mp, mpx, km, compress)
    decreases |ls|
  {
    hide *;
    if ls == [] {
      NothingMeant(buf, keys, mp, mpx, km, compress);
    } else {
      CutStep(ls, keys, mp, km, compress);
      ValidRest(ls);
      HitOld(mp, mpx, keys);
      if compress && Hit(mpx, keys[0]) {
        MeantHit(start, buf, ls, keys, mp, mpx, km);
      } else {
        var buf1 := buf + ([|ls[0]|] + ls[0]);
        NewerStep(mp, mpx, keys, |buf|);
        KeyedSpells(start, buf1, ls[1..], keys[1..], mp, Record(mpx, keys[0], |buf|), km, compress);
        MeantLabel(buf, ls, keys, mp, mpx, km, compress);
      }
    }
  }

  lemma NothingMeant(buf: str, keys: seq<str>, mp: Option<Offsets>, mpx: Option<Offsets>, km: Meanings, compress: bool)
    requires keys == []
    ensures ShortLabels([]) && PackedFor(buf, [], keys, mp, mpx, km, compress)
  {
  }

  lemma ValidRest(ls: seq<Label>)
    requires ValidLabels(ls) && ls != []
    ensures 1 <= |ls[0]| <= 63 && ValidLabels(ls[1..]) && ShortLabels(ls) && ShortLabels(ls[1..])
  {
    assert ls[0] in ls;
    assert forall x | x in ls[1..] :: x in ls;
  }

  lemma HitOld(mp: Option<Offsets>, mpx: Option<Offsets>, keys: seq<str>)
    requires Newer(mp, mpx, keys) && keys != []
    ensures Hit(mpx, keys[0]) <==> Hit(mp, keys[0])
    ensures Hit(mp, keys[0]) ==> mpx.value[keys[0]] == mp.value[keys[0]]
  {
    assert keys[0] in keys;
  }

  lemma NewerStep(mp: Option<Offsets>, mpx: Option<Offsets>, keys: seq<str>, off: nat)
    requires Newer(mp, mpx, keys) && keys != [] && Shrinking(keys)
    ensures Newer(mp, Record(mpx, keys[0], off), keys[1..]) && Shrinking(keys[1..])
  {
    HitOld(mp, mpx, keys);
    forall x | x in keys[1..]
      ensures |x| < |keys[0]| && x in keys
    {
      var j :| 0 <= j < |keys[1..]| && keys[1..][j] == x;
      assert keys[j + 1] == x;
    }
  }

  lemma MeantHit(start: str, buf: str, ls: seq<Label>, keys: seq<str>, mp: Option<Offsets>, mpx: Option<Offsets>,
                 km: Meanings)
    requires ShortLabels(ls) && |keys| == |ls| && ls != [] && SoundFor(start, mp, km) && start <= buf
    requires Hit(mp, keys[0]) && Hit(mpx, keys[0]) && mpx.value[keys[0]] == mp.value[keys[0]]
    ensures PackedFor(buf, ls, keys, mp, mpx, km, true)
  {
    hide Spells, SkipName, LabelsLen, ValidLabels, Meant;
    var w := KnownAt(km, keys[0]);
    var p := mp.value[keys[0]];
    CutStep(ls, keys, mp, km, true);
    assert KeyMeans(start, p, w);
    assert buf == start + buf[|start|..];
    SpellsExtend(start, p, w.labels, w.depth, buf[|start|..]);
    SpellsPointer(buf, p, w.labels, w.depth);
  }

  lemma MeantLabel(buf: str, ls: seq<Label>, keys: seq<str>, mp: Option<Offsets>, mpx: Option<Offsets>, km: Meanings,
                   compress: bool)
    requires ls != [] && 1 <= |ls[0]| <= 63 && ShortLabels(ls) && ShortLabels(ls[1..]) && |keys| == |ls|
    requires !(compress && Hit(mpx, keys[0])) && !(compress && Hit(mp, keys[0])) && Newer(mp, mpx, keys)
    requires Shrinking(keys)
    requires PackedFor(buf + ([|ls[0]|] + ls[0]), ls[1..], keys[1..], mp, Record(mpx, keys[0], |buf|), km, compress)
    ensures PackedFor(buf, ls, keys, mp, mpx, km, compress)
  {
    hide Spells, SkipName, LabelsLen, ShortLabels, PackKeyed, Meant, Record, Newer;
    var l := ls[0];
    var mp1 := Record(mpx, keys[0], |buf|);
    var buf1 := buf + ([|l|] + l);
    var rest := PackKeyed(ls[1..], keys[1..], |buf1|, mp1, compress);
    var w1, w := Meant(ls[1..], keys[1..], mp, km, compress), Meant(ls, keys, mp, km, compress);
    CutStep(ls, keys, mp, km, compress);
    KeyedMore(ls, keys, |buf|, mpx, compress);
    assert w.labels[0] == l && w.labels[1..] == w1.labels;
    Concat3(buf, [|l|] + l, rest.bytes);
    SpellsLabel(buf, w.labels, rest.bytes, w.depth);
    if mpx.Some? {
      Recorded(mpx, keys[0], |buf|);
      var b, o := buf1 + rest.bytes, rest.mp.value;
      forall k | k in o && k !in mpx.value
        ensures k in keys && KeyMeans(b, o[k], KeyMeant(ls, keys, mp, km, compress, k))
      {
        if k == keys[0] {
          assert k !in keys[1..];
          assert k in mp1.value && o[k] == |buf|;
          assert KeyMeans(b, |buf|, w);
        } else {
          assert k !in mp1.value;
          assert k in keys[1..];
          assert KeyMeant(ls, keys, mp, km, compress, k) == KeyMeant(ls[1..], keys[1..], mp, km, compress, k);
        }
      }
    }
  }

  lemma Recorded(mpx: Option<Offsets>, key: str, off: nat)
    requires mpx.Some?
    ensures var mp1 := Record(mpx, key, off);
            && mp1.Some? && (forall k | k in mpx.value :: k in mp1.value && mp1.value[k] == mpx.value[k])
            && (forall k | k in mp1.value && k !in mpx.value :: k == key && mp1.value[k] == off)
  {
  }

  function NameMeant(s: str, mp: Option<Offsets>, km: Meanings, compress: bool): Known
    requires Parse(s).Good?
  {
    if s == ROOT then Known([], 0) else Meant(Labels(s), NameKeys(s, compress), mp, km, compress)
  }

  function NameLearned(s: str, mp: Option<Offsets>, mp1: Option<Offsets>, km: Meanings, compress: bool): Meanings
    requires Parse(s).Good?
  {
    if s == ROOT then km else Learned(Labels(s), NameKeys(s, compress), mp, mp1, km, compress)
  }

  /** Whatever its escapes, a name packed at the end of a message reads as its labels up to the first key
      already known, and from there on as the name that key was recorded for. */
  lemma NamedReads(buf: str, s: str, mp: Option<Offsets>, km: Meanings, compress: bool, more: str)
    requires ValidName(s) && SoundFor(buf, mp, km)
    ensures var o := PackNamed(s, |buf|, mp, compress);
            var w := NameMeant(s, mp, km, compress);
            var msg := buf + o.bytes + more;
            && ValidLabels(w.labels)
            && UnpackName(msg, |buf|) == Unpacked(w.labels, w.depth, |msg|, |buf| + |o.bytes|)
            && SoundFor(buf + o.bytes, o.mp, NameLearned(s, mp, o.mp, km, compress))
  {
    hide *;
    NameParts(s, |buf|, mp, km, compress);
    var o := PackNamed(s, |buf|, mp, compress);
    var w := NameMeant(s, mp, km, compress);
    if s == ROOT {
      NothingMeant(buf, [], mp, mp, km, compress);
      KeyedNothing(buf, mp, km, compress);
      SoundKept(buf, mp, km, o.bytes);
    } else {
      var ls, keys := Labels(s), NameKeys(s, compress);
      NewerNone(mp, keys);
      KeyedSpells(buf, buf, ls, keys, mp, mp, km, compress);
      LearnedSound(buf, ls, keys, mp, km, compress);
    }
    SpelledReads(buf + o.bytes, |buf|, w, more);
  }

  lemma NameParts(s: str, off: nat, mp: Option<Offsets>, km: Meanings, compress: bool)
    requires ValidName(s)
    ensures Parse(s).Good?
    ensures s == ROOT ==>
              && PackNamed(s, off, mp, compress) == Out([0], mp) && NameMeant(s, mp, km, compress) == Known([], 0)
              && forall mp1 :: NameLearned(s, mp, mp1, km, compress) == km
    ensures s != ROOT ==>
              var ls, keys := Labels(s), NameKeys(s, compress);
              && ValidLabels(ls) && ShortLabels(ls) && |keys| == |ls| && Shrinking(keys)
              && PackNamed(s, off, mp, compress) == PackKeyed(ls, keys, off, mp, compress)
              && NameMeant(s, mp, km, compress) == Meant(ls, keys, mp, km, compress)
              && forall mp1 :: NameLearned(s, mp, mp1, km, compress) == Learned(ls, keys, mp, mp1, km, compress)
  {
    hide Meant, Learned, PackKeyed, ParseFrom, KeysFrom, Shrinking;
    if s != ROOT {
      KeysShrink(s, [], s, [], compress);
    }
  }

  lemma KeyedNothing(buf: str, mp: Option<Offsets>, km: Meanings, compress: bool)
    requires ShortLabels([]) && PackedFor(buf, [], [], mp, mp, km, compress)
    ensures Spells(buf + [0], |buf|, [], 0) && ValidLabels([]) && SkipName(buf + [0], |buf|) == Some(|buf + [0]|)
  {
  }

  lemma NewerNone(mp: Option<Offsets>, keys: seq<str>)
    ensures Newer(mp, mp, keys)
  {
  }

  lemma SoundKept(buf: str, mp: Option<Offsets>, km: Meanings, more: str)
    requires SoundFor(buf, mp, km)
    ensures SoundFor(buf + more, mp, km)
  {
    hide Spells, ValidLabels;
    if mp.Some? {
      forall k | k in mp.value
        ensures KeyMeans(buf + more, mp.value[k], KnownAt(km, k))
      {
        assert KeyMeans(buf, mp.value[k], KnownAt(km, k));
        SpellsExtend(buf, mp.value[k], KnownAt(km, k).labels, KnownAt(km, k).depth, more);
      }
    }
  }

  lemma LearnedSound(buf: str, ls: seq<Label>, keys: seq<str>, mp: Option<Offsets>, km: Meanings, compress: bool)
    requires ShortLabels(ls) && |keys| == |ls| && SoundFor(buf, mp, km)
    requires PackedFor(buf, ls, keys, mp, mp, km, compress)
    ensures var o := PackKeyed(ls, keys, |buf|, mp, compress);
            var w := Meant(ls, keys, mp, km, compress);
            && Spells(buf + o.bytes, |buf|, w.labels, w.depth) && ValidLabels(w.labels)
            && SkipName(buf + o.bytes, |buf|) == Some(|buf + o.bytes|)
            && SoundFor(buf + o.bytes, o.mp, Learned(ls, keys, mp, o.mp, km, compress))
  {
    hide Spells, SkipName, ShortLabels, ValidLabels, PackKeyed, Meant, KeyMeant, KeyMeans;
    var o := PackKeyed(ls, keys, |buf|, mp, compress);
    SoundKept(buf, mp, km, o.bytes);
    if mp.Some? {
      var lm := Learned(ls, keys, mp, o.mp, km, compress);
      forall k | k in o.mp.value
        ensures KeyMeans(buf + o.bytes, o.mp.value[k], KnownAt(lm, k))
      {
        if k in mp.value {
          assert o.mp.value[k] == mp.value[k];
        }
      }
    }
  }

  lemma SpelledReads(buf: str, p: nat, w: Known, more: str)
    requires Spells(buf, p, w.labels, w.depth) && SkipName(buf, p) == Some(|buf|)
    ensures UnpackName(buf + more, p) == Unpacked(w.labels, w.depth, |buf + more|, |buf|)
  {
    hide Spells, Walk, SkipName, LabelsLen, NameString;
    SpellsExtend(buf, p, w.labels, w.depth, more);
    WalkSpelled(buf + more, p, w.labels, w.depth, MAX_POINTERS);
    SkipExtend(buf, p, more);
  }

  /** The key at which a name is cut was recorded for the very suffix it takes the place of. */
  predicate AsPacked(s: str, mp: Option<Offsets>, km: Meanings, compress: bool)
    requires ValidName(s)
  {
    s == ROOT ||
    (var i := Cut(NameKeys(s, compress), mp, compress);
     i < |Labels(s)| ==> KnownAt(km, NameKeys(s, compress)[i]).labels == Labels(s)[i..])
  }

  /** A name reads back as it was packed if and only if the key at which it is cut, if it is cut, was recorded
      for the suffix that is left out, and the chain has at most ten pointers. */
  lemma ReadsAsPacked(buf: str, s: str, mp: Option<Offsets>, km: Meanings, compress: bool, more: str)
    requires ValidName(s) && LabelsLen(Labels(s)) + 1 <= MAX_WIRE_OCTETS && SoundFor(buf, mp, km)
    ensures var o := PackNamed(s, |buf|, mp, compress);
            UnpackName(buf + o.bytes + more, |buf|) == NameResult(NameString(Labels(s)), |buf| + |o.bytes|, NoError)
            <==> AsPacked(s, mp, km, compress) && NameMeant(s, mp, km, compress).depth <= MAX_POINTERS
  {
    hide *;
    NamedReads(buf, s, mp, km, compress, more);
    MeantAsPacked(s, mp, km, compress);
    var o, w := PackNamed(s, |buf|, mp, compress), NameMeant(s, mp, km, compress);
    SameString(w.labels, Labels(s), w.depth, |buf + o.bytes + more|, |buf| + |o.bytes|);
  }

  lemma MeantAsPacked(s: str, mp: Option<Offsets>, km: Meanings, compress: bool)
    requires ValidName(s)
    ensures Parse(s).Good? && ValidLabels(Labels(s))
    ensures NameMeant(s, mp, km, compress).labels == Labels(s) <==> AsPacked(s, mp, km, compress)
  {
    hide Parse, NameKeys;
    if s == ROOT {
      ParseRoot();
    } else {
      LabelsAre(s);
      var ls, i := Labels(s), Cut(NameKeys(s, compress), mp, compress);
      assert ls == ls[..i] + ls[i..];
    }
  }

  lemma SameString(a: seq<Label>, b: seq<Label>, d: nat, msgLen: nat, end: nat)
    requires ValidLabels(a) && ValidLabels(b) && LabelsLen(b) + 1 <= MAX_WIRE_OCTETS
    ensures Unpacked(a, d, msgLen, end) == NameResult(NameString(b), end, NoError) <==> a == b && d <= MAX_POINTERS
  {
    hide Parse, NameString;
    NameStringLabels(a);
    NameStringLabels(b);
  }

  // ---------- A sequence of names ----------

  datatype Asked = Asked(name: str, compress: bool)

  predicate Askable(names: seq<Asked>) {
    forall a | a in names :: ValidName(a.name) && LabelsLen(Labels(a.name)) + 1 <= MAX_WIRE_OCTETS
  }

  lemma AskFirst(names: seq<Asked>)
    requires Askable(names) && names != []
    ensures ValidName(names[0].name) && Parse(names[0].name).Good?
    ensures LabelsLen(Labels(names[0].name)) + 1 <= MAX_WIRE_OCTETS
    ensures Askable(names[1..])
  {
    hide ParseFrom, LabelsLen;
    assert names[0] in names;
    assert forall a | a in names[1..] :: a in names;
  }

  /** The names one after the other, with the map afterwards. */
  function PackInTurn(names: seq<Asked>, off: nat, mp: Option<Offsets>): Out
    requires Askable(names)
  {
    if names == [] then Out([], mp)
    else
      AskFirst(names);
      var o := PackNamed(names[0].name, off, mp, names[0].compress);
      var rest := PackInTurn(names[1..], off + |o.bytes|, o.mp);
      Out(o.bytes + rest.bytes, rest.mp)
  }

  /** Each name reads back from msg as it was packed. */
  predicate ReadBack(msg: str, names: seq<Asked>, off: nat, mp: Option<Offsets>)
    requires Askable(names)
  {
    names == [] ||
    (AskFirst(names);
     var o := PackNamed(names[0].name, off, mp, names[0].compress);
     && UnpackName(msg, off) == NameResult(NameString(Labels(names[0].name)), off + |o.bytes|, NoError)
     && ReadBack(msg, names[1..], off + |o.bytes|, o.mp))
  }

  /** No name is cut at a key that was recorded for another, and none leads through too many pointers. */
  predicate Survive(names: seq<Asked>, off: nat, mp: Option<Offsets>, km: Meanings)
    requires Askable(names)
  {
    names == [] ||
    (AskFirst(names);
     var a := names[0];
     var o := PackNamed(a.name, off, mp, a.compress);
     && AsPacked(a.name, mp, km, a.compress) && NameMeant(a.name, mp, km, a.compress).depth <= MAX_POINTERS
     && Survive(names[1..], off + |o.bytes|, o.mp, NameLearned(a.name, mp, o.mp, km, a.compress)))
  }

  /** Compression preserves the meaning of a sequence of names, with escapes or without, if and only if no
      name is cut at a key recorded for another suffix, and no chain has more than ten pointers. */
  lemma {:induction false} InTurnReads(buf: str, names: seq<Asked>, mp: Option<Offsets>, km: Meanings, more: str)
    requires Askable(names) && SoundFor(buf, mp, km)
    ensures ReadBack(buf + PackInTurn(names, |buf|, mp).bytes + more, names, |buf|, mp) <==> Survive(names, |buf|, mp,
            km)
    decreases |names|
  {
    hide *;
    if names == [] {
      NoneInTurn(buf, mp, km, more);
    } else {
      AskFirst(names);
      var a := names[0];
      var o := PackNamed(a.name, |buf|, mp, a.compress);
      var rest := PackInTurn(names[1..], |buf + o.bytes|, o.mp);
      ReadsAsPacked(buf, a.name, mp, km, a.compress, rest.bytes + more);
      NamedReads(buf, a.name, mp, km, a.compress, rest.bytes + more);
      InTurnReads(buf + o.bytes, names[1..], o.mp, NameLearned(a.name, mp, o.mp, km, a.compress), more);
      Concat3(buf, o.bytes, rest.bytes);
      Concat3(buf + o.bytes, rest.bytes, more);
      TurnStep(names, |buf|, mp, km, buf + o.bytes + rest.bytes + more);
    }
  }

  lemma NoneInTurn(buf: str, mp: Option<Offsets>, km: Meanings, more: str)
    ensures Askable([])
    ensures ReadBack(buf + PackInTurn([], |buf|, mp).bytes + more, [], |buf|, mp) && Survive([], |buf|, mp, km)
  {
  }

  lemma TurnStep(names: seq<Asked>, off: nat, mp: Option<Offsets>, km: Meanings, msg: str)
    requires Askable(names) && names != [] && Askable(names[1..]) && ValidName(names[0].name)
    requires Parse(names[0].name).Good?
    ensures var a := names[0];
            var o := PackNamed(a.name, off, mp, a.compress);
            var rest := PackInTurn(names[1..], off + |o.bytes|, o.mp);
            && PackInTurn(names, off, mp) == Out(o.bytes + rest.bytes, rest.mp)
            && (ReadBack(msg, names, off, mp) <==>
                  UnpackName(msg, off) == NameResult(NameString(Labels(a.name)), off + |o.bytes|, NoError)
                  && ReadBack(msg, names[1..], off + |o.bytes|, o.mp))
            && (Survive(names, off, mp, km) <==>
                  AsPacked(a.name, mp, km, a.compress) && NameMeant(a.name, mp, km, a.compress).depth <= MAX_POINTERS
                  && Survive(names[1..], off + |o.bytes|, o.mp, NameLearned(a.name, mp, o.mp, km, a.compress)))
  {
    hide Askable, PackNamed, UnpackName, NameString, Labels, AsPacked, NameMeant, NameLearned, ValidName, Parse;
  }
}
