/** Message compression (section 4.1.4 of RFC 1035) preserves what names mean. */
module Compression {
  import opened Bytes
  import opened Names
  import opened PackNames
  import opened UnpackNames

  /** At p, labels and pointers spell ls, following d pointers in all. Every pointer goes backward.
      This is the meaning of a compressed name, told without reference to the packer or unpacker. */
  ghost predicate Spells(buf: str, p: nat, ls: seq<Label>, d: nat)
    decreases |ls| + d
  {
    p < |buf| &&
    if buf[p] >= 192 then
      p + 1 < |buf| && d > 0 && Target(buf, p) < p && Spells(buf, Target(buf, p), ls, d - 1)
    else if ls == [] then buf[p] == 0 && d == 0
    else
      && 1 <= |ls[0]| == buf[p] <= 63
      && p + 1 + |ls[0]| <= |buf| && buf[p + 1..p + 1 + |ls[0]|] == ls[0]
      && Spells(buf, p + 1 + |ls[0]|, ls[1..], d)
  }

  /** What is spelled stays spelled when more octets follow. */
  lemma {:induction false} SpellsExtend(buf: str, p: nat, ls: seq<Label>, d: nat, more: str)
    requires Spells(buf, p, ls, d)
    ensures Spells(buf + more, p, ls, d)
    decreases |ls| + d
  {
    if buf[p] >= 192 {
      SpellsExtend(buf, Target(buf, p), ls, d - 1, more);
    } else if ls != [] {
      assert (buf + more)[p + 1..p + 1 + |ls[0]|] == buf[p + 1..p + 1 + |ls[0]|];
      SpellsExtend(buf, p + 1 + |ls[0]|, ls[1..], d, more);
    }
  }

  /** The unpacker reads exactly the labels spelled, and gives up exactly when the chain of pointers
      is longer than it will follow. */
  lemma {:induction false} WalkSpelled(buf: str, p: nat, ls: seq<Label>, d: nat, hops: nat)
    requires Spells(buf, p, ls, d)
    ensures d > hops ==> Walk(buf, p, hops) == Failed(ErrPointers)
    ensures d <= hops ==> SkipName(buf, p).Some? && Walk(buf, p, hops) == Walked(ls, SkipName(buf, p).value)
    decreases |ls| + d
  {
    if buf[p] >= 192 {
      if hops > 0 {
        WalkSpelled(buf, Target(buf, p), ls, d - 1, hops - 1);
      }
    } else if ls != [] {
      WalkSpelled(buf, p + 1 + |ls[0]|, ls[1..], d, hops);
      assert [ls[0]] + ls[1..] == ls;
    }
  }

  // ---------- Labels and map keys ----------

  /** Labels that need no escape in a map key. */
  predicate PlainLabels(ls: seq<Label>) {
    forall l | l in ls :: 1 <= |l| <= 63 && DOT !in l && BACKSLASH !in l
  }

  /** Labels whose packing keeps their meaning: any valid ones when there is no compression map. */
  predicate Packable(ls: seq<Label>, mp: Option<Offsets>) {
    ValidLabels(ls) && (mp.Some? ==> PlainLabels(ls))
  }

  /** The labels a map key stands for. */
  function KeyLabels(k: str): seq<Label> {
    match Parse(k)
    case Good(ls) => ls
    case Bad(_) => []
  }

  lemma {:induction false} ParsePlain(cur: Label, l: Label, rest: str, first: bool)
    requires DOT !in l && BACKSLASH !in l
    ensures ParseFrom(cur, l + rest, first) == ParseFrom(cur + l, rest, first)
    decreases |l|
  {
    if l == [] {
      assert l + rest == rest && cur + l == cur;
    } else {
      var s := l + rest;
      assert l[0] in l && s[0] == l[0];
      assert s[1..] == l[1..] + rest;
      assert forall c | c in l[1..] :: c in l;
      assert ParseFrom(cur, s, first) == ParseFrom(cur + [l[0]], s[1..], first);
      ParsePlain(cur + [l[0]], l[1..], rest, first);
      assert cur + [l[0]] + l[1..] == cur + l;
    }
  }

  lemma {:induction false} ParseJoin(ls: seq<Label>, first: bool)
    requires PlainLabels(ls)
    ensures ParseFrom([], Join(ls), first) == Good(ls)
    decreases |ls|
  {
    if ls != [] {
      var l, t := ls[0], ls[1..];
      assert l in ls;
      assert PlainLabels(t) by {
        assert forall x | x in t :: x in ls;
      }
      hide PlainLabels;
      var s := [DOT] + Join(t);
      assert Join(ls) == l + s;
      ParsePlain([], l, s, first);
      assert [] + l == l;
      assert s[0] == DOT && s[1..] == Join(t);
      ParseJoin(t, false);
      assert [l] + t == ls;
    }
  }

  lemma KeyLabelsJoin(ls: seq<Label>)
    requires PlainLabels(ls)
    ensures KeyLabels(Join(ls)) == ls
  {
    ParseJoin(ls, true);
  }

  /** A valid name without escapes has plain labels, and is their concatenation. */
  lemma PlainName(s: str)
    requires ValidName(s) && NoBackslash(s)
    ensures PlainLabels(Labels(s)) && (s != ROOT ==> Join(Labels(s)) == s)
  {
    if s != ROOT {
      JoinParse([], s, true);
      assert [] + s == s;
      ParsedPlain([], s, true);
    }
  }

  lemma {:induction false} ParsedPlain(cur: Label, s: str, first: bool)
    requires NoBackslash(s) && DOT !in cur && BACKSLASH !in cur && ParseFrom(cur, s, first).Good?
    ensures forall l | l in ParseFrom(cur, s, first).labels :: DOT !in l && BACKSLASH !in l
    decreases |s|
  {
    if s != [] {
      assert s[0] in s;
      assert forall c | c in s[1..] :: c in s;
      if s[0] == DOT {
        ParsedPlain([], s[1..], false);
      } else {
        ParsedPlain(cur + [s[0]], s[1..], first);
      }
    }
  }

  // ---------- The invariant of the compression map ----------

  function DepthAt(dm: map<str, nat>, k: str): nat {
    if k in dm then dm[k] else 0
  }

  /** Every key names an offset from which the octets so far spell exactly that key, through a chain of
      dm[k] pointers. */
  ghost predicate Sound(buf: str, mp: Option<Offsets>, dm: map<str, nat>) {
    mp.Some? ==> forall k | k in mp.value :: KeySound(buf, mp.value, dm, k)
  }

  ghost predicate KeySound(buf: str, m: Offsets, dm: map<str, nat>, k: str)
    requires k in m
  {
    && m[k] < |buf|
    && Spells(buf, m[k], KeyLabels(k), DepthAt(dm, k))
    && DepthAt(dm, k) < |KeyLabels(k)|
  }

  /** How many pointers the packed form of ls leads through. */
  function Depth(ls: seq<Label>, mp: Option<Offsets>, dm: map<str, nat>, compress: bool): nat {
    if ls == [] then 0
    else if compress && Hit(mp, Join(ls)) then 1 + DepthAt(dm, Join(ls))
    else Depth(ls[1..], mp, dm, compress)
  }

  /** The depths after packing a name whose own depth is d: all suffixes it recorded share it. */
  function Depths(mp: Option<Offsets>, mp1: Option<Offsets>, dm: map<str, nat>, d: nat): map<str, nat> {
    if mp.Some? && mp1.Some? then map k | k in mp1.value :: if k in mp.value then DepthAt(dm, k) else d else dm
  }

  /** mp1 knows everything mp knows, and beyond that only keys longer than n. */
  ghost predicate LongerOnly(mp: Option<Offsets>, mp1: Option<Offsets>, n: nat) {
    && mp.Some? == mp1.Some?
    && (mp.Some? ==> forall k | k in mp.value :: k in mp1.value && mp1.value[k] == mp.value[k])
    && (mp.Some? ==> forall k | k in mp1.value && k !in mp.value :: |k| > n)
  }

  /** k is one of the keys of mpx, unchanged, or a key added since, sound at depth d. */
  ghost predicate Added(buf: str, mpx: Offsets, m: Offsets, d: nat, k: str)
    requires k in m
  {
    || (k in mpx && m[k] == mpx[k])
    || (k !in mpx && KeySound(buf, m, map[k := d], k))
  }

  lemma SpellsPointer(buf: str, p: nat, ls: seq<Label>, d: nat)
    requires p < |buf| && p < MAX_OFFSET && Spells(buf, p, ls, d)
    ensures Spells(buf + Pointer(p), |buf|, ls, d + 1)
    ensures SkipName(buf + Pointer(p), |buf|) == Some(|buf| + 2)
  {
    var b := buf + Pointer(p);
    SpellsExtend(buf, p, ls, d, Pointer(p));
    assert b[|buf|] == 192 + p / 256 && b[|buf| + 1] == p % 256;
    assert Target(b, |buf|) == p;
  }

  lemma SpellsLabel(buf: str, ls: seq<Label>, rest: str, d: nat)
    requires ls != [] && 1 <= |ls[0]| <= 63
    requires var at := |buf| + 1 + |ls[0]|;
             var b := buf + ([|ls[0]|] + ls[0] + rest);
             Spells(b, at, ls[1..], d) && SkipName(b, at) == Some(|b|)
    ensures var b := buf + ([|ls[0]|] + ls[0] + rest);
            Spells(b, |buf|, ls, d) && SkipName(b, |buf|) == Some(|b|)
  {
    var l := ls[0];
    var b := buf + ([|l|] + l + rest);
    assert b[|buf|] == |l|;
    assert b[|buf| + 1..|buf| + 1 + |l|] == l;
  }

  /** Packing ls at the end of buf writes octets that spell it, and every suffix recorded on the way is
      spelled too; mp is the map before the name, mpx the map so far. */
  ghost predicate Packed(buf: str, ls: seq<Label>, mp: Option<Offsets>, mpx: Option<Offsets>, dm: map<str, nat>,
                         compress: bool)
    requires ShortLabels(ls)
  {
    var o := PackName(ls, |buf|, mpx, compress);
    var d := Depth(ls, mp, dm, compress);
    && Spells(buf + o.bytes, |buf|, ls, d)
    && SkipName(buf + o.bytes, |buf|) == Some(|buf + o.bytes|)
    && d <= |ls|
    && (mpx.Some? ==> forall k | k in o.mp.value :: Added(buf + o.bytes, mpx.value, o.mp.value, d, k))
    && (mpx.Some? ==> forall k | k in mpx.value :: k in o.mp.value)
  }

  lemma PackedHit(start: str, buf: str, ls: seq<Label>, mp: Option<Offsets>, mpx: Option<Offsets>,
                  dm: map<str, nat>, compress: bool)
    requires PlainLabels(ls) && ShortLabels(ls) && ls != []
    requires Sound(start, mp, dm) && start <= buf && LongerOnly(mp, mpx, LabelsLen(ls))
    requires compress && Hit(mpx, Join(ls))
    ensures Packed(buf, ls, mp, mpx, dm, compress)
  {
    hide Spells, SkipName, LabelsLen, PackName, Depth, KeyLabels, PlainLabels, ShortLabels, Join;
    HitUnfolds(ls, |buf|, mp, mpx, dm);
    var p, d := mp.value[Join(ls)], DepthAt(dm, Join(ls));
    SpellsHit(start, buf, ls, mp, dm);
    SpellsPointer(buf, p, ls, d);
  }

  lemma HitUnfolds(ls: seq<Label>, off: nat, mp: Option<Offsets>, mpx: Option<Offsets>, dm: map<str, nat>)
    requires ShortLabels(ls) && ls != [] && LongerOnly(mp, mpx, LabelsLen(ls)) && Hit(mpx, Join(ls))
    ensures Hit(mp, Join(ls)) && mp.value[Join(ls)] == mpx.value[Join(ls)]
    ensures PackName(ls, off, mpx, true) == Out(Pointer(mp.value[Join(ls)]), mpx)
    ensures Depth(ls, mp, dm, true) == 1 + DepthAt(dm, Join(ls))
  {
    var key := Join(ls);
    assert key in mp.value;
  }

  lemma SpellsHit(start: str, buf: str, ls: seq<Label>, mp: Option<Offsets>, dm: map<str, nat>)
    requires PlainLabels(ls) && Sound(start, mp, dm) && start <= buf && Hit(mp, Join(ls))
    ensures mp.value[Join(ls)] < |buf|
    ensures Spells(buf, mp.value[Join(ls)], ls, DepthAt(dm, Join(ls)))
    ensures DepthAt(dm, Join(ls)) < |ls|
  {
    hide Spells, PlainLabels;
    var key := Join(ls);
    KeyLabelsJoin(ls);
    assert KeySound(start, mp.value, dm, key);
    assert buf == start + buf[|start|..];
    SpellsExtend(start, mp.value[key], ls, DepthAt(dm, key), buf[|start|..]);
  }

  lemma PackedLabel(buf: str, ls: seq<Label>, mp: Option<Offsets>, mpx: Option<Offsets>,
                    dm: map<str, nat>, compress: bool)
    requires Packable(ls, mpx) && ShortLabels(ls) && ls != [] && LongerOnly(mp, mpx, LabelsLen(ls))
    requires !(compress && Hit(mpx, Join(ls)))
    requires Packed(buf + ([|ls[0]|] + ls[0]), ls[1..], mp, Record(mpx, Join(ls), |buf|), dm, compress)
    ensures Packed(buf, ls, mp, mpx, dm, compress)
  {
    hide Spells, SkipName, LabelsLen, PlainLabels, ShortLabels, KeyLabels, PackName, Depth, Added, Record, Join;
    var l, key := ls[0], Join(ls);
    PackableFirst(ls, mpx);
    var mp1 := Record(mpx, key, |buf|);
    var buf1 := buf + ([|l|] + l);
    var rest := PackName(ls[1..], |buf1|, mp1, compress);
    LabelUnfolds(ls, |buf|, mp, mpx, dm, compress);
    var d := Depth(ls, mp, dm, compress);
    Concat3(buf, [|l|] + l, rest.bytes);
    SpellsLabel(buf, ls, rest.bytes, d);
    if mpx.Some? {
      KeyLabelsJoin(ls);
      AddedKeys(buf1 + rest.bytes, |buf|, ls, mpx, mp1, rest.mp, d);
    }
  }

  lemma LabelUnfolds(ls: seq<Label>, off: nat, mp: Option<Offsets>, mpx: Option<Offsets>, dm: map<str, nat>,
                     compress: bool)
    requires ShortLabels(ls) && ls != [] && ShortLabels(ls[1..]) && LongerOnly(mp, mpx, LabelsLen(ls))
    requires !(compress && Hit(mpx, Join(ls)))
    ensures var rest := PackName(ls[1..], off + |ls[0]| + 1, Record(mpx, Join(ls), off), compress);
            PackName(ls, off, mpx, compress) == Out([|ls[0]|] + ls[0] + rest.bytes, rest.mp)
    ensures Depth(ls, mp, dm, compress) == Depth(ls[1..], mp, dm, compress)
  {
    hide ShortLabels;
  }

  lemma AddedKeys(b: str, off: nat, ls: seq<Label>, mpx: Option<Offsets>, mp1: Option<Offsets>, mp2: Option<Offsets>,
                  d: nat)
    requires mpx.Some? && mp1 == Record(mpx, Join(ls), off) && mp2.Some? && off < |b| && d < |ls|
    requires KeyLabels(Join(ls)) == ls && Spells(b, off, ls, d)
    requires forall k | k in mp1.value :: k in mp2.value
    requires forall k | k in mp2.value :: Added(b, mp1.value, mp2.value, d, k)
    ensures forall k | k in mpx.value :: k in mp2.value
    ensures forall k | k in mp2.value :: Added(b, mpx.value, mp2.value, d, k)
  {
    hide Spells, KeyLabels, Join;
    forall k | k in mp2.value
      ensures Added(b, mpx.value, mp2.value, d, k)
    {
      assert Added(b, mp1.value, mp2.value, d, k);
    }
  }

  lemma PackableFirst(ls: seq<Label>, mp: Option<Offsets>)
    requires Packable(ls, mp) && ls != []
    ensures 1 <= |ls[0]| <= 63 && Packable(ls[1..], mp) && ShortLabels(ls[1..])
  {
    assert ls[0] in ls;
    assert forall x | x in ls[1..] :: x in ls;
  }

  lemma PackedNone(buf: str, mp: Option<Offsets>, mpx: Option<Offsets>, dm: map<str, nat>, compress: bool)
    ensures Packed(buf, [], mp, mpx, dm, compress)
  {
  }

  lemma {:induction false} PackSpells(start: str, buf: str, ls: seq<Label>, mp: Option<Offsets>, mpx: Option<Offsets>,
                                      dm: map<str, nat>, compress: bool)
    requires Packable(ls, mpx)
    requires Sound(start, mp, dm) && start <= buf
    requires LongerOnly(mp, mpx, LabelsLen(ls))
    ensures ShortLabels(ls) && Packed(buf, ls, mp, mpx, dm, compress)
    decreases |ls|
  {
    hide KeyLabels, Spells;
    if ls == [] {
      PackedNone(buf, mp, mpx, dm, compress);
    } else if compress && Hit(mpx, Join(ls)) {
      PackedHit(start, buf, ls, mp, mpx, dm, compress);
    } else {
      hide Packed, Sound, PackName;
      PackableFirst(ls, mpx);
      PackSpells(start, buf + ([|ls[0]|] + ls[0]), ls[1..], mp, Record(mpx, Join(ls), |buf|), dm, compress);
      PackedLabel(buf, ls, mp, mpx, dm, compress);
    }
  }

  lemma {:induction false} SoundExtend(buf: str, mp: Option<Offsets>, dm: map<str, nat>, more: str)
    requires Sound(buf, mp, dm)
    ensures Sound(buf + more, mp, dm)
  {
    if mp.Some? {
      forall k | k in mp.value
        ensures KeySound(buf + more, mp.value, dm, k)
      {
        assert KeySound(buf, mp.value, dm, k);
        SpellsExtend(buf, mp.value[k], KeyLabels(k), DepthAt(dm, k), more);
      }
    }
  }

  /** Packing one name: the octets written spell it, through a chain of the predicted depth and never
      more pointers than it has labels, and the map stays sound. */
  lemma PackSound(buf: str, ls: seq<Label>, mp: Option<Offsets>, dm: map<str, nat>, compress: bool)
    requires Packable(ls, mp) && Sound(buf, mp, dm)
    ensures ShortLabels(ls)
    ensures var o := PackName(ls, |buf|, mp, compress);
            var d := Depth(ls, mp, dm, compress);
            && Spells(buf + o.bytes, |buf|, ls, d)
            && SkipName(buf + o.bytes, |buf|) == Some(|buf + o.bytes|)
            && d <= |ls|
            && Sound(buf + o.bytes, o.mp, Depths(mp, o.mp, dm, d))
  {
    hide Spells, Depth, PackName, SkipName;
    PackSpells(buf, buf, ls, mp, mp, dm, compress);
    var o := PackName(ls, |buf|, mp, compress);
    var d := Depth(ls, mp, dm, compress);
    var dm1 := Depths(mp, o.mp, dm, d);
    SoundExtend(buf, mp, dm, o.bytes);
    if mp.Some? {
      forall k | k in o.mp.value
        ensures KeySound(buf + o.bytes, o.mp.value, dm1, k)
      {
        assert Added(buf + o.bytes, mp.value, o.mp.value, d, k);
        if k in mp.value {
          assert KeySound(buf + o.bytes, mp.value, dm, k);
        }
      }
    }
  }

  // ---------- Reading back what was packed ----------

  /** What UnpackDomainName must return for labels packed up to offset end, through a chain of d pointers. */
  function Unpacked(ls: seq<Label>, d: nat, msgLen: nat, end: nat): NameResult {
    if d > MAX_POINTERS then NameResult([], msgLen, ErrPointers)
    else if LabelsLen(ls) + 1 > MAX_WIRE_OCTETS then NameResult(NameString(ls), msgLen, ErrLongDomain)
    else NameResult(NameString(ls), end, NoError)
  }

  /** A packed name reads back as the name that was packed, wherever it stands in a message, exactly
      when its chain has at most ten pointers and its wire form at most 255 octets. */
  lemma UnpackPacked(buf: str, ls: seq<Label>, mp: Option<Offsets>, dm: map<str, nat>, compress: bool, more: str)
    requires Packable(ls, mp) && Sound(buf, mp, dm)
    ensures ShortLabels(ls)
    ensures var o := PackName(ls, |buf|, mp, compress);
            var msg := buf + o.bytes + more;
            && UnpackName(msg, |buf|) == Unpacked(ls, Depth(ls, mp, dm, compress), |msg|, |buf| + |o.bytes|)
            && SkipName(msg, |buf|) == Some(|buf| + |o.bytes|)
  {
    hide Spells, Depth, PackName, SkipName, Walk, Sound, NameString;
    PackSound(buf, ls, mp, dm, compress);
    var o := PackName(ls, |buf|, mp, compress);
    var d := Depth(ls, mp, dm, compress);
    SpellsExtend(buf + o.bytes, |buf|, ls, d, more);
    WalkSpelled(buf + o.bytes + more, |buf|, ls, d, MAX_POINTERS);
    SkipExtend(buf + o.bytes, |buf|, more);
  }

  lemma {:induction false} SkipExtend(buf: str, p: nat, more: str)
    requires SkipName(buf, p).Some?
    ensures SkipName(buf + more, p) == SkipName(buf, p)
    decreases |buf| - p
  {
    var c := buf[p];
    if 0 < c < 64 {
      SkipExtend(buf, p + 1 + c, more);
    } else if 64 <= c < 192 {
      SkipExtend(buf, p + 1, more);
    }
  }

  /** A name to be packed, and whether it may be compressed. */
  datatype Request = Request(labels: seq<Label>, compress: bool)

  predicate AllPackable(names: seq<Request>, compressing: bool) {
    forall r | r in names :: ValidLabels(r.labels) && (compressing ==> PlainLabels(r.labels))
  }

  lemma AllPackableFirst(names: seq<Request>, mp: Option<Offsets>)
    requires AllPackable(names, mp.Some?) && names != []
    ensures AllPackable(names[1..], mp.Some?)
    ensures Packable(names[0].labels, mp) && ShortLabels(names[0].labels)
  {
    assert names[0] in names;
    assert forall r | r in names[1..] :: r in names;
  }

  /** The names one after the other, with the map and the depths of its keys afterwards. */
  function PackAll(names: seq<Request>, off: nat, mp: Option<Offsets>): Out
    requires AllPackable(names, mp.Some?)
  {
    if names == [] then Out([], mp)
    else
      AllPackableFirst(names, mp);
      var o := PackName(names[0].labels, off, mp, names[0].compress);
      var rest := PackAll(names[1..], off + |o.bytes|, o.mp);
      Out(o.bytes + rest.bytes, rest.mp)
  }

  ghost function AllDepths(names: seq<Request>, off: nat, mp: Option<Offsets>, dm: map<str, nat>): map<str, nat>
    requires AllPackable(names, mp.Some?)
  {
    if names == [] then dm
    else
      AllPackableFirst(names, mp);
      var o := PackName(names[0].labels, off, mp, names[0].compress);
      var d := Depth(names[0].labels, mp, dm, names[0].compress);
      AllDepths(names[1..], off + |o.bytes|, o.mp, Depths(mp, o.mp, dm, d))
  }

  /** Every name of the sequence reads back from msg as it was packed. */
  ghost predicate AllRead(msg: str, names: seq<Request>, off: nat, mp: Option<Offsets>, dm: map<str, nat>)
    requires AllPackable(names, mp.Some?)
  {
    names == [] ||
    (AllPackableFirst(names, mp);
     var r := names[0];
     var o := PackName(r.labels, off, mp, r.compress);
     var d := Depth(r.labels, mp, dm, r.compress);
     && UnpackName(msg, off) == Unpacked(r.labels, d, |msg|, off + |o.bytes|)
     && d <= |r.labels|
     && AllRead(msg, names[1..], off + |o.bytes|, o.mp, Depths(mp, o.mp, dm, d)))
  }

  /** Compression preserves meaning over any sequence of names packed into one message: each name reads
      back, and the map keeps naming offsets that spell its keys. */
  lemma {:induction false} PackAllReads(buf: str, names: seq<Request>, mp: Option<Offsets>, dm: map<str, nat>,
                                        more: str)
    requires AllPackable(names, mp.Some?) && Sound(buf, mp, dm)
    ensures var o := PackAll(names, |buf|, mp);
            && Sound(buf + o.bytes, o.mp, AllDepths(names, |buf|, mp, dm))
            && AllRead(buf + o.bytes + more, names, |buf|, mp, dm)
    decreases |names|
  {
    hide *;
    if names == [] {
      NoneRead(buf, mp, dm, more);
    } else {
      AllPackableFirst(names, mp);
      var r := names[0];
      var o := PackName(r.labels, |buf|, mp, r.compress);
      var d := Depth(r.labels, mp, dm, r.compress);
      PackSound(buf, r.labels, mp, dm, r.compress);
      var rest := PackAll(names[1..], |buf + o.bytes|, o.mp);
      PackAllReads(buf + o.bytes, names[1..], o.mp, Depths(mp, o.mp, dm, d), more);
      UnpackPacked(buf, r.labels, mp, dm, r.compress, rest.bytes + more);
      AllReadsStep(buf, names, mp, dm, o, d, rest, more);
    }
  }

  lemma NoneRead(buf: str, mp: Option<Offsets>, dm: map<str, nat>, more: str)
    requires Sound(buf, mp, dm)
    ensures AllPackable([], mp.Some?)
    ensures var o := PackAll([], |buf|, mp);
            && Sound(buf + o.bytes, o.mp, AllDepths([], |buf|, mp, dm))
            && AllRead(buf + o.bytes + more, [], |buf|, mp, dm)
  {
    hide Sound;
    assert buf + [] == buf;
  }

  lemma AllReadsStep(buf: str, names: seq<Request>, mp: Option<Offsets>, dm: map<str, nat>, o: Out, d: nat, rest: Out,
                     more: str)
    requires AllPackable(names, mp.Some?) && names != [] && AllPackable(names[1..], mp.Some?)
    requires ShortLabels(names[0].labels)
    requires o == PackName(names[0].labels, |buf|, mp, names[0].compress)
    requires d == Depth(names[0].labels, mp, dm, names[0].compress)
    requires rest == PackAll(names[1..], |buf + o.bytes|, o.mp)
    requires var buf1, dm1 := buf + o.bytes, Depths(mp, o.mp, dm, d);
             && Sound(buf1 + rest.bytes, rest.mp, AllDepths(names[1..], |buf1|, o.mp, dm1))
             && AllRead(buf1 + rest.bytes + more, names[1..], |buf1|, o.mp, dm1)
    requires UnpackName(buf + o.bytes + (rest.bytes + more), |buf|)
             == Unpacked(names[0].labels, d, |buf + o.bytes + (rest.bytes + more)|, |buf| + |o.bytes|)
    requires d <= |names[0].labels|
    ensures var all := PackAll(names, |buf|, mp);
            && Sound(buf + all.bytes, all.mp, AllDepths(names, |buf|, mp, dm))
            && AllRead(buf + all.bytes + more, names, |buf|, mp, dm)
  {
    hide UnpackName, PackName, Depth, Sound, Depths, Unpacked, AllPackable, ShortLabels;
    Concat3(buf, o.bytes, rest.bytes);
    Concat3(buf + o.bytes, rest.bytes, more);
  }

  // ---------- Wire form to presentation form and back ----------

  /** A name read without following a pointer is the wire form of its labels. */
  lemma {:induction false} WalkLiteral(msg: str, off: nat)
    requires Walk(msg, off, 0).Walked?
    ensures var w := Walk(msg, off, 0);
            ShortLabels(w.labels) && off <= w.off1 <= |msg| && msg[off..w.off1] == Wire(w.labels)
    decreases |msg| - off
  {
    var c := msg[off];
    if c != 0 {
      var at := off + 1 + c;
      WalkLiteral(msg, at);
      var rest := Walk(msg, at, 0);
      WireCons(msg, off, at, rest.off1, rest.labels);
    }
  }

  lemma WireCons(msg: str, off: nat, at: nat, end: nat, more: seq<Label>)
    requires off < at <= end <= |msg| && ShortLabels(more) && at - off - 1 == msg[off] < 64
    requires msg[at..end] == Wire(more)
    ensures ShortLabels([msg[off + 1..at]] + more) && msg[off..end] == Wire([msg[off + 1..at]] + more)
  {
    var l := msg[off + 1..at];
    var ls := [l] + more;
    assert ls[0] == l && ls[1..] == more;
    assert msg[off..end] == [msg[off]] + l + msg[at..end];
    Concat3([msg[off]] + l, LabelBytes(more), [0]);
  }

  lemma {:induction false} WalkMoreHops(msg: str, off: nat, hops: nat)
    requires Walk(msg, off, 0).Walked?
    ensures Walk(msg, off, hops) == Walk(msg, off, 0)
    decreases |msg| - off
  {
    var c := msg[off];
    if c != 0 {
      WalkMoreHops(msg, off + 1 + c, hops);
    }
  }

  /** Wire to presentation to wire is the identity: packing the string read from any pointer-free name
      of at most 255 octets, whatever octets its labels hold, writes the very octets that were read. */
  lemma RepackIdentity(msg: str, off: nat)
    requires Walk(msg, off, 0).Walked? && LabelsLen(Walk(msg, off, 0).labels) + 1 <= MAX_WIRE_OCTETS
    ensures var r := UnpackName(msg, off);
            && r.err == NoError && off <= r.off1 <= |msg| && ValidName(r.name)
            && forall at: nat, compress :: PackName(Labels(r.name), at, None, compress) == Out(msg[off..r.off1], None)
  {
    WalkLiteral(msg, off);
    WalkMoreHops(msg, off, MAX_POINTERS);
    WalkInBounds(msg, off, 0);
    var ls := Walk(msg, off, 0).labels;
    NameStringLabels(ls);
    forall at: nat, compress
      ensures PackName(ls, at, None, compress) == Out(Wire(ls), None)
    {
      PackNameWire(ls, at, compress);
    }
  }
}
