/** packDomainName (msg.go): presentation form to wire form, with the compression of
    section 4.1.4 of RFC 1035. */
module PackNames {
  import opened Bytes
  import opened Names

  const MAX_OFFSET: nat := 16384 // maxCompressionOffset, 2 << 13

  /** Where each name suffix was written; only offsets that fit in 14 bits are kept. */
  type Offsets = m: map<str, nat> | forall k | k in m :: m[k] < MAX_OFFSET witness map[]

  /** The compression map that the packers share and fill. */
  class CompressionMap {
    var m: Offsets

    constructor ()
      ensures m == map[]
    {
      m := map[];
    }
  }

  // ---------- Specification ----------

  /** A compression pointer to offset p. */
  function Pointer(p: nat): (b: str)
    requires p < MAX_OFFSET
    ensures |b| == 2
  {
    U16(0xC000 + p)
  }

  /** Octets written, and the compression map afterwards; no map when compression is off. */
  datatype Out = Out(bytes: str, mp: Option<Offsets>)

  function Record(mp: Option<Offsets>, key: str, off: nat): Option<Offsets> {
    if mp.Some? && key !in mp.value && off < MAX_OFFSET then Some(mp.value[key := off]) else mp
  }

  predicate Hit(mp: Option<Offsets>, key: str) {
    mp.Some? && key in mp.value
  }

  /** The octets that stand for a name at offset off. Every suffix not seen before is recorded; with
      compress, the first suffix already recorded is replaced by a pointer. */
  function PackName(ls: seq<Label>, off: nat, mp: Option<Offsets>, compress: bool): (o: Out)
    requires ShortLabels(ls)
    ensures o.mp.Some? == mp.Some?
    ensures |o.bytes| <= LabelsLen(ls) + 1
  {
    if ls == [] then Out([0], mp)
    else if compress && Hit(mp, Join(ls)) then
      assert LabelsLen(ls) >= 1;
      Out(Pointer(mp.value[Join(ls)]), mp)
    else
      var rest := PackName(ls[1..], off + |ls[0]| + 1, Record(mp, Join(ls), off), compress);
      Out([|ls[0]|] + ls[0] + rest.bytes, rest.mp)
  }

  /** Without a map nothing is ever compressed. */
  lemma PackNameWire(ls: seq<Label>, off: nat, compress: bool)
    requires ShortLabels(ls)
    ensures PackName(ls, off, None, compress) == Out(Wire(ls), None)
  {
  }

  lemma PackNameNone(off: nat, mp: Option<Offsets>, compress: bool)
    ensures ShortLabels([]) && PackName([], off, mp, compress) == Out([0], mp)
  {
  }

  lemma PackNameMore(ls: seq<Label>, off: nat, mp: Option<Offsets>, compress: bool)
    requires ls != [] && ShortLabels(ls) && ShortLabels(ls[1..]) && !(compress && Hit(mp, Join(ls)))
    ensures var rest := PackName(ls[1..], off + |ls[0]| + 1, Record(mp, Join(ls), off), compress);
            PackName(ls, off, mp, compress) == Out([|ls[0]|] + ls[0] + rest.bytes, rest.mp)
  {
  }

  // ---------- The keys under which suffixes are recorded ----------

  /** What taking the escape off the front of s leaves behind at the end of the scratch array: the rest
      moves to the left, and the last octets stay where they were as well. */
  function Stale(s: str): (t: str)
    requires s != []
    ensures |t| == TokLen(s) - 1
  {
    if TokLen(s) == 1 then [] else if TokLen(s) == 2 then s[|s| - 1..] else s[|s| - 2..] + s[|s| - 1..]
  }

  /** The keys of the suffixes of name that are still to come: cur is the label under way, rest the raw text
      behind it, tail what the escapes so far left behind the live part of the scratch array. With compress a
      key is all the scratch array holds from the label on, stale tail and all; without, it is taken from the
      raw name, but at the place where the label begins in the scratch array. */
  function KeysFrom(name: str, cur: Label, rest: str, tail: str, compress: bool): (ks: seq<str>)
    requires |cur| + |rest| + |tail| <= |name|
    ensures |ks| == CountSeps(rest)
    decreases |rest|
  {
    if rest == [] || rest == [BACKSLASH] then []
    else
      match FirstTok(rest)
      case Lit(b) => KeysFrom(name, cur + [b], rest[TokLen(rest)..], Stale(rest) + tail, compress)
      case Sep =>
        var key := cur + rest + tail;
        [if compress then key else name[|name| - |key|..]] + KeysFrom(name, [], rest[1..], tail, compress)
  }

  /** One key for each label of the name. */
  function NameKeys(name: str, compress: bool): (ks: seq<str>)
    ensures Parse(name).Good? ==> |ks| == |Parse(name).labels|
  {
    if Parse(name).Good? then ParseCounts([], name, true); KeysFrom(name, [], name, [], compress)
    else KeysFrom(name, [], name, [], compress)
  }

  /** The octets that stand for a name at offset off, whose suffixes go by the given keys. Every key not seen
      before is recorded; with compress, at the first key already recorded the rest of the name is replaced
      by a pointer. */
  function PackKeyed(ls: seq<Label>, keys: seq<str>, off: nat, mp: Option<Offsets>, compress: bool): (o: Out)
    requires ShortLabels(ls) && |keys| == |ls|
    ensures o.mp.Some? == mp.Some?
    ensures |o.bytes| <= LabelsLen(ls) + 1
  {
    if ls == [] then Out([0], mp)
    else if compress && Hit(mp, keys[0]) then
      assert LabelsLen(ls) >= 1;
      Out(Pointer(mp.value[keys[0]]), mp)
    else
      var rest := PackKeyed(ls[1..], keys[1..], off + |ls[0]| + 1, Record(mp, keys[0], off), compress);
      Out([|ls[0]|] + ls[0] + rest.bytes, rest.mp)
  }

  /** The keys of the labels that are completed before the name ends or offends. */
  function UsedKeys(name: str, compress: bool): (ks: seq<str>)
    ensures |ks| == |Parse(name).labels| && ks <= NameKeys(name, compress)
    ensures Parse(name).Good? ==> ks == NameKeys(name, compress)
  {
    ParseCounts([], name, true);
    NameKeys(name, compress)[..|Parse(name).labels|]
  }

  /** One of the keys is known, so that a pointer takes the place of the rest of the name. */
  predicate Pointed(ls: seq<Label>, keys: seq<str>, off: nat, mp: Option<Offsets>, compress: bool)
    requires |keys| == |ls|
  {
    && ls != []
    && ((compress && Hit(mp, keys[0]))
        || Pointed(ls[1..], keys[1..], off + |ls[0]| + 1, Record(mp, keys[0], off), compress))
  }

  /** s has an empty or overlong label, and no pointer takes the place of the rest of it before that label. */
  predicate Refused(s: str, off: nat, mp: Option<Offsets>, compress: bool) {
    Parse(s).Bad? && !Pointed(Parse(s).labels, UsedKeys(s, compress), off, mp, compress)
  }

  /** What packDomainName writes for s at off, unless it is refused. Without escapes, and without a map, it is
      the packing of its labels. */
  function PackNamed(s: str, off: nat, mp: Option<Offsets>, compress: bool): (o: Out)
    ensures o.mp.Some? == mp.Some?
    ensures |o.bytes| <= LabelsLen(Parse(s).labels) + 1
    ensures Parse(s).Good? ==> |o.bytes| <= LabelsLen(Labels(s)) + 1
    ensures Parse(s).Good? && IsFqdn(s) && (mp.Some? ==> NoBackslash(s)) ==>
              o == PackName(Labels(s), off, mp, compress)
  {
    if s == ROOT then Out([0], mp)
    else if Parse(s).Good? then
      PackNamedPlain(s, off, mp, compress);
      PackKeyed(Labels(s), NameKeys(s, compress), off, mp, compress)
    else PackKeyed(Parse(s).labels, UsedKeys(s, compress), off, mp, compress)
  }

  lemma PackNamedIs(s: str, off: nat, mp: Option<Offsets>, compress: bool)
    requires s != ROOT
    ensures PackNamed(s, off, mp, compress) == PackKeyed(Parse(s).labels, UsedKeys(s, compress), off, mp, compress)
  {
    hide Parse, NameKeys, PackKeyed;
    if Parse(s).Good? { LabelsAre(s); }
  }

  lemma PackNamedPlain(s: str, off: nat, mp: Option<Offsets>, compress: bool)
    requires Parse(s).Good? && s != ROOT
    ensures IsFqdn(s) && (mp.Some? ==> NoBackslash(s)) ==>
              PackKeyed(Labels(s), NameKeys(s, compress), off, mp, compress) == PackName(Labels(s), off, mp, compress)
  {
    hide *;
    var ls, keys := Labels(s), NameKeys(s, compress);
    LabelsAre(s);
    if mp.None? {
      KeyedNone(ls, keys, off, compress);
      PackNameWire(ls, off, compress);
    } else if NoBackslash(s) && IsFqdn(s) {
      KeysAreJoins(s, compress);
      KeyedJoins(ls, off, mp, compress);
    }
  }

  lemma LabelsAre(s: str)
    requires Parse(s).Good? && s != ROOT
    ensures Labels(s) == Parse(s).labels
  {
  }

  lemma {:induction false} KeyedNone(ls: seq<Label>, keys: seq<str>, off: nat, compress: bool)
    requires ShortLabels(ls) && |keys| == |ls|
    ensures PackKeyed(ls, keys, off, None, compress) == Out(Wire(ls), None)
    decreases |ls|
  {
    hide *;
    if ls == [] {
      KeyedEnds(off, None, compress);
      assert keys == [];
    } else {
      ShortParts([], ls);
      NoHit(keys[0], off);
      KeyedMore(ls, keys, off, None, compress);
      KeyedNone(ls[1..], keys[1..], off + |ls[0]| + 1, compress);
      WireMore(ls);
    }
  }

  lemma NoHit(key: str, off: nat)
    ensures !Hit(None, key) && Record(None, key, off) == None
  {
  }

  lemma WireMore(ls: seq<Label>)
    requires ShortLabels(ls) && ls != [] && ShortLabels(ls[1..])
    ensures Wire(ls) == [|ls[0]|] + ls[0] + Wire(ls[1..])
  {
    assert LabelBytes(ls) == [|ls[0]|] + ls[0] + LabelBytes(ls[1..]);
  }

  lemma KeyedEnds(off: nat, mp: Option<Offsets>, compress: bool)
    ensures ShortLabels([]) && PackKeyed([], [], off, mp, compress) == Out([0], mp)
    ensures PackName([], off, mp, compress) == Out([0], mp) && Wire([]) == [0] && Joins([]) == []
  {
  }

  /** The keys of a name without escapes: its suffixes. */
  function Joins(ls: seq<Label>): (ks: seq<str>)
    ensures |ks| == |ls|
  {
    if ls == [] then [] else [Join(ls)] + Joins(ls[1..])
  }

  lemma {:induction false} KeyedJoins(ls: seq<Label>, off: nat, mp: Option<Offsets>, compress: bool)
    requires ShortLabels(ls)
    ensures PackKeyed(ls, Joins(ls), off, mp, compress) == PackName(ls, off, mp, compress)
    decreases |ls|
  {
    hide *;
    if ls == [] {
      KeyedEnds(off, mp, compress);
    } else if compress && Hit(mp, Join(ls)) {
      JoinsHit(ls, off, mp);
    } else {
      ShortParts([], ls);
      JoinsFirst(ls);
      KeyedMore(ls, Joins(ls), off, mp, compress);
      PackNameMore(ls, off, mp, compress);
      KeyedJoins(ls[1..], off + |ls[0]| + 1, Record(mp, Join(ls), off), compress);
    }
  }

  lemma JoinsHit(ls: seq<Label>, off: nat, mp: Option<Offsets>)
    requires ShortLabels(ls) && ls != [] && Hit(mp, Join(ls))
    ensures PackKeyed(ls, Joins(ls), off, mp, true) == PackName(ls, off, mp, true)
  {
    hide Join;
  }

  lemma JoinsFirst(ls: seq<Label>)
    requires ls != []
    ensures Joins(ls)[0] == Join(ls) && Joins(ls)[1..] == Joins(ls[1..])
  {
  }

  lemma KeysAreJoins(s: str, compress: bool)
    requires NoBackslash(s) && IsFqdn(s) && Parse(s).Good?
    ensures NameKeys(s, compress) == Joins(Parse(s).labels)
  {
    hide ParseFrom, KeysFrom;
    assert [] + s == s && s[|s| - |s|..] == s;
    KeysPlain(s, [], s, compress, true);
  }

  lemma {:induction false} KeysPlain(name: str, cur: Label, rest: str, compress: bool, first: bool)
    requires NoBackslash(rest) && ParseFrom(cur, rest, first).Good?
    requires if rest == [] then cur == [] else rest[|rest| - 1] == DOT
    requires |cur + rest| <= |name| && name[|name| - |cur + rest|..] == cur + rest
    ensures KeysFrom(name, cur, rest, [], compress) == Joins(ParseFrom(cur, rest, first).labels)
    decreases |rest|
  {
    hide *;
    if rest == [] {
      NothingLeft(cur, first);
      NoKeys(name, cur, [], compress);
    } else {
      NoBackslashRest(rest);
      PlainChar(cur, rest, first);
      var t := rest[1..];
      KeysChar(name, cur, rest, [], compress);
      if rest[0] == DOT {
        JoinParse(cur, rest, first);
        assert cur + rest + [] == cur + rest && [] + t == t;
        assert name[|name| - |t|..] == (cur + rest)[|cur| + 1..] == t;
        KeysPlain(name, [], t, compress, false);
        JoinsCons(cur, ParseFrom([], t, false).labels);
      } else {
        Concat3(cur, [rest[0]], t);
        KeysPlain(name, cur + [rest[0]], t, compress, first);
      }
    }
  }

  lemma JoinsCons(l: Label, ls: seq<Label>)
    ensures Joins([l] + ls) == [Join([l] + ls)] + Joins(ls)
  {
    assert ([l] + ls)[1..] == ls;
  }

  lemma NoKeys(name: str, cur: Label, tail: str, compress: bool)
    requires |cur| + |tail| <= |name|
    ensures KeysFrom(name, cur, [], tail, compress) == [] && Joins([]) == []
  {
  }

  /** One character that is not a backslash. */
  lemma KeysChar(name: str, cur: Label, rest: str, tail: str, compress: bool)
    requires |cur| + |rest| + |tail| <= |name| && rest != [] && rest[0] != BACKSLASH
    ensures rest[0] != DOT ==>
              KeysFrom(name, cur, rest, tail, compress) == KeysFrom(name, cur + [rest[0]], rest[1..], tail, compress)
    ensures rest[0] == DOT ==>
              var key := cur + rest + tail;
              KeysFrom(name, cur, rest, tail, compress)
              == [if compress then key else name[|name| - |key|..]] + KeysFrom(name, [], rest[1..], tail, compress)
  {
    assert [] + tail == tail;
  }

  lemma KeyedMore(ls: seq<Label>, keys: seq<str>, off: nat, mp: Option<Offsets>, compress: bool)
    requires ls != [] && |keys| == |ls| && ShortLabels(ls) && ShortLabels(ls[1..]) && !(compress && Hit(mp, keys[0]))
    ensures var rest := PackKeyed(ls[1..], keys[1..], off + |ls[0]| + 1, Record(mp, keys[0], off), compress);
            PackKeyed(ls, keys, off, mp, compress) == Out([|ls[0]|] + ls[0] + rest.bytes, rest.mp)
  {
  }

  /** Moves one written label from what is still to pack to what is done. */
  lemma KeyedStep(done: seq<Label>, ls: seq<Label>, keys: seq<str>, off: nat, mp: Option<Offsets>, compress: bool)
    requires ShortLabels(done) && ShortLabels(ls) && ls != [] && |keys| == |ls|
    requires !(compress && Hit(mp, keys[0]))
    ensures ShortLabels(done + [ls[0]]) && ShortLabels(ls[1..]) && |ls[0]| <= 63
    ensures var out := PackKeyed(ls, keys, off, mp, compress);
            var rest := PackKeyed(ls[1..], keys[1..], off + |ls[0]| + 1, Record(mp, keys[0], off), compress);
            LabelBytes(done) + out.bytes == LabelBytes(done + [ls[0]]) + rest.bytes && out.mp == rest.mp
  {
    hide *;
    var l := ls[0];
    ShortParts(done, ls);
    LabelBytesAppend(done, [l]);
    SingleLabelBytes(l);
    KeyedMore(ls, keys, off, mp, compress);
    var rest := PackKeyed(ls[1..], keys[1..], off + |l| + 1, Record(mp, keys[0], off), compress);
    Concat3(LabelBytes(done), [|l|] + l, rest.bytes);
  }

  lemma ShortParts(done: seq<Label>, ls: seq<Label>)
    requires ShortLabels(done) && ShortLabels(ls) && ls != []
    ensures |ls[0]| <= 63 && ShortLabels([ls[0]]) && ShortLabels(ls[1..]) && ShortLabels(done + [ls[0]])
  {
    assert ls[0] in ls;
    assert forall l | l in ls[1..] :: l in ls;
  }

  lemma SingleLabelBytes(l: Label)
    requires |l| <= 63
    ensures LabelBytes([l]) == [|l|] + l
  {
    assert LabelBytes([l]) == [|l|] + l + LabelBytes([]);
  }

  // ---------- The packer ----------

  /** Replaces the escape at bs[i] by the octet it stands for, closing the gap by shifting the rest
      left in place. Returns the new length of the live part. */
  method Unescape(bs: array<byte>, i: nat, ls: nat) returns (ls1: nat)
    requires i + 1 < ls <= bs.Length
    requires bs[i] == BACKSLASH
    modifies bs
    ensures i < ls1 <= ls
    ensures bs[..i] == old(bs[..i])
    ensures var s := old(bs[i..ls]); FirstTok(s) == Lit(bs[i]) && bs[i + 1..ls1] == s[TokLen(s)..]
    ensures var s := old(bs[i..ls]); bs[ls1..] == Stale(s) + old(bs[ls..])
  {
    hide FirstTok, TokLen, Stale, DddAt;
    ghost var s := bs[i..ls];
    ghost var b := bs[..];
    EscapeTok(s);
    ShiftLeft(bs, i, 1, ls);
    Shifted(b, bs[..], i, ls);
    ghost var rear := bs[ls - 1..];
    ls1 := ReadDdd(bs, i, ls - 1, s[1..]);
    TailSlices(s, b[ls..]);
  }

  lemma Shifted(b: str, now: str, i: nat, ls: nat)
    requires i + 1 < ls <= |b| == |now| && now[i..ls - 1] == b[i + 1..ls] && now[ls - 1..] == b[ls - 1..]
    ensures now[i..ls - 1] == b[i..ls][1..]
    ensures now[ls - 1..] == b[i..ls][ls - i - 1..] + b[ls..]
  {
  }

  lemma TailSlices(s: str, rear: str)
    requires |s| >= 2
    ensures s[1..][1..] == s[2..]
    ensures |s| > 3 ==> s[1..][3..] == s[4..]
    ensures |s| > 2 ==>
              s[1..][|s| - 3..] == s[|s| - 2..]
              && s[|s| - 2..] + (s[|s| - 1..] + rear) == s[|s| - 2..] + s[|s| - 1..] + rear
  {
  }

  /** Behind a backslash that is gone: three digits at bs[i], if they are there, become the octet they code. */
  method ReadDdd(bs: array<byte>, i: nat, ls: nat, ghost t: str) returns (ls1: nat)
    requires i < ls <= bs.Length && bs[i..ls] == t
    modifies bs
    ensures bs[..i] == old(bs[..i])
    ensures if |t| > 2 && IsDigit(t[0]) && IsDigit(t[1]) && IsDigit(t[2])
            then
              && ls1 == ls - 2 && bs[i] == DddToByte(t[0], t[1], t[2]) && bs[i + 1..ls1] == t[3..]
              && bs[ls1..] == t[|t| - 2..] + old(bs[ls..])
            else ls1 == ls && bs[i] == t[0] && bs[i + 1..ls] == t[1..] && bs[ls..] == old(bs[ls..])
  {
    ls1 := ls;
    ghost var head := bs[..i];
    assert forall k | 0 <= k < |t| :: bs[i + k] == bs[i..ls][k] == t[k];
    assert bs[i + 1..ls] == t[1..];
    if i + 2 < ls && IsDigit(bs[i]) && IsDigit(bs[i + 1]) && IsDigit(bs[i + 2]) {
      assert bs[i] == t[0] && bs[i + 1] == t[1] && bs[i + 2] == t[2];
      bs[i] := DddToByte(bs[i], bs[i + 1], bs[i + 2]);
      assert bs[i + 3..ls] == t[3..];
      assert bs[ls - 2..] == t[|t| - 2..] + bs[ls..];
      ShiftLeft(bs, i + 1, 2, ls);
      assert bs[..i] == bs[..i + 1][..i] == head;
      assert bs[i] == bs[..i + 1][i];
      ls1 := ls - 2;
    }
  }

  lemma EscapeTok(s: str)
    requires |s| >= 2 && s[0] == BACKSLASH
    ensures FirstTok(s).Lit?
    ensures if |s| > 3 && IsDigit(s[1]) && IsDigit(s[2]) && IsDigit(s[3])
            then FirstTok(s).b == DddToByte(s[1], s[2], s[3]) && TokLen(s) == 4
                 && Stale(s) == s[|s| - 2..] + s[|s| - 1..]
            else FirstTok(s).b == s[1] && TokLen(s) == 2 && Stale(s) == s[|s| - 1..]
  {
  }

  /** for j := from; j < ls-n; j++ { bs[j] = bs[j+n] } */
  method ShiftLeft(bs: array<byte>, from: nat, n: nat, ls: nat)
    requires from + n <= ls <= bs.Length
    modifies bs
    ensures bs[..from] == old(bs[..from])
    ensures bs[from..ls - n] == old(bs[from + n..ls])
    ensures bs[ls - n..] == old(bs[ls - n..])
  {
    for j := from to ls - n
      invariant forall k | 0 <= k < from :: bs[k] == old(bs[k])
      invariant forall k | from <= k < j :: bs[k] == old(bs[k + n])
      invariant forall k | j <= k < bs.Length :: bs[k] == old(bs[k])
    {
      bs[j] := bs[j + n];
    }
  }

  /** Writes the length octet and the octets bs[begin..i] of one label at off. Fails, after writing what
      fits, when the label does not fit in lenmsg octets; a nil msg is only measured. */
  method EmitLabel(bs: array<byte>, begin: nat, i: nat, msg: array?<byte>, off: nat, lenmsg: nat)
    returns (off1: nat, ok: bool)
    requires begin <= i <= bs.Length && i - begin < 64
    requires msg != null ==> msg != bs && lenmsg == msg.Length
    modifies msg
    ensures ok <==> off + 1 + (i - begin) <= lenmsg
    ensures ok ==> off1 == off + 1 + (i - begin)
    ensures ok && msg != null ==> msg[off..off1] == [i - begin] + bs[begin..i] && msg[off1..] == old(msg[off1..])
    ensures msg != null ==> Kept(old(msg[..]), msg[..], off)
  {
    off1 := off;
    if off1 + 1 > lenmsg {
      return off1, false;
    }
    if msg != null {
      msg[off1] := i - begin;
    }
    off1 := off1 + 1;
    for j := begin to i
      invariant off1 == off + 1 + (j - begin) <= lenmsg
      invariant msg != null ==> msg[off] == i - begin
      invariant msg != null ==> msg[off + 1..off1] == bs[begin..j]
      invariant msg != null ==> msg[..off] == old(msg[..off]) && msg[off1..] == old(msg[off1..])
    {
      if off1 + 1 > lenmsg {
        return off1, false;
      }
      if msg != null {
        msg[off1] := bs[j];
      }
      off1 := off1 + 1;
    }
    return off1, true;
  }

  /** The map as the specification sees it: none for a nil map. */
  ghost function MapOf(c: CompressionMap?): Option<Offsets>
    reads c
  {
    if c == null then None else Some(c.m)
  }

  /** Once the labels in done are written, the octets up to off1, packing the rest of ls from there
      completes what packing ls at off started. */
  ghost predicate Progress(ls: seq<Label>, keys: seq<str>, off: nat, mp0: Option<Offsets>, done: seq<Label>, off1: nat,
                           mp: Option<Offsets>, compress: bool)
    requires |keys| == |ls|
  {
    && done <= ls && ShortLabels(ls) && ShortLabels(done) && ShortLabels(ls[|done|..])
    && off1 == off + LabelsLen(done)
    && (Pointed(ls, keys, off, mp0, compress) <==> Pointed(ls[|done|..], keys[|done|..], off1, mp, compress))
    && var all := PackKeyed(ls, keys, off, mp0, compress);
       var rest := PackKeyed(ls[|done|..], keys[|done|..], off1, mp, compress);
       all.bytes == LabelBytes(done) + rest.bytes && all.mp == rest.mp
  }

  lemma ProgressStart(ls: seq<Label>, keys: seq<str>, off: nat, mp: Option<Offsets>, compress: bool)
    requires ShortLabels(ls) && |keys| == |ls|
    ensures Progress(ls, keys, off, mp, [], off, mp, compress)
  {
    assert ls[0..] == ls && keys[0..] == keys;
  }

  lemma ProgressStep(ls: seq<Label>, keys: seq<str>, off: nat, mp0: Option<Offsets>, done: seq<Label>, off1: nat,
                     mp: Option<Offsets>, compress: bool)
    requires |keys| == |ls| && Progress(ls, keys, off, mp0, done, off1, mp, compress) && |done| < |ls|
    requires !(compress && Hit(mp, keys[|done|]))
    ensures Progress(ls, keys, off, mp0, done + [ls[|done|]], off1 + |ls[|done|]| + 1,
                     Record(mp, keys[|done|], off1), compress)
  {
    hide PackKeyed, LabelBytes, Record, LabelsLen, Pointed;
    var l, more, moreKeys := ls[|done|], ls[|done|..], keys[|done|..];
    assert more[0] == l && more[1..] == ls[|done + [l]|..];
    assert moreKeys[0] == keys[|done|] && moreKeys[1..] == keys[|done + [l]|..];
    KeyedStep(done, more, moreKeys, off1, mp, compress);
    PointedStep(more, moreKeys, off1, mp, compress);
    LabelsLenSnoc(done, l);
  }

  lemma PointedStep(ls: seq<Label>, keys: seq<str>, off: nat, mp: Option<Offsets>, compress: bool)
    requires |keys| == |ls| && ls != []
    ensures Pointed(ls, keys, off, mp, compress) <==>
            (compress && Hit(mp, keys[0]))
            || Pointed(ls[1..], keys[1..], off + |ls[0]| + 1, Record(mp, keys[0], off), compress)
  {
  }

  lemma ProgressHit(ls: seq<Label>, keys: seq<str>, off: nat, mp0: Option<Offsets>, done: seq<Label>, off1: nat,
                    mp: Option<Offsets>, compress: bool)
    requires |keys| == |ls| && Progress(ls, keys, off, mp0, done, off1, mp, compress) && |done| < |ls|
    requires compress && Hit(mp, keys[|done|])
    ensures PackKeyed(ls, keys, off, mp0, compress) == Out(LabelBytes(done) + Pointer(mp.value[keys[|done|]]), mp)
    ensures Pointed(ls, keys, off, mp0, compress)
  {
  }

  lemma ProgressEnd(ls: seq<Label>, keys: seq<str>, off: nat, mp0: Option<Offsets>, off1: nat, mp: Option<Offsets>,
                    compress: bool)
    requires |keys| == |ls| && Progress(ls, keys, off, mp0, ls, off1, mp, compress)
    ensures PackKeyed(ls, keys, off, mp0, compress) == Out(LabelBytes(ls) + [0], mp)
    ensures !Pointed(ls, keys, off, mp0, compress)
  {
    assert ls[|ls|..] == [] && keys[|ls|..] == [];
  }

  /** What the name means, read from the middle of the loop: the labels in done, the label
      under way in bs[begin..i], and the raw rest in bs[i..ls]. */
  ghost function Meaning(bs: str, begin: nat, i: nat, ls: nat, done: seq<Label>): Parsed
    requires begin <= i <= ls <= |bs|
  {
    ParseFrom(bs[begin..i], bs[i..ls], begin == 0).Prepend(done)
  }

  lemma MeaningLit(bs: str, begin: nat, i: nat, ls: nat, done: seq<Label>)
    requires begin <= i < ls <= |bs| && bs[i] != BACKSLASH && bs[i] != DOT
    ensures Meaning(bs, begin, i, ls, done) == Meaning(bs, begin, i + 1, ls, done)
  {
    var t := bs[i..ls];
    assert t[0] == bs[i] && t[1..] == bs[i + 1..ls];
    assert bs[begin..i + 1] == bs[begin..i] + [bs[i]];
  }

  lemma MeaningEscape(bs: str, bs1: str, begin: nat, i: nat, ls: nat, ls1: nat, done: seq<Label>)
    requires begin <= i && i + 1 < ls <= |bs| && bs[i] == BACKSLASH
    requires i < ls1 <= ls && |bs1| == |bs| && bs1[..i] == bs[..i]
    requires FirstTok(bs[i..ls]) == Lit(bs1[i]) && bs1[i + 1..ls1] == bs[i..ls][TokLen(bs[i..ls])..]
    ensures Meaning(bs, begin, i, ls, done) == Meaning(bs1, begin, i + 1, ls1, done)
  {
    Unescaped(bs, bs1, begin, i);
    assert |bs[i..ls]| > 1;
  }

  lemma Unescaped(bs: str, bs1: str, begin: nat, i: nat)
    requires begin <= i < |bs| == |bs1| && bs1[..i] == bs[..i]
    ensures bs1[begin..i + 1] == bs[begin..i] + [bs1[i]]
  {
    assert bs1[begin..i] == bs1[..i][begin..] == bs[..i][begin..];
  }

  lemma MeaningSep(bs: str, begin: nat, i: nat, ls: nat, done: seq<Label>)
    requires begin <= i < ls <= |bs| && bs[i] == DOT
    ensures if (begin == i && begin != 0) || i - begin >= 64 then Meaning(bs, begin, i, ls, done) == Bad(done)
            else Meaning(bs, begin, i, ls, done) == Meaning(bs, i + 1, i + 1, ls, done + [bs[begin..i]])
  {
    var cur, t := bs[begin..i], bs[i..ls];
    assert t[0] == DOT && t[1..] == bs[i + 1..ls];
    assert bs[i + 1..i + 1] == [];
    var more := ParseFrom([], t[1..], false).labels;
    assert done + ([cur] + more) == done + [cur] + more;
    assert done + [] == done;
  }

  lemma MeaningEnd(bs: str, begin: nat, i: nat, done: seq<Label>)
    requires begin <= i <= |bs|
    ensures Meaning(bs, begin, i, i, done) == Good(done)
  {
    assert bs[i..i] == [];
    assert done + [] == done;
  }

  /** The keys still to come, read from the middle of the loop. */
  ghost function RestKeys(name: str, bs: str, begin: nat, i: nat, ls: nat, compress: bool): seq<str>
    requires begin <= i <= ls <= |bs| == |name|
  {
    KeysFrom(name, bs[begin..i], bs[i..ls], bs[ls..], compress)
  }

  lemma RestKeysChar(name: str, bs: str, begin: nat, i: nat, ls: nat, compress: bool)
    requires begin <= i < ls <= |bs| == |name| && bs[i] != BACKSLASH
    ensures bs[i] != DOT ==>
              RestKeys(name, bs, begin, i, ls, compress) == RestKeys(name, bs, begin, i + 1, ls, compress)
    ensures bs[i] == DOT ==>
              RestKeys(name, bs, begin, i, ls, compress)
              == [if compress then bs[begin..] else name[begin..]] + RestKeys(name, bs, i + 1, i + 1, ls, compress)
  {
    hide KeysFrom;
    var cur, t, tail := bs[begin..i], bs[i..ls], bs[ls..];
    KeysChar(name, cur, t, tail, compress);
    assert t[0] == bs[i] && t[1..] == bs[i + 1..ls];
    assert bs[begin..i + 1] == cur + [bs[i]];
    assert bs[i + 1..i + 1] == [];
    assert cur + t + tail == bs[begin..];
  }

  lemma RestKeysEscape(name: str, bs: str, bs1: str, begin: nat, i: nat, ls: nat, ls1: nat, compress: bool)
    requires begin <= i && i + 1 < ls <= |bs| == |name| && bs[i] == BACKSLASH
    requires i < ls1 <= ls && |bs1| == |bs| && bs1[..i] == bs[..i]
    requires FirstTok(bs[i..ls]) == Lit(bs1[i]) && bs1[i + 1..ls1] == bs[i..ls][TokLen(bs[i..ls])..]
    requires bs1[ls1..] == Stale(bs[i..ls]) + bs[ls..]
    ensures RestKeys(name, bs, begin, i, ls, compress) == RestKeys(name, bs1, begin, i + 1, ls1, compress)
  {
    hide FirstTok, TokLen;
    Unescaped(bs, bs1, begin, i);
    assert |bs[i..ls]| > 1;
  }

  // The loop's invariant, in five parts.

  /** The scanned name: bs[begin..i] is the label under way, bs[i..ls] the rest, done the labels before. */
  ghost predicate Scanning(bs: array<byte>, begin: nat, i: nat, ls: nat, escapedDot: bool, done: seq<Label>,
                           meaning: Parsed)
    reads bs
  {
    && begin <= i <= ls <= bs.Length
    && (i < ls ==> bs[ls - 1] == DOT)
    && (i > 0 ==> ((bs[i - 1] == DOT && !escapedDot) <==> i == begin))
    && (done == [] <==> begin == 0)
    && Meaning(bs[..], begin, i, ls, done) == meaning
  }

  /** The labels in done are written at off, up to off1. */
  ghost predicate Written(msg: array?<byte>, lenmsg: nat, off: nat, off1: nat, done: seq<Label>)
    reads msg
  {
    && (msg != null ==> lenmsg == msg.Length)
    && ShortLabels(done) && off1 == off + LabelsLen(done)
    && (done != [] ==> off1 <= lenmsg)
    && (done != [] && msg != null ==> msg[off..off1] == LabelBytes(done))
  }

  /** Nothing below off has changed. */
  ghost predicate Below(msg: array?<byte>, before: str, off: nat)
    reads msg
  {
    msg != null ==> Kept(before, msg[..], off)
  }

  /** From off on nothing has changed. */
  ghost predicate Beyond(msg: array?<byte>, before: str, off: nat)
    reads msg
  {
    msg != null ==> msg.Length == |before| && forall k | off <= k < msg.Length :: msg[k] == before[k]
  }

  /** The keys of the labels in done are used up; roBs is what the next key will be cut from, unless it is
      stale and refreshed first. */
  ghost predicate Keyed(name: str, bs: array<byte>, begin: nat, i: nat, ls: nat, roBs: str, bsFresh: bool,
                        done: seq<Label>,
                        compress: bool)
    reads bs
  {
    && begin <= i <= ls <= bs.Length == |name| == |roBs|
    && (if compress then bsFresh ==> roBs == bs[..] else roBs == name)
    && (name == ROOT ==> bs[..] == ROOT)
    && |done| <= |NameKeys(name, compress)|
    && NameKeys(name, compress)[|done|..] == RestKeys(name, bs[..], begin, i, ls, compress)
  }

  /** A name that ends in a separating dot has another label to come as long as it is not read to its end. */
  ghost predicate Closing(name: str, bs: array<byte>, i: nat, ls: nat)
    reads bs
  {
    i <= ls <= bs.Length && (EndsInSep(name) && i < ls ==> EndsInSep(bs[i..ls]))
  }

  /** The rest of the name is still to be packed. */
  ghost predicate Track(name: str, off: nat, mp0: Option<Offsets>, done: seq<Label>, off1: nat, mp: Option<Offsets>,
                        compress: bool)
  {
    name != ROOT ==> Progress(Parse(name).labels, UsedKeys(name, compress), off, mp0, done, off1, mp, compress)
  }

  lemma TrackStart(name: str, off: nat, mp: Option<Offsets>, compress: bool)
    ensures Track(name, off, mp, [], off, mp, compress)
  {
    ProgressStart(Parse(name).labels, UsedKeys(name, compress), off, mp, compress);
  }

  lemma TrackStep(name: str, off: nat, mp0: Option<Offsets>, done: seq<Label>, off1: nat, mp: Option<Offsets>,
                  compress: bool, cur: Label, key: str)
    requires Track(name, off, mp0, done, off1, mp, compress)
    requires |done| < |NameKeys(name, compress)| && key == NameKeys(name, compress)[|done|]
    requires name != ROOT ==> done + [cur] <= Parse(name).labels && !(compress && Hit(mp, key))
    ensures Track(name, off, mp0, done + [cur], off1 + |cur| + 1, Record(mp, key, off1), compress)
  {
    hide Progress, Parse, Record, ShortLabels, NameKeys, UsedKeys;
    if name != ROOT {
      var ls := Parse(name).labels;
      assert ls[|done|] == (done + [cur])[|done|] == cur;
      assert UsedKeys(name, compress)[|done|] == key;
      ProgressStep(ls, UsedKeys(name, compress), off, mp0, done, off1, mp, compress);
    }
  }

  lemma TrackHit(name: str, off: nat, mp0: Option<Offsets>, done: seq<Label>, off1: nat, mp: Option<Offsets>,
                 compress: bool, cur: Label, key: str)
    requires Track(name, off, mp0, done, off1, mp, compress)
    requires |done| < |NameKeys(name, compress)| && key == NameKeys(name, compress)[|done|]
    requires name != ROOT && done + [cur] <= Parse(name).labels
    requires compress && Hit(mp, key)
    ensures ShortLabels(done)
    ensures PackNamed(name, off, mp0, compress) == Out(LabelBytes(done) + Pointer(mp.value[key]), mp)
    ensures !Refused(name, off, mp0, compress)
  {
    hide Parse, NameKeys, PackKeyed, UsedKeys, PackNamed, Pointed;
    PackNamedIs(name, off, mp0, compress);
    assert UsedKeys(name, compress)[|done|] == key;
    ProgressHit(Parse(name).labels, UsedKeys(name, compress), off, mp0, done, off1, mp, compress);
  }

  lemma TrackRefused(name: str, off: nat, mp0: Option<Offsets>, done: seq<Label>, off1: nat, mp: Option<Offsets>,
                     compress: bool)
    requires Track(name, off, mp0, done, off1, mp, compress)
    requires name != ROOT && Parse(name) == Bad(done)
    ensures Refused(name, off, mp0, compress)
  {
    hide Parse, NameKeys, PackKeyed, UsedKeys;
    ProgressEnd(done, UsedKeys(name, compress), off, mp0, off1, mp, compress);
  }

  lemma TrackEnd(name: str, off: nat, mp0: Option<Offsets>, done: seq<Label>, off1: nat, mp: Option<Offsets>,
                 compress: bool)
    requires Track(name, off, mp0, done, off1, mp, compress)
    requires name != ROOT && Parse(name) == Good(done)
    ensures PackNamed(name, off, mp0, compress) == Out(LabelBytes(done) + [0], mp)
  {
    hide Parse, NameKeys, PackKeyed, UsedKeys, PackNamed;
    PackNamedIs(name, off, mp0, compress);
    ProgressEnd(done, UsedKeys(name, compress), off, mp0, off1, mp, compress);
  }

  /** The octets written so far are no more than the whole name needs. */
  lemma ScanRoom(bs: array<byte>, begin: nat, i: nat, ls: nat, escapedDot: bool, done: seq<Label>, meaning: Parsed)
    requires Scanning(bs, begin, i, ls, escapedDot, done, meaning) && meaning.Good?
    ensures LabelsLen(done) <= LabelsLen(meaning.labels)
  {
    PrefixLen(done, meaning.labels);
  }

  lemma PrefixLen(a: seq<Label>, b: seq<Label>)
    requires a <= b
    ensures LabelsLen(a) <= LabelsLen(b)
  {
    assert b == a + b[|a|..];
    LabelsLenAppend(a, b[|a|..]);
  }

  method ScanStart(name: str) returns (bs: array<byte>)
    requires IsFqdn(name)
    ensures fresh(bs) && bs[..] == name && bs.Length == |name|
    ensures Scanning(bs, 0, 0, |name|, false, [], Parse(name))
  {
    bs := new byte[|name|](k requires 0 <= k < |name| => name[k]);
    assert bs[..] == name;
    assert name[0..0] == [] && name[0..|name|] == name;
    assert [] + Parse(name).labels == Parse(name).labels;
  }

  lemma ScanLit(bs: array<byte>, begin: nat, i: nat, ls: nat, escapedDot: bool, done: seq<Label>, meaning: Parsed)
    requires Scanning(bs, begin, i, ls, escapedDot, done, meaning) && i < ls
    requires bs[i] != BACKSLASH && bs[i] != DOT
    ensures i + 1 <= ls && Scanning(bs, begin, i + 1, ls, false, done, meaning)
  {
    hide Meaning;
    MeaningLit(bs[..], begin, i, ls, done);
  }

  lemma ScanSep(bs: array<byte>, begin: nat, i: nat, ls: nat, escapedDot: bool, done: seq<Label>, meaning: Parsed)
    requires Scanning(bs, begin, i, ls, escapedDot, done, meaning) && i < ls && bs[i] == DOT
    ensures begin <= i <= bs.Length
    ensures i == begin && i > 0 ==> bs[i - 1] == DOT && !escapedDot
    ensures (i > 0 && bs[i - 1] == DOT && !escapedDot) || i - begin >= 64 ==> meaning == Bad(done)
    ensures !(i > 0 && bs[i - 1] == DOT && !escapedDot) && i - begin < 64 ==>
              && Scanning(bs, i + 1, i + 1, ls, false, done + [bs[begin..i]], meaning)
              && done + [bs[begin..i]] <= meaning.labels
  {
    MeaningSep(bs[..], begin, i, ls, done);
    assert bs[..][begin..i] == bs[begin..i];
  }

  lemma ScanEnd(bs: array<byte>, begin: nat, i: nat, escapedDot: bool, done: seq<Label>, meaning: Parsed)
    requires Scanning(bs, begin, i, i, escapedDot, done, meaning)
    ensures meaning == Good(done)
  {
    MeaningEnd(bs[..], begin, i, done);
  }

  method ScanEscape(bs: array<byte>, begin: nat, i: nat, ls: nat, escapedDot: bool, ghost done: seq<Label>,
                    ghost meaning: Parsed, ghost name: str, ghost roBs: str, ghost bsFresh: bool, ghost compress: bool)
    returns (ls1: nat)
    requires Scanning(bs, begin, i, ls, escapedDot, done, meaning) && i < ls && bs[i] == BACKSLASH
    requires Keyed(name, bs, begin, i, ls, roBs, bsFresh, done, compress) && Closing(name, bs, i, ls)
    modifies bs
    ensures begin <= i < ls1 <= ls && Scanning(bs, begin, i + 1, ls1, bs[i] == DOT, done, meaning)
    ensures Keyed(name, bs, begin, i + 1, ls1, roBs, false, done, compress) && Closing(name, bs, i + 1, ls1)
  {
    hide RestKeys, ParseFrom, EndsInSep, TokLen, FirstTok, Meaning, Stale, NameKeys;
    ghost var b := bs[..];
    assert b[i..ls] == bs[i..ls] && b[ls..] == bs[ls..];
    assert b[i] == BACKSLASH;
    assert i + 1 < ls;
    ls1 := Unescape(bs, i, ls);
    ghost var now := bs[..];
    assert now[i + 1..ls1] == bs[i + 1..ls1] && now[ls1..] == bs[ls1..] && now[..i] == bs[..i];
    MeaningEscape(b, now, begin, i, ls, ls1, done);
    RestKeysEscape(name, b, now, begin, i, ls, ls1, compress);
    SepStep(b[i..ls]);
    if i + 1 < ls1 {
      assert bs[ls1 - 1] == bs[i + 1..ls1][ls1 - i - 2];
      assert b[i..ls][|b[i..ls]| - 1] == DOT;
    }
  }

  /** A name that ends in a separating dot has a label left to write wherever it is read. */
  lemma LabelLeft(name: str, bs: array<byte>, begin: nat, i: nat, ls: nat, escapedDot: bool, done: seq<Label>)
    requires Scanning(bs, begin, i, ls, escapedDot, done, Parse(name)) && Closing(name, bs, i, ls)
    requires EndsInSep(name) && Parse(name).Good? && i < ls
    ensures LabelsLen(done) + 1 <= LabelsLen(Parse(name).labels)
  {
    hide Parse, ParseFrom, EndsInSep;
    var cur, t := bs[..][begin..i], bs[..][i..ls];
    assert t == bs[i..ls];
    var more := ParseFrom(cur, t, begin == 0).labels;
    ParseCounts(cur, t, begin == 0);
    SepsSome(t);
    assert Parse(name).labels == done + more;
    LabelsLenAppend(done, more);
  }

  lemma {:induction false} SepsSome(s: str)
    requires EndsInSep(s)
    ensures CountSeps(s) >= 1
    decreases |s|
  {
    if TokLen(s) < |s| {
      SepsSome(s[TokLen(s)..]);
    }
  }

  method WriteLabel(bs: array<byte>, begin: nat, i: nat, msg: array?<byte>, ghost off: nat, off1: nat, lenmsg: nat,
                    ghost done: seq<Label>, ghost before: str)
    returns (off2: nat, ok: bool)
    requires begin <= i <= bs.Length && i - begin < 64 && msg != bs
    requires Written(msg, lenmsg, off, off1, done) && Below(msg, before, off) && Beyond(msg, before, off1)
    modifies msg
    ensures Below(msg, before, off)
    ensures ok ==> Beyond(msg, before, off2)
    ensures ok <==> off1 + 1 + (i - begin) <= lenmsg
    ensures ok ==> off2 == off1 + 1 + (i - begin) && Written(msg, lenmsg, off, off2, done + [bs[begin..i]])
    ensures ok && done != [] && msg != null ==> msg[off..off1] == LabelBytes(done)
  {
    hide LabelBytes, LabelsLen, ShortLabels;
    ghost var l := bs[begin..i];
    ghost var was := if msg == null then [] else msg[..];
    LabelsLenSnoc(done, l);
    off2, ok := EmitLabel(bs, begin, i, msg, off1, lenmsg);
    if ok {
      LabelBytesSnoc(done, l);
      if msg != null {
        WrittenSo(was, off, off1, done);
        LabelBehind(was, msg[..], off, off1, off2, LabelBytes(done), [|l|] + l);
        assert forall k | off2 <= k < msg.Length :: msg[k] == msg[off2..][k - off2] == was[k];
      }
    }
    if msg != null { KeptTrans(before, was, msg[..], off, off1); }
  }

  lemma WrittenSo(was: str, off: nat, off1: nat, done: seq<Label>)
    requires ShortLabels(done) && off1 == off + LabelsLen(done) && off1 <= |was|
    requires done != [] ==> was[off..off1] == LabelBytes(done)
    ensures off <= off1 && was[off..off1] == LabelBytes(done)
  {
  }

  lemma LabelBehind(was: str, now: str, off: nat, off1: nat, off2: nat, x: str, y: str)
    requires off <= off1 <= off2 <= |now| && Kept(was, now, off1) && was[off..off1] == x && now[off1..off2] == y
    ensures now[off..off1] == x && now[off..off2] == x + y
  {
    Splice(was, now, off, off1, off2, x, y);
    assert now[off..off1] == now[off..off2][..off1 - off];
  }

  /** The octets of o sit at off; only its last one, the final zero, may be missing for lack of room. */
  ghost predicate PackedAt(msg: array<byte>, off: nat, off1: nat, o: Out)
    reads msg
  {
    && off1 == off + |o.bytes|
    && (off <= msg.Length ==> off1 <= msg.Length + 1)
    && (off1 <= msg.Length ==> msg[off..off1] == o.bytes)
  }

  lemma ParseRoot()
    ensures Parse(ROOT) == Good([[]]) && Labels(ROOT) == []
  {
    assert ROOT[1..] == [];
    assert ParseFrom([], [], false) == Good([]);
    assert FirstTok(ROOT) == Sep;
  }

  method PackDomainName(s: str, msg: array?<byte>, off: nat, compression: CompressionMap?, compress: bool)
    returns (off1: nat, labels: nat, err: Error)
    modifies msg, compression
    ensures s == [] ==> off1 == off && labels == 0 && err == NoError
    ensures s == [] && msg != null ==> msg[..] == old(msg[..]) && MapOf(compression) == old(MapOf(compression))
    ensures msg != null && s != [] && !IsFqdn(s) ==> err == ErrFqdn
    ensures msg != null ==> Kept(old(msg[..]), msg[..], off)
    ensures err == NoError ==> off <= off1
    ensures msg != null && s != [] && compression == null && err == NoError ==> Beyond(msg, old(msg[..]), off1)
    // which names are refused
    ensures compression == null && IsFqdn(s) && Parse(s).Bad? ==> err == ErrRdata || err == ErrBuf
    ensures IsFqdn(s) && err == ErrRdata ==> Parse(s).Bad?
    ensures compression == null && s != [] && err == NoError ==>
              Parse(Fqdn(s)).Good? && labels == |Parse(Fqdn(s)).labels|
    ensures IsFqdn(s) && err == NoError ==> !Refused(s, off, old(MapOf(compression)), compress)
    ensures IsFqdn(s) && err == ErrRdata ==> Refused(s, off, old(MapOf(compression)), compress)
    // what is written for the others
    ensures msg != null && IsFqdn(s) && err == NoError ==>
              var o := PackNamed(s, off, old(MapOf(compression)), compress);
              PackedAt(msg, off, off1, o) && MapOf(compression) == o.mp
    // room for its characters and one octet is enough, whatever the name
    ensures msg != null && IsFqdn(s) && off + |s| < msg.Length ==> err in {NoError, ErrRdata} && off1 <= msg.Length
    // room for the uncompressed form is enough, and its final zero needs no room
    ensures msg != null && ValidName(s) && HasRoom(s, off, msg.Length) ==> err == NoError
    ensures msg == null && compression == null && ValidName(s) && LabelsLen(Labels(s)) < 256 - off ==> err == NoError
  {
    hide ParseFrom, LabelsLen, PackNamed, Parse, ValidLabels, Kept, Labels, LabelBytes, PackedAt, FirstTok, TokLen,
         EndsInSep, Refused, Beyond, MapOf;
    var lenmsg := if msg == null then 256 else msg.Length;
    if msg != null { KeptRefl(msg[..], off); }
    if s == [] {
      return off, 0, NoError;
    }
    var name := s;
    if s[|s| - 1] != DOT {
      if msg != null {
        return lenmsg, 0, ErrFqdn;
      }
      name := s + [DOT];
    }
    ghost var j := Job(name, off, lenmsg, MapOf(compression), compress, if msg == null then [] else msg[..]);
    off1, labels, err := PackLabels(j, name, msg, off, compression, compress, lenmsg);
  }

  /** The loop over the characters of a name that ends in a dot, and what follows it. */
  method PackLabels(ghost j: Job, name: str, msg: array?<byte>, off: nat, compression: CompressionMap?, compress: bool,
                    lenmsg: nat)
    returns (off1: nat, labels: nat, err: Error)
    requires IsFqdn(name) && lenmsg == if msg == null then 256 else msg.Length
    requires j == Job(name, off, lenmsg, MapOf(compression), compress, if msg == null then [] else msg[..])
    modifies msg, compression
    ensures Below(msg, j.before, off) && err in {NoError, ErrRdata, ErrBuf, IndexPanic}
    ensures err == NoError ==> off <= off1 && !j.Offends()
    ensures err == NoError && msg != null ==>
              && PackedAt(msg, off, off1, j.Expected()) && MapOf(compression) == j.Expected().mp
              && (off + |name| < lenmsg ==> off1 <= lenmsg)
    ensures err == NoError && compression == null ==>
              Beyond(msg, j.before, off1) && Parse(name).Good? && labels == |Parse(name).labels|
    ensures err == ErrRdata ==> Parse(name).Bad? && j.Offends() && off1 == lenmsg
    ensures err == ErrBuf ==> !j.Fits() && off + |name| >= lenmsg
    ensures err == IndexPanic ==>
              && compression != null
              && (msg != null ==>
                    off + |name| >= lenmsg && !(Parse(name).Good? && ValidLabels(Labels(name))))
  {
    hide Inv, ParseFrom, LabelsLen, PackNamed, Parse, ValidLabels, Kept, Labels, LabelBytes, PackedAt, FirstTok,
         TokLen, EndsInSep, Refused, Beyond, MapOf, HasRoom, Below;
    ghost var done := [];
    var ls := |name|;
    var nameoffset, pointer: int := 0, -1;
    var begin, i := 0, 0;
    off1, labels := off, 0;
    var bs := ScanStart(name);
    var roBs, bsFresh, escapedDot := name, true, false;
    InvStart(j, bs, msg);
    while i < ls
      invariant begin <= i <= ls <= bs.Length == |name| && labels == |done| && off1 == off + begin
      invariant Inv(j, bs, msg, MapOf(compression), begin, i, ls, escapedDot, roBs, bsFresh, off1, done)
      invariant pointer == -1
      decreases ls - i
    {
      if bs[i] == BACKSLASH {
        InvRoom(j, bs, msg, MapOf(compression), begin, i, ls, escapedDot, roBs, bsFresh, off1, done);
        if off1 + 1 > lenmsg {
          return lenmsg, labels, ErrBuf;
        }
        ls := EscapeStep(j, bs, msg, MapOf(compression), begin, i, ls, escapedDot, roBs, bsFresh, off1, done);
        escapedDot := bs[i] == DOT;
        bsFresh := false;
        i := i + 1;
        continue;
      }
      if bs[i] == DOT {
        nameoffset := off1;
        off1, pointer, roBs, bsFresh, err :=
          DotStep(j, bs, msg, compression, compress, begin, i, ls, escapedDot, roBs, bsFresh, off1, lenmsg, done);
        if err != NoError {
          return lenmsg, labels, err;
        }
        if pointer != -1 {
          break;
        }
        done := done + [bs[begin..i]];
        labels := labels + 1;
        begin := i + 1;
      } else {
        InvLit(j, bs, msg, MapOf(compression), begin, i, ls, escapedDot, roBs, bsFresh, off1, done);
      }
      escapedDot := false;
      i := i + 1;
    }
    if bs.Length == 1 && bs[0] == DOT {
      RootPacked(j, bs, msg, MapOf(compression), begin, i, ls, escapedDot, roBs, bsFresh, off1, done);
      return off1, labels, NoError;
    }
    if pointer != -1 {
      off1, err := FinishPointer(j, msg, nameoffset, pointer, off1, lenmsg, MapOf(compression), done, bs[begin..i]);
      return off1, labels, err;
    }
    InvRoot(j, bs, msg, MapOf(compression), begin, i, ls, escapedDot, roBs, bsFresh, off1, done);
    off1 := FinishZero(j, bs, msg, MapOf(compression), begin, i, ls, escapedDot, roBs, bsFresh, off1, done);
    return off1, labels, NoError;
  }

  /** The uncompressed name fits between off and lenmsg; only the final zero may be beyond, if the name has no
      octets behind its last label. */
  predicate HasRoom(name: str, off: nat, lenmsg: nat)
    requires Parse(name).Good?
  {
    || off + LabelsLen(Labels(name)) < lenmsg
    || (off + LabelsLen(Labels(name)) == lenmsg && name != ROOT && EndsInSep(name))
  }

  /** Without a map the name takes just the octets of its labels and the final zero. */
  lemma ExactEnd(msg: array<byte>, s: str, off: nat, off1: nat, compress: bool)
    requires Parse(s).Good? && IsFqdn(s) && PackedAt(msg, off, off1, PackNamed(s, off, None, compress))
    ensures off1 == off + LabelsLen(Labels(s)) + 1
  {
    hide PackNamed;
    PackNameWire(Labels(s), off, compress);
  }

  /** What PackDomainName was called with, and the buffer as it was. */
  datatype Job = Job(name: str, off: nat, lenmsg: nat, mp: Option<Offsets>, compress: bool, before: str) {
    ghost predicate Fits() { Parse(name).Good? && HasRoom(name, off, lenmsg) }

    ghost function Expected(): Out { PackNamed(name, off, mp, compress) }

    ghost predicate Offends() { Refused(name, off, mp, compress) }
  }

  /** The whole loop invariant. */
  ghost predicate Inv(j: Job, bs: array<byte>, msg: array?<byte>, mp: Option<Offsets>, begin: nat, i: nat, ls: nat,
                      escapedDot: bool, roBs: str, bsFresh: bool, off1: nat, done: seq<Label>)
    reads bs, msg
  {
    && bs.Length == |roBs| == |j.name| && msg != bs && IsFqdn(j.name)
    && Scanning(bs, begin, i, ls, escapedDot, done, Parse(j.name))
    && Written(msg, j.lenmsg, j.off, off1, done)
    && Below(msg, j.before, j.off)
    && Beyond(msg, j.before, off1)
    && Keyed(j.name, bs, begin, i, ls, roBs, bsFresh, done, j.compress)
    && Closing(j.name, bs, i, ls)
    && mp.Some? == j.mp.Some?
    && Track(j.name, j.off, j.mp, done, off1, mp, j.compress)
    && (j.name == ROOT ==> mp == j.mp)
  }

  lemma InvStart(j: Job, bs: array<byte>, msg: array?<byte>)
    requires IsFqdn(j.name) && bs[..] == j.name && bs.Length == |j.name| && msg != bs
    requires Scanning(bs, 0, 0, |j.name|, false, [], Parse(j.name))
    requires msg != null ==> j.lenmsg == msg.Length && j.before == msg[..]
    ensures Inv(j, bs, msg, j.mp, 0, 0, |j.name|, false, j.name, true, j.off, [])
  {
    hide Scanning, Track, ParseFrom, EndsInSep;
    TrackStart(j.name, j.off, j.mp, j.compress);
    var all := NameKeys(j.name, j.compress);
    assert all[0..] == all && j.name[0..0] == [] && bs[0..|j.name|] == j.name && j.name[0..|j.name|] == j.name;
    assert j.name[|j.name|..] == [];
    assert RestKeys(j.name, bs[..], 0, 0, |j.name|, j.compress) == all by {
      hide KeysFrom, ParseFrom;
    }
  }

  lemma InvRoom(j: Job, bs: array<byte>, msg: array?<byte>, mp: Option<Offsets>, begin: nat, i: nat, ls: nat,
                escapedDot: bool, roBs: str, bsFresh: bool, off1: nat, done: seq<Label>)
    requires Inv(j, bs, msg, mp, begin, i, ls, escapedDot, roBs, bsFresh, off1, done)
    requires i < ls && bs[i] == BACKSLASH
    ensures j.Fits() ==> off1 + 1 <= j.lenmsg
    ensures Below(msg, j.before, j.off)
  {
    hide Scanning, Track, Parse, ParseFrom, Keyed, EndsInSep, Closing, LabelsLen;
    if j.Fits() && j.name != ROOT {
      LabelsAre(j.name);
      ScanRoom(bs, begin, i, ls, escapedDot, done, Parse(j.name));
      if EndsInSep(j.name) {
        LabelLeft(j.name, bs, begin, i, ls, escapedDot, done);
      }
    }
    RootUnread(j.name, bs, begin, i, ls, roBs, bsFresh, done, j.compress);
  }

  lemma RootUnread(name: str, bs: array<byte>, begin: nat, i: nat, ls: nat, roBs: str, bsFresh: bool, done: seq<Label>,
                   compress: bool)
    requires Keyed(name, bs, begin, i, ls, roBs, bsFresh, done, compress)
    ensures i <= ls <= bs.Length
    ensures name == ROOT ==> bs.Length == 1 && bs[0] == DOT
  {
    hide RestKeys, NameKeys;
    if name == ROOT {
      assert bs[0] == bs[..][0];
    }
  }

  lemma InvRoot(j: Job, bs: array<byte>, msg: array?<byte>, mp: Option<Offsets>, begin: nat, i: nat, ls: nat,
                escapedDot: bool, roBs: str, bsFresh: bool, off1: nat, done: seq<Label>)
    requires Inv(j, bs, msg, mp, begin, i, ls, escapedDot, roBs, bsFresh, off1, done)
    ensures j.name == ROOT ==> bs.Length == 1 && bs[0] == DOT
  {
    hide Scanning, Track, Written, Parse, Keyed, Closing, Below;
    RootUnread(j.name, bs, begin, i, ls, roBs, bsFresh, done, j.compress);
  }

  lemma InvLit(j: Job, bs: array<byte>, msg: array?<byte>, mp: Option<Offsets>, begin: nat, i: nat, ls: nat,
               escapedDot: bool, roBs: str, bsFresh: bool, off1: nat, done: seq<Label>)
    requires Inv(j, bs, msg, mp, begin, i, ls, escapedDot, roBs, bsFresh, off1, done)
    requires i < ls && bs[i] != BACKSLASH && bs[i] != DOT
    ensures Inv(j, bs, msg, mp, begin, i + 1, ls, false, roBs, bsFresh, off1, done)
  {
    hide Scanning, Track, Written, ParseFrom, RestKeys, NameKeys, EndsInSep, Parse, Below;
    ScanLit(bs, begin, i, ls, escapedDot, done, Parse(j.name));
    RestKeysChar(j.name, bs[..], begin, i, ls, j.compress);
    ClosingStep(j.name, bs, i, ls);
  }

  lemma ClosingStep(name: str, bs: array<byte>, i: nat, ls: nat)
    requires Closing(name, bs, i, ls) && i < ls && bs[i] != BACKSLASH
    ensures Closing(name, bs, i + 1, ls)
  {
    assert bs[i..ls][1..] == bs[i + 1..ls];
  }

  method EscapeStep(ghost j: Job, bs: array<byte>, ghost msg: array?<byte>, ghost mp: Option<Offsets>, begin: nat,
                    i: nat, ls: nat,
                    escapedDot: bool, ghost roBs: str, ghost bsFresh: bool, ghost off1: nat, ghost done: seq<Label>)
    returns (ls1: nat)
    requires Inv(j, bs, msg, mp, begin, i, ls, escapedDot, roBs, bsFresh, off1, done)
    requires i < ls <= bs.Length && bs[i] == BACKSLASH
    modifies bs
    ensures begin <= i < ls1 <= ls
    ensures Inv(j, bs, msg, mp, begin, i + 1, ls1, bs[i] == DOT, roBs, false, off1, done)
  {
    hide Scanning, Track, Written, ParseFrom, Parse, Closing, Keyed, Below;
    RootUnread(j.name, bs, begin, i, ls, roBs, bsFresh, done, j.compress);
    ls1 := ScanEscape(bs, begin, i, ls, escapedDot, done, Parse(j.name), j.name, roBs, bsFresh, j.compress);
  }

  /** One separating dot: checks and writes the label before it, then looks the suffix up. */
  method DotStep(ghost j: Job, bs: array<byte>, msg: array?<byte>, compression: CompressionMap?, compress: bool,
                 begin: nat, i: nat, ls: nat, escapedDot: bool, roBs: str, bsFresh: bool, off1: nat, lenmsg: nat,
                 ghost done: seq<Label>)
    returns (off2: nat, pointer: int, roBs1: str, bsFresh1: bool, err: Error)
    requires Inv(j, bs, msg, MapOf(compression), begin, i, ls, escapedDot, roBs, bsFresh, off1, done)
    requires begin <= i < ls <= bs.Length && bs[i] == DOT && compress == j.compress && lenmsg == j.lenmsg
    modifies msg, compression
    ensures Below(msg, j.before, j.off)
    ensures err in {NoError, ErrRdata, ErrBuf}
    ensures err == ErrRdata ==> Parse(j.name).Bad? && j.Offends()
    ensures err == ErrBuf ==> !j.Fits() && off1 + 1 + (i - begin) > lenmsg
    ensures err == NoError ==> off2 == off1 + 1 + (i - begin)
    ensures err == NoError && pointer == -1 ==>
              Inv(j, bs, msg, MapOf(compression), i + 1, i + 1, ls, false, roBs1, bsFresh1, off2, done + [bs[begin..i]])
    ensures pointer == -1 || 0 <= pointer < MAX_OFFSET
    ensures err == NoError && pointer != -1 ==>
              && compression != null && j.name != ROOT
              && HitAt(j, msg, off1, pointer, off2, MapOf(compression), done, bs[begin..i])
  {
    hide Scanning, Track, Parse, Written, LabelsLen, Keyed, Closing, NameKeys, Refused;
    ghost var meaning := Parse(j.name);
    roBs1, bsFresh1, pointer, off2 := roBs, bsFresh, -1, off1;
    ScanSep(bs, begin, i, ls, escapedDot, done, meaning);
    DotRefused(j, done, off1, MapOf(compression));
    if i > 0 && bs[i - 1] == DOT && !escapedDot {
      return off2, pointer, roBs1, bsFresh1, ErrRdata;
    }
    if i - begin >= 64 {
      return off2, pointer, roBs1, bsFresh1, ErrRdata;
    }
    ghost var cur := bs[begin..i];
    RoomForLabel(j, done, cur, msg, off1);
    var ok;
    off2, ok := WriteLabel(bs, begin, i, msg, j.off, off1, lenmsg, done, j.before);
    if !ok {
      return off2, pointer, roBs1, bsFresh1, ErrBuf;
    }
    if compress && !bsFresh {
      roBs1, bsFresh1 := bs[..], true;
    }
    KeySep(j.name, bs, begin, i, ls, roBs, bsFresh, done, cur, compress, roBs1, bsFresh1);
    ClosingStep(j.name, bs, i, ls);
    ghost var mp := MapOf(compression);
    if compression != null && roBs1[begin..] != ROOT {
      pointer := LookUp(compression, roBs1[begin..], off1, compress);
    }
    DotTrack(j, done, off1, mp, cur, roBs1[begin..], MapOf(compression), pointer);
    return off2, pointer, roBs1, bsFresh1, NoError;
  }

  /** At a separating dot the next key is looked up, and one key fewer is to come. */
  lemma KeySep(name: str, bs: array<byte>, begin: nat, i: nat, ls: nat, roBs: str, bsFresh: bool, done: seq<Label>,
               cur: Label, compress: bool, roBs1: str, bsFresh1: bool)
    requires Keyed(name, bs, begin, i, ls, roBs, bsFresh, done, compress)
    requires i < ls && bs[i] == DOT && (i == begin && i > 0 ==> name == ROOT)
    requires if compress && !bsFresh then roBs1 == bs[..] && bsFresh1 else roBs1 == roBs && bsFresh1 == bsFresh
    ensures begin <= |roBs1| == |name|
    ensures Keyed(name, bs, i + 1, i + 1, ls, roBs1, bsFresh1, done + [cur], compress)
    ensures |done| < |NameKeys(name, compress)| && NameKeys(name, compress)[|done|] == roBs1[begin..]
    ensures IsFqdn(name) && name != ROOT ==> roBs1[begin..] != ROOT
    ensures name == ROOT ==> roBs1[begin..] == ROOT
  {
    hide RestKeys, NameKeys;
    RestKeysChar(name, bs[..], begin, i, ls, compress);
    var keys := NameKeys(name, compress);
    assert keys[|done| + 1..] == keys[|done|..][1..];
  }

  /** A suffix already recorded was found, and the label just written at nameoffset makes way for it. */
  ghost predicate HitAt(j: Job, msg: array?<byte>, nameoffset: nat, pointer: nat, off1: nat, mp: Option<Offsets>,
                        done: seq<Label>, cur: Label)
    requires pointer < MAX_OFFSET
    reads msg
  {
    && Written(msg, j.lenmsg, j.off, off1, done + [cur]) && off1 == nameoffset + |cur| + 1
    && Below(msg, j.before, j.off)
    && done + [cur] <= Parse(j.name).labels
    && ShortLabels(done) && j.Expected() == Out(LabelBytes(done) + Pointer(pointer), mp) && !j.Offends()
  }

  lemma DotRefused(j: Job, done: seq<Label>, off1: nat, mp: Option<Offsets>)
    requires Track(j.name, j.off, j.mp, done, off1, mp, j.compress)
    ensures Parse(j.name) == Bad(done) ==> j.Offends()
  {
    hide Track, Parse, Refused;
    ParseRoot();
    if Parse(j.name) == Bad(done) {
      TrackRefused(j.name, j.off, j.mp, done, off1, mp, j.compress);
    }
  }

  lemma DotTrack(j: Job, done: seq<Label>, off1: nat, mp: Option<Offsets>, cur: Label, key: str,
                 mp1: Option<Offsets>, pointer: int)
    requires Track(j.name, j.off, j.mp, done, off1, mp, j.compress)
    requires |done| < |NameKeys(j.name, j.compress)| && key == NameKeys(j.name, j.compress)[|done|]
    requires mp.Some? == j.mp.Some?
    requires j.name == ROOT <==> key == ROOT
    requires done + [cur] <= Parse(j.name).labels
    requires if mp.Some? && key != ROOT
             then if j.compress && Hit(mp, key) then mp1 == mp && pointer == mp.value[key]
                  else mp1 == Record(mp, key, off1) && pointer == -1
             else mp1 == mp && pointer == -1
    requires j.name == ROOT ==> mp == j.mp
    ensures pointer == -1 ==> Track(j.name, j.off, j.mp, done + [cur], off1 + |cur| + 1, mp1, j.compress)
    ensures j.name == ROOT ==> mp1 == j.mp && pointer == -1
    ensures 0 <= pointer < MAX_OFFSET || pointer == -1
    ensures pointer != -1 ==>
              ShortLabels(done) && j.Expected() == Out(LabelBytes(done) + Pointer(pointer), mp1) && !j.Offends()
  {
    hide Track, Parse, NameKeys, LabelBytes, PackNamed, Refused;
    if j.name != ROOT && pointer != -1 {
      TrackHit(j.name, j.off, j.mp, done, off1, mp, j.compress, cur, key);
    } else if pointer == -1 {
      if j.name == ROOT {
        TrackRoot(j.off, j.mp, done + [cur], off1 + |cur| + 1, mp1, j.compress);
      } else {
        TrackStep(j.name, j.off, j.mp, done, off1, mp, j.compress, cur, key);
      }
    }
  }

  lemma TrackRoot(off: nat, mp0: Option<Offsets>, done: seq<Label>, off1: nat, mp: Option<Offsets>, compress: bool)
    ensures Track(ROOT, off, mp0, done, off1, mp, compress)
  {
  }

  lemma RoomForLabel(j: Job, done: seq<Label>, cur: Label, msg: array?<byte>, off1: nat)
    requires Written(msg, j.lenmsg, j.off, off1, done)
    ensures j.Fits() && done + [cur] <= Parse(j.name).labels ==> off1 + 1 + |cur| <= j.lenmsg
  {
    hide ParseFrom;
    if Parse(j.name).Good? && done + [cur] <= Parse(j.name).labels {
      LabelsLenSnoc(done, cur);
      PrefixLen(done + [cur], Parse(j.name).labels);
      if j.name == ROOT {
        ParseRoot();
      }
    }
  }

  lemma RootPacked(j: Job, bs: array<byte>, msg: array?<byte>, mp: Option<Offsets>, begin: nat, i: nat, ls: nat,
                   escapedDot: bool, roBs: str, bsFresh: bool, off1: nat, done: seq<Label>)
    requires Inv(j, bs, msg, mp, begin, i, ls, escapedDot, roBs, bsFresh, off1, done)
    requires i == ls && j.name == ROOT
    ensures Below(msg, j.before, j.off) && Beyond(msg, j.before, off1)
    ensures Parse(ROOT) == Good(done) && !j.Offends()
    ensures msg != null ==> PackedAt(msg, j.off, off1, j.Expected())
    ensures j.Expected().mp == mp
  {
    hide Scanning, Track;
    ScanEnd(bs, begin, i, escapedDot, done, Parse(ROOT));
    ParseRoot();
    SingleLabelBytes([]);
  }

  /** Replaces the label written last, at nameoffset, by a pointer. */
  method FinishPointer(ghost j: Job, msg: array?<byte>, nameoffset: nat, pointer: nat, off1: nat, lenmsg: nat,
                       ghost mp: Option<Offsets>, ghost done: seq<Label>, ghost cur: Label)
    returns (off2: nat, err: Error)
    requires pointer < MAX_OFFSET && j.off <= nameoffset && j.name != ROOT
    requires HitAt(j, msg, nameoffset, pointer, off1, mp, done, cur)
    modifies msg
    ensures Below(msg, j.before, j.off)
    ensures err == NoError || err == IndexPanic
    ensures err == NoError ==> j.off <= off2
    ensures !j.Offends() && (msg != null && nameoffset + 2 <= msg.Length ==> err == NoError)
    ensures msg != null && err == NoError ==>
              PackedAt(msg, j.off, off2, j.Expected()) && mp == j.Expected().mp && off2 <= msg.Length
    ensures msg != null && Parse(j.name).Good? && ValidLabels(Labels(j.name)) ==> err == NoError
  {
    hide PackName, Parse, ParseFrom, LabelBytes, LabelsLen, ValidLabels, PackNamed, Refused, Labels;
    PointerFits(j.name, done, cur);
    if msg == null || nameoffset + 2 > msg.Length {
      return lenmsg, IndexPanic;
    }
    WrittenPrefix(msg, j.lenmsg, j.off, off1, done, cur);
    msg[nameoffset], msg[nameoffset + 1] := 192 + pointer / 256, pointer % 256;
    off2 := nameoffset + 2;
    assert msg[j.off..nameoffset] == LabelBytes(done);
    assert msg[nameoffset..off2] == Pointer(pointer);
    assert msg[j.off..off2] == msg[j.off..nameoffset] + msg[nameoffset..off2];
    return off2, NoError;
  }

  lemma PointerFits(name: str, done: seq<Label>, cur: Label)
    requires Parse(name).Good? ==> done + [cur] <= Parse(name).labels
    ensures Parse(name).Good? && ValidLabels(Labels(name)) && name != ROOT ==> |cur| >= 1
  {
    if Parse(name).Good? && ValidLabels(Labels(name)) && name != ROOT {
      assert cur == (done + [cur])[|done|] == Labels(name)[|done|];
    }
  }

  lemma WrittenPrefix(msg: array<byte>, lenmsg: nat, off: nat, off1: nat, done: seq<Label>, cur: Label)
    requires Written(msg, lenmsg, off, off1, done + [cur]) && |cur| < off1 && off <= off1 - |cur| - 1
    ensures ShortLabels(done) && msg[off..off1 - |cur| - 1] == LabelBytes(done)
    ensures off1 - |cur| - 1 == off + LabelsLen(done)
  {
    assert forall l | l in done :: l in done + [cur];
    assert cur in done + [cur];
    LabelBytesSnoc(done, cur);
    LabelsLenSnoc(done, cur);
    assert msg[off..off1 - |cur| - 1] == msg[off..off1][..LabelsLen(done)];
  }

  /** Ends the name with its zero octet, where there is room for it. */
  method FinishZero(ghost j: Job, ghost bs: array<byte>, msg: array?<byte>, ghost mp: Option<Offsets>, ghost begin: nat,
                    ghost i: nat, ghost ls: nat, ghost escapedDot: bool, ghost roBs: str, ghost bsFresh: bool,
                    off1: nat, ghost done: seq<Label>)
    returns (off2: nat)
    requires Inv(j, bs, msg, mp, begin, i, ls, escapedDot, roBs, bsFresh, off1, done)
    requires i == ls && j.name != ROOT && j.off <= off1
    modifies msg
    ensures Below(msg, j.before, j.off) && off2 == off1 + 1 && Beyond(msg, j.before, off2)
    ensures Parse(j.name) == Good(done) && !j.Offends()
    ensures msg != null ==> PackedAt(msg, j.off, off2, j.Expected()) && mp == j.Expected().mp
  {
    hide Scanning, Track, PackName, ParseFrom;
    ScanEnd(bs, begin, i, escapedDot, done, Parse(j.name));
    TrackEnd(j.name, j.off, j.mp, done, off1, mp, j.compress);
    if msg != null && off1 < msg.Length {
      msg[off1] := 0;
    }
    off2 := off1 + 1;
    if msg != null && off1 < msg.Length {
      assert msg[j.off..off1] == LabelBytes(done);
      assert msg[j.off..off2] == msg[j.off..off1] + [0];
    }
  }

  /** Looks a suffix up: the offset to point to when it is known and may be used, else -1, after
      recording where it is about to be found. */
  method LookUp(compression: CompressionMap, key: str, offset: nat, compress: bool) returns (p: int)
    modifies compression
    ensures p == -1 || 0 <= p < MAX_OFFSET
    ensures p != -1 <==> compress && Hit(old(MapOf(compression)), key)
    ensures p != -1 ==> p == old(compression.m)[key] && compression.m == old(compression.m)
    ensures p == -1 ==> MapOf(compression) == Record(old(MapOf(compression)), key, offset)
  {
    p := -1;
    if key !in compression.m {
      if offset < MAX_OFFSET {
        compression.m := compression.m[key := offset];
      }
    } else if compress {
      p := compression.m[key];
    }
  }

  lemma LabelsLenSnoc(ls: seq<Label>, l: Label)
    ensures LabelsLen(ls + [l]) == LabelsLen(ls) + |l| + 1
  {
    LabelsLenAppend(ls, [l]);
    assert LabelsLen([l]) == |l| + 1 + LabelsLen([]);
  }

  lemma LabelBytesSnoc(ls: seq<Label>, l: Label)
    requires ShortLabels(ls) && |l| <= 63
    ensures ShortLabels(ls + [l]) && LabelBytes(ls + [l]) == LabelBytes(ls) + ([|l|] + l)
  {
    LabelBytesAppend(ls, [l]);
    SingleLabelBytes(l);
  }
}
