/** Character strings (packTxt and unpackTxt of msg.go): octets with their lengths on the wire, escaped
    text in memory. */
module Txt {
  import opened Bytes
  import opened Names
  import opened Records

  const QUOTE: byte := 34
  const TXT_SCRATCH := 1025

  // ---------- Escaped text ----------

  /** The octet that the first character or escape of s stands for. */
  function FirstOctet(s: str): byte
    requires s != [] && s != [BACKSLASH]
  {
    if s[0] != BACKSLASH then s[0]
    else if DddAt(s, 1) then DddToByte(s[1], s[2], s[3])
    else s[1]
  }

  /** The octets that s stands for. A lone backslash at the end stands for nothing. */
  function Unescaped(s: str): str
    decreases |s|
  {
    if s == [] || s == [BACKSLASH] then [] else [FirstOctet(s)] + Unescaped(s[TokLen(s)..])
  }

  /** s ends in a lone backslash. */
  predicate Dangling(s: str)
    decreases |s|
  {
    s == [BACKSLASH] || (s != [] && Dangling(s[TokLen(s)..]))
  }

  /** How unpackTxtString writes an octet. */
  function Quote(b: byte): (s: str)
    ensures 1 <= |s| <= 4
  {
    if b == QUOTE || b == BACKSLASH then [BACKSLASH, b]
    else if b < 32 || b > 127 then [BACKSLASH, 48 + b / 100, 48 + b / 10 % 10, 48 + b % 10]
    else [b]
  }

  function QuoteAll(b: str): (s: str)
    ensures |s| <= 4 * |b|
  {
    if b == [] then [] else QuoteAll(b[..|b| - 1]) + Quote(b[|b| - 1])
  }

  lemma QuoteFirst(b: byte, rest: str)
    ensures var s := Quote(b) + rest;
            s != [] && s != [BACKSLASH] && FirstOctet(s) == b && TokLen(s) == |Quote(b)| && s[TokLen(s)..] == rest
  {
    var s := Quote(b) + rest;
    DddRoundTrip(b);
    if b == QUOTE || b == BACKSLASH {
      assert s[0] == BACKSLASH && s[1] == b && !DddAt(s, 1);
    } else if b < 32 || b > 127 {
      assert s[0] == BACKSLASH && s[1] == 48 + b / 100 && s[2] == 48 + b / 10 % 10 && s[3] == 48 + b % 10;
      assert DddAt(s, 1);
    } else {
      assert s[0] == b;
    }
  }

  lemma {:induction false} QuoteAllThen(b: str, rest: str)
    ensures Unescaped(QuoteAll(b) + rest) == b + Unescaped(rest)
    ensures Dangling(QuoteAll(b) + rest) <==> Dangling(rest)
    decreases |b|
  {
    hide FirstOctet, Quote, TokLen;
    if b == [] {
      assert QuoteAll(b) + rest == rest;
    } else {
      var n := |b| - 1;
      var more := Quote(b[n]) + rest;
      Concat3(QuoteAll(b[..n]), Quote(b[n]), rest);
      QuoteAllThen(b[..n], more);
      QuoteFirst(b[n], rest);
      assert b == b[..n] + [b[n]];
      Concat3(b[..n], [b[n]], Unescaped(rest));
    }
  }

  /** Unescaping undoes escaping, for every octet; and the text of 255 octets fits the scratch buffer. */
  lemma QuoteRoundTrip(b: str)
    ensures Unescaped(QuoteAll(b)) == b && !Dangling(QuoteAll(b))
    ensures |b| <= 255 ==> |QuoteAll(b)| <= TXT_SCRATCH
  {
    QuoteAllThen(b, []);
    assert QuoteAll(b) + [] == QuoteAll(b) && b + [] == b;
  }

  /** How b shows at the front of a text: the quote and the backslash behind a backslash, the other octets from
      32 to 127 as they are, and all the rest as a backslash and three decimal digits. */
  predicate Quotes(s: str, b: byte, n: nat) {
    && |s| >= n
    && if b in {34, 92} then n == 2 && s[0] == 92 && s[1] == b
       else if 32 <= b <= 127 then n == 1 && s[0] == b
       else
         && n == 4 && s[0] == 92 && 48 <= s[1] <= 57 && 48 <= s[2] <= 57 && 48 <= s[3] <= 57
         && 100 * (s[1] as int - 48) + 10 * (s[2] as int - 48) + (s[3] as int - 48) == b as int
  }

  /** s writes out the octets of b. */
  predicate Spells(s: str, b: str) {
    if b == [] then s == [] else exists n | 1 <= n <= 4 :: Quotes(s, b[0], n) && Spells(s[n..], b[1..])
  }

  lemma QuoteSpells(b: str)
    ensures Spells(QuoteAll(b), b)
  {
    QuoteSpellsThen(b, [], []);
    assert QuoteAll(b) + [] == QuoteAll(b) && b + [] == b;
  }

  lemma {:induction false} QuoteSpellsThen(b: str, rest: str, more: str)
    requires Spells(rest, more)
    ensures Spells(QuoteAll(b) + rest, b + more)
    decreases |b|
  {
    hide Quote, Spells, Quotes;
    if b == [] {
      assert QuoteAll(b) + rest == rest && b + more == more;
    } else {
      var n := |b| - 1;
      QuoteShows(b[n], rest);
      var next := [b[n]] + more;
      assert next[1..] == more;
      SpellsMore(Quote(b[n]) + rest, next, |Quote(b[n])|);
      QuoteSpellsThen(b[..n], Quote(b[n]) + rest, next);
      Concat3(QuoteAll(b[..n]), Quote(b[n]), rest);
      assert b == b[..n] + [b[n]];
      Concat3(b[..n], [b[n]], more);
    }
  }

  lemma SpellsMore(s: str, b: str, n: nat)
    requires b != [] && Quotes(s, b[0], n) && Spells(s[n..], b[1..])
    ensures Spells(s, b)
  {
  }

  lemma QuoteShows(b: byte, rest: str)
    ensures var s := Quote(b) + rest; Quotes(s, b, |Quote(b)|) && s[|Quote(b)|..] == rest
  {
    var s := Quote(b) + rest;
    if b == QUOTE || b == BACKSLASH {
      assert s[0] == BACKSLASH && s[1] == b;
    } else if b < 32 || b > 127 {
      var x, y, z := ThreeDigits(b);
      assert s == [BACKSLASH, x, y, z] + rest;
      assert s[0] == BACKSLASH && s[1] == x && s[2] == y && s[3] == z;
    } else {
      assert s[0] == b;
    }
  }

  // ---------- Specification of the wire form ----------

  function TxtBytes(b: str): str
    requires |b| <= 255
  {
    [|b|] + b
  }

  /** Text that packs: at most 255 octets, and no longer than the scratch buffer. */
  predicate Packs(s: str, scratch: nat) {
    |s| <= scratch && |Unescaped(s)| <= 255
  }

  predicate AllPack(ss: seq<str>, scratch: nat) {
    forall s | s in ss :: Packs(s, scratch)
  }

  function AllBytes(ss: seq<str>, scratch: nat): str
    requires AllPack(ss, scratch)
  {
    if ss == [] then []
    else
      var n := |ss| - 1;
      assert ss[n] in ss && forall s | s in ss[..n] :: s in ss;
      assert Packs(ss[n], scratch);
      AllBytes(ss[..n], scratch) + TxtBytes(Unescaped(ss[n]))
  }

  /** The room a text needs: a lone backslash at the end is looked at only if there is room for one octet more. */
  function Room(s: str): nat {
    1 + |Unescaped(s)| + if Dangling(s) then 1 else 0
  }

  // ---------- Packing ----------

  /** The octet at i and where the next begins, or nothing when only a lone backslash is left. */
  method NextOctet(tmp: array<byte>, n: nat, i: nat) returns (b: byte, i1: nat, stop: bool)
    requires i < n <= tmp.Length
    ensures var t := tmp[..n][i..];
            && (stop <==> t == [BACKSLASH])
            && (stop ==> i1 == n)
            && (!stop ==> b == FirstOctet(t) && i1 == i + TokLen(t))
  {
    ghost var t := tmp[..n][i..];
    assert forall k | i <= k < n :: t[k - i] == tmp[k];
    b, i1, stop := 0, i, false;
    if tmp[i1] == BACKSLASH {
      i1 := i1 + 1;
      if i1 == n {
        return 0, i1, true;
      }
      if i1 + 2 < n && IsDigit(tmp[i1]) && IsDigit(tmp[i1 + 1]) && IsDigit(tmp[i1 + 2]) {
        assert DddAt(t, 1);
        b := DddToByte(tmp[i1], tmp[i1 + 1], tmp[i1 + 2]);
        i1 := i1 + 2;
      } else {
        assert !DddAt(t, 1);
        b := tmp[i1];
      }
    } else {
      b := tmp[i1];
    }
    i1 := i1 + 1;
  }

  /** s[..i] stands for done, and what is left for the rest. */
  ghost predicate Unfolding(s: str, i: nat, done: str) {
    i <= |s| && Unescaped(s) == done + Unescaped(s[i..]) && (Dangling(s) <==> Dangling(s[i..]))
  }

  lemma TextStart(s: str)
    ensures Unfolding(s, 0, [])
  {
    assert s[0..] == s && [] + Unescaped(s) == Unescaped(s);
  }

  lemma TextNext(s: str, i: nat, done: str)
    requires Unfolding(s, i, done) && i < |s|
    ensures if s[i..] == [BACKSLASH] then Unescaped(s) == done && Dangling(s)
            else i + TokLen(s[i..]) <= |s| && Unfolding(s, i + TokLen(s[i..]), done + [FirstOctet(s[i..])])
                 && |Unescaped(s)| >= |done| + 1
  {
    hide FirstOctet;
    var t := s[i..];
    if t == [BACKSLASH] {
      assert done + [] == done;
    } else {
      assert t[TokLen(t)..] == s[i + TokLen(t)..];
      Concat3(done, [FirstOctet(t)], Unescaped(t[TokLen(t)..]));
    }
  }

  lemma TextEnd(s: str, done: str)
    requires Unfolding(s, |s|, done)
    ensures Unescaped(s) == done && !Dangling(s)
  {
    assert s[|s|..] == [] && done + [] == done;
  }

  /** The octets in done are written behind the place of the length. */
  ghost predicate Filled(before: str, now: str, offset: nat, off1: nat, done: str) {
    Kept(before, now, offset) && off1 == offset + 1 + |done| <= |now| && now[offset + 1..off1] == done
  }

  lemma FilledMore(before: str, now: str, offset: nat, off1: nat, done: str, b: byte)
    requires Filled(before, now, offset, off1, done) && off1 < |now|
    ensures Filled(before, now[off1 := b], offset, off1 + 1, done + [b])
  {
    var next := now[off1 := b];
    assert next[offset + 1..off1 + 1] == now[offset + 1..off1] + [b];
    assert next[..offset] == now[..offset];
  }

  lemma LengthPut(before: str, now: str, offset: nat, off1: nat, done: str)
    requires Filled(before, now, offset, off1, done) && |done| <= 255
    ensures offset < |now|
    ensures var put := now[offset := |done|];
            Kept(before, put, offset) && put[offset..off1] == TxtBytes(done)
  {
    var n: byte := |done|;
    var put := now[offset := n];
    assert put[..offset] == now[..offset];
    assert put[offset..off1] == [put[offset]] + now[offset + 1..off1];
  }

  lemma FilledIs(before: str, now: str, offset: nat, off1: nat, done: str)
    requires Filled(before, now, offset, off1, done)
    ensures Kept(before, now, offset) && off1 == offset + 1 + |done| <= |now|
  {
  }

  lemma FilledNone(before: str, offset: nat)
    requires offset < |before|
    ensures Filled(before, before, offset, offset + 1, [])
  {
  }

  lemma RoomIs(s: str, scratch: nat)
    ensures Room(s) == 1 + |Unescaped(s)| + (if Dangling(s) then 1 else 0)
    ensures Packs(s, scratch) <==> |s| <= scratch && |Unescaped(s)| <= 255
  {
  }

  method PackTxtString(s: str, msg: array<byte>, offset: nat, tmp: array<byte>) returns (off1: nat, err: Error)
    requires tmp != msg
    modifies msg, tmp
    ensures Kept(old(msg[..]), msg[..], offset)
    ensures err == NoError <==> Packs(s, tmp.Length) && offset + Room(s) <= msg.Length
    ensures err == NoError ==>
              off1 == offset + 1 + |Unescaped(s)| <= msg.Length && msg[offset..off1] == TxtBytes(Unescaped(s))
  {
    hide *;
    var lenByteOffset := offset;
    off1 := offset;
    RoomIs(s, tmp.Length);
    KeptRefl(msg[..], offset);
    if off1 >= msg.Length || |s| > tmp.Length {
      return off1, ErrBuf;
    }
    off1 := off1 + 1;
    ghost var before := msg[..];
    CopyInto(s, tmp, 0);
    assert tmp[0..|s|] == tmp[..|s|];
    var i: nat := 0;
    ghost var done: str, stopped := [], false;
    TextStart(s);
    FilledNone(before, offset);
    while i < |s|
      invariant tmp[..|s|] == s
      invariant Filled(before, msg[..], offset, off1, done)
      invariant i <= |s| && !stopped && Unfolding(s, i, done)
      decreases |s| - i
    {
      TextNext(s, i, done);
      if msg.Length <= off1 {
        FilledIs(before, msg[..], offset, off1, done);
        return off1, ErrBuf;
      }
      var b, i1, stop := NextOctet(tmp, |s|, i);
      i := i1;
      if stop {
        stopped := true;
        break;
      }
      FilledMore(before, msg[..], offset, off1, done, b);
      ghost var m := msg[..];
      msg[off1] := b;
      assert msg[..] == m[off1 := b];
      done := done + [b];
      off1 := off1 + 1;
    }
    if !stopped { TextEnd(s, done); }
    FilledIs(before, msg[..], offset, off1, done);
    var l := off1 - lenByteOffset - 1;
    if l > 255 {
      return off1, ErrRdata;
    }
    LengthPut(before, msg[..], offset, off1, done);
    ghost var m := msg[..];
    msg[lenByteOffset] := l;
    ghost var n: byte := |done|;
    assert msg[..] == m[offset := n];
    assert msg[offset..off1] == msg[..][offset..off1];
    return off1, NoError;
  }

  /** The wire length of the texts. */
  function Length(ss: seq<str>): nat {
    if ss == [] then 0 else Length(ss[..|ss| - 1]) + 1 + |Unescaped(ss[|ss| - 1])|
  }

  /** Every text packs, and has room behind those before it. */
  predicate AllFit(ss: seq<str>, scratch: nat, offset: nat, end: nat) {
    ss == [] ||
    var n := |ss| - 1;
    AllFit(ss[..n], scratch, offset, end) && Packs(ss[n], scratch) && offset + Length(ss[..n]) + Room(ss[n]) <= end
  }

  lemma {:induction false} FitPrefix(ss: seq<str>, i: nat, scratch: nat, offset: nat, end: nat)
    requires i <= |ss| && AllFit(ss, scratch, offset, end)
    ensures AllFit(ss[..i], scratch, offset, end)
    decreases |ss|
  {
    hide Packs, Room, Length;
    if i == |ss| {
      assert ss[..i] == ss;
    } else {
      assert ss[..|ss| - 1][..i] == ss[..i];
      FitPrefix(ss[..|ss| - 1], i, scratch, offset, end);
    }
  }

  /** packTxt. An empty list of strings writes one zero octet, but does not count it. */
  method PackTxt(txt: seq<str>, msg: array<byte>, offset: nat, tmp: array<byte>) returns (off1: nat, err: Error)
    requires tmp != msg
    modifies msg, tmp
    ensures txt == [] ==> off1 == offset && (err == NoError <==> offset < msg.Length)
    ensures txt == [] && err == NoError ==> msg[..] == old(msg[..])[offset := 0]
    ensures txt == [] && err != NoError ==> msg[..] == old(msg[..])
    ensures Kept(old(msg[..]), msg[..], offset)
    ensures txt != [] ==> (err == NoError <==> AllFit(txt, tmp.Length, offset, msg.Length))
    ensures txt != [] && err == NoError ==>
              && AllPack(txt, tmp.Length) && off1 == offset + |AllBytes(txt, tmp.Length)| <= msg.Length
              && msg[offset..off1] == AllBytes(txt, tmp.Length)
  {
    hide *;
    off1 := offset;
    ghost var before := msg[..];
    KeptRefl(before, offset);
    if |txt| == 0 {
      if off1 >= msg.Length {
        return off1, ErrBuf;
      }
      msg[off1] := 0;
      KeptPut(before, msg[..], offset);
      return off1, NoError;
    }
    FitNone(tmp.Length, offset, msg.Length);
    assert txt[..0] == [];
    for i := 0 to |txt|
      invariant AllFit(txt[..i], tmp.Length, offset, msg.Length) && AllPack(txt[..i], tmp.Length)
      invariant off1 == offset + |AllBytes(txt[..i], tmp.Length)| && off1 == offset + Length(txt[..i])
      invariant Kept(before, msg[..], offset)
      invariant i > 0 ==> off1 <= msg.Length && msg[offset..off1] == AllBytes(txt[..i], tmp.Length)
    {
      ghost var m, o := msg[..], off1;
      FitStep(txt, i, tmp.Length, offset, msg.Length);
      off1, err := PackTxtString(txt[i], msg, off1, tmp);
      KeptTrans(before, m, msg[..], offset, o);
      if err != NoError {
        return off1, err;
      }
      if i == 0 {
        assert [] + TxtBytes(Unescaped(txt[i])) == TxtBytes(Unescaped(txt[i]));
      } else {
        Splice(m, msg[..], offset, o, off1, AllBytes(txt[..i], tmp.Length), TxtBytes(Unescaped(txt[i])));
      }
    }
    assert txt[..|txt|] == txt;
    return off1, NoError;
  }

  lemma KeptPut(before: str, msg: str, offset: nat)
    requires offset < |before| && msg == before[offset := 0]
    ensures Kept(before, msg, offset)
  {
  }

  lemma FitNone(scratch: nat, offset: nat, end: nat)
    ensures AllFit([], scratch, offset, end) && AllPack([], scratch) && AllBytes([], scratch) == [] && Length([]) == 0
  {
  }

  lemma AllPackSnoc(ss: seq<str>, s: str, scratch: nat)
    requires AllPack(ss, scratch) && Packs(s, scratch)
    ensures AllPack(ss + [s], scratch) && |Unescaped(s)| <= 255
    ensures AllBytes(ss + [s], scratch) == AllBytes(ss, scratch) + TxtBytes(Unescaped(s))
    ensures |TxtBytes(Unescaped(s))| == 1 + |Unescaped(s)|
  {
    hide Unescaped;
    assert (ss + [s])[..|ss|] == ss;
  }

  lemma FitStep(txt: seq<str>, i: nat, scratch: nat, offset: nat, end: nat)
    requires i < |txt| && AllFit(txt[..i], scratch, offset, end) && AllPack(txt[..i], scratch)
    ensures Length(txt[..i + 1]) == Length(txt[..i]) + 1 + |Unescaped(txt[i])|
    ensures var fits := Packs(txt[i], scratch) && offset + Length(txt[..i]) + Room(txt[i]) <= end;
            && (!fits ==> !AllFit(txt, scratch, offset, end))
            && (fits ==>
                  && |Unescaped(txt[i])| <= 255 && |TxtBytes(Unescaped(txt[i]))| == 1 + |Unescaped(txt[i])|
                  && AllFit(txt[..i + 1], scratch, offset, end) && AllPack(txt[..i + 1], scratch)
                  && AllBytes(txt[..i + 1], scratch) == AllBytes(txt[..i], scratch) + TxtBytes(Unescaped(txt[i])))
  {
    hide Unescaped, Room, Packs, AllPack, AllBytes, TxtBytes;
    assert txt[..i + 1][..i] == txt[..i];
    if Packs(txt[i], scratch) {
      AllPackSnoc(txt[..i], txt[i], scratch);
      assert txt[..i + 1] == txt[..i] + [txt[i]];
    }
    if AllFit(txt, scratch, offset, end) {
      FitPrefix(txt, i + 1, scratch, offset, end);
    }
  }

  // ---------- Unpacking ----------

  datatype TxtRead = TxtRead(ss: seq<str>, off1: nat, err: Error)

  /** The strings from off on, behind those read before. */
  function ReadTxt(msg: str, off: nat, done: seq<str>): TxtRead
    decreases |msg| - off
  {
    if off >= |msg| then TxtRead(done, off, NoError)
    else if off + msg[off] + 1 > |msg| then TxtRead(done, off, ErrOverflow)
    else ReadTxt(msg, off + 1 + msg[off], done + [QuoteAll(msg[off + 1..off + 1 + msg[off]])])
  }

  method UnpackTxtString(msg: str, offset: nat) returns (s: str, off1: nat, err: Error)
    ensures if offset + 1 > |msg| || offset + msg[offset] + 1 > |msg| then off1 == offset && err == ErrOverflow
            else off1 == offset + 1 + msg[offset] && err == NoError && s == QuoteAll(msg[offset + 1..off1])
                 && Spells(s, msg[offset + 1..off1])
  {
    hide *;
    if offset + 1 > |msg| {
      return [], offset, ErrOverflow;
    }
    var l: nat := msg[offset];
    if offset + l + 1 > |msg| {
      return [], offset, ErrOverflow;
    }
    s := [];
    QuoteNone();
    assert msg[offset + 1..offset + 1] == [];
    for i := 0 to l
      invariant s == QuoteAll(msg[offset + 1..offset + 1 + i])
    {
      QuoteMore(msg, offset + 1, i);
      var q := QuoteOctet(msg[offset + 1 + i]);
      s := s + q;
    }
    QuoteSpells(msg[offset + 1..offset + 1 + l]);
    return s, offset + 1 + l, NoError;
  }

  lemma QuoteNone()
    ensures QuoteAll([]) == []
  {
  }

  lemma QuoteMore(msg: str, off: nat, i: nat)
    requires off + i < |msg|
    ensures QuoteAll(msg[off..off + i + 1]) == QuoteAll(msg[off..off + i]) + Quote(msg[off + i])
  {
    hide Quote;
    assert msg[off..off + i + 1][..i] == msg[off..off + i];
  }

  /** The switch of unpackTxtString. */
  method QuoteOctet(b: byte) returns (s: str)
    ensures s == Quote(b)
  {
    if b == QUOTE || b == BACKSLASH {
      s := [BACKSLASH, b];
    } else if b < 32 || b > 127 {
      s := [BACKSLASH, 48 + b / 100, 48 + b / 10 % 10, 48 + b % 10];
    } else {
      s := [b];
    }
  }

  method UnpackTxt(msg: str, off0: nat) returns (ss: seq<str>, off: nat, err: Error)
    ensures TxtRead(ss, off, err) == ReadTxt(msg, off0, [])
  {
    hide QuoteAll;
    ss, off, err := [], off0, NoError;
    while off < |msg| && err == NoError
      invariant if err == NoError then ReadTxt(msg, off, ss) == ReadTxt(msg, off0, [])
                else TxtRead(ss, off, err) == ReadTxt(msg, off0, [])
      decreases err == NoError, |msg| - off
    {
      var s;
      s, off, err := UnpackTxtString(msg, off);
      if err == NoError {
        ss := ss + [s];
      }
    }
  }

  // ---------- The round trip ----------

  predicate NoneDangling(ss: seq<str>) {
    forall s | s in ss :: !Dangling(s)
  }

  lemma DanglingSnoc(ss: seq<str>, s: str)
    requires NoneDangling(ss) && !Dangling(s)
    ensures NoneDangling(ss + [s])
  {
    hide Dangling;
  }

  /** Texts without a lone backslash at their end need exactly the room they take. */
  lemma {:induction false} FitExactly(ss: seq<str>, scratch: nat, offset: nat)
    requires AllPack(ss, scratch) && NoneDangling(ss)
    ensures Length(ss) == |AllBytes(ss, scratch)|
    ensures AllFit(ss, scratch, offset, offset + Length(ss))
    decreases |ss|
  {
    hide Unescaped, Dangling;
    if ss != [] {
      var n := |ss| - 1;
      assert ss[n] in ss && forall s | s in ss[..n] :: s in ss;
      assert Packs(ss[n], scratch) && !Dangling(ss[n]);
      FitExactly(ss[..n], scratch, offset);
      FitMore(ss[..n], scratch, offset, offset + Length(ss[..n]), offset + Length(ss));
    }
  }

  lemma {:induction false} FitMore(ss: seq<str>, scratch: nat, offset: nat, end: nat, end1: nat)
    requires AllFit(ss, scratch, offset, end) && end <= end1
    ensures AllFit(ss, scratch, offset, end1)
    decreases |ss|
  {
    hide Packs, Room, Length;
    if ss != [] {
      FitMore(ss[..|ss| - 1], scratch, offset, end, end1);
    }
  }

  lemma {:induction false} ReadRepacks(msg: str, off0: nat, off: nat, done: seq<str>)
    requires off0 <= off <= |msg| && NoneDangling(done) && AllPack(done, TXT_SCRATCH)
    requires AllBytes(done, TXT_SCRATCH) == msg[off0..off]
    ensures var r := ReadTxt(msg, off, done);
            r.err == NoError ==>
              AllPack(r.ss, TXT_SCRATCH) && AllBytes(r.ss, TXT_SCRATCH) == msg[off0..] && NoneDangling(r.ss)
    ensures var r := ReadTxt(msg, off, done); off < |msg| && r.err == NoError ==> r.ss != []
    decreases |msg| - off
  {
    hide QuoteAll, Unescaped, Packs, AllPack, AllBytes, Dangling, NoneDangling;
    if off < |msg| && off + msg[off] + 1 <= |msg| {
      var b := msg[off + 1..off + 1 + msg[off]];
      var more := done + [QuoteAll(b)];
      QuoteRoundTrip(b);
      PacksIs(QuoteAll(b));
      AllPackSnoc(done, QuoteAll(b), TXT_SCRATCH);
      DanglingSnoc(done, QuoteAll(b));
      assert msg[off0..off + 1 + msg[off]] == msg[off0..off] + TxtBytes(b);
      ReadRepacks(msg, off0, off + 1 + msg[off], more);
      ReadSome(msg, off + 1 + msg[off], more);
    } else {
      assert msg[off0..] == msg[off0..|msg|];
    }
  }

  lemma PacksIs(s: str)
    requires |s| <= TXT_SCRATCH && |Unescaped(s)| <= 255
    ensures Packs(s, TXT_SCRATCH)
  {
  }

  lemma {:induction false} ReadSome(msg: str, off: nat, done: seq<str>)
    requires done != []
    ensures ReadTxt(msg, off, done).ss != []
    decreases |msg| - off
  {
    if off < |msg| && off + msg[off] + 1 <= |msg| {
      ReadSome(msg, off + 1 + msg[off], done + [QuoteAll(msg[off + 1..off + 1 + msg[off]])]);
    }
  }

  /** Packing the strings that were read writes the very octets they were read from, whatever these are,
      in a buffer with just the room for them. */
  lemma TxtRepack(msg: str, off: nat, at: nat)
    requires off < |msg| && ReadTxt(msg, off, []).err == NoError
    ensures var ss := ReadTxt(msg, off, []).ss;
            && ss != [] && AllPack(ss, TXT_SCRATCH) && AllBytes(ss, TXT_SCRATCH) == msg[off..]
            && AllFit(ss, TXT_SCRATCH, at, at + |msg| - off)
  {
    hide AllBytes, AllPack, AllFit, Length, Dangling;
    FitNone(TXT_SCRATCH, 0, 0);
    assert msg[off..off] == [];
    ReadRepacks(msg, off, off, []);
    FitExactly(ReadTxt(msg, off, []).ss, TXT_SCRATCH, at);
  }

  /** Texts one behind the other, each behind its length octet. */
  function Texts(bs: seq<str>): str
    requires forall b | b in bs :: |b| <= 255
  {
    if bs == [] then [] else assert bs[0] in bs; TxtBytes(bs[0]) + Texts(bs[1..])
  }

  function Quoted(bs: seq<str>): seq<str> {
    if bs == [] then [] else [QuoteAll(bs[0])] + Quoted(bs[1..])
  }

  /** Every list of texts of at most 255 octets, at the end of any message, reads as these texts, escaped. */
  lemma {:induction false} TextsRead(head: str, bs: seq<str>, done: seq<str>)
    requires forall b | b in bs :: |b| <= 255
    ensures var msg := head + Texts(bs);
            ReadTxt(msg, |head|, done) == TxtRead(done + Quoted(bs), |msg|, NoError)
    decreases |bs|
  {
    hide *;
    if bs == [] {
      NoTexts(head, done);
    } else {
      assert bs[0] in bs;
      assert forall b | b in bs[1..] :: b in bs;
      TextsMore(head, bs, done);
      TextsRead(head + TxtBytes(bs[0]), bs[1..], done + [QuoteAll(bs[0])]);
    }
  }

  lemma NoTexts(head: str, done: seq<str>)
    ensures Texts([]) == [] && ReadTxt(head + [], |head|, done) == TxtRead(done + Quoted([]), |head + []|, NoError)
  {
    assert head + [] == head && done + [] == done;
  }

  lemma TextsMore(head: str, bs: seq<str>, done: seq<str>)
    requires bs != [] && (forall b | b in bs :: |b| <= 255) && forall b | b in bs[1..] :: |b| <= 255
    requires |bs[0]| <= 255
    ensures var b := bs[0];
            var msg, head1 := head + Texts(bs), head + TxtBytes(b);
            && msg == head1 + Texts(bs[1..])
            && ReadTxt(msg, |head|, done) == ReadTxt(msg, |head1|, done + [QuoteAll(b)])
            && done + [QuoteAll(b)] + Quoted(bs[1..]) == done + Quoted(bs)
  {
    hide QuoteAll, ReadTxt, TxtBytes;
    var b, rest := bs[0], Texts(bs[1..]);
    Concat3(head, TxtBytes(b), rest);
    OneText(head, b, rest);
    ReadOne(head + TxtBytes(b) + rest, |head|, done);
    assert done + [QuoteAll(b)] + Quoted(bs[1..]) == done + ([QuoteAll(b)] + Quoted(bs[1..]));
  }

  lemma OneText(head: str, b: str, rest: str)
    requires |b| <= 255
    ensures var msg := head + TxtBytes(b) + rest;
            && |TxtBytes(b)| == 1 + |b| && |head| < |msg| && msg[|head|] as int == |b|
            && |head| + 1 + |b| <= |msg| && msg[|head| + 1..|head| + 1 + |b|] == b
  {
  }

  lemma ReadOne(msg: str, off: nat, done: seq<str>)
    requires off < |msg| && off + msg[off] + 1 <= |msg|
    ensures ReadTxt(msg, off, done)
            == ReadTxt(msg, off + 1 + msg[off], done + [QuoteAll(msg[off + 1..off + 1 + msg[off]])])
  {
    hide QuoteAll;
  }

  lemma Concat3(a: str, b: str, c: str)
    ensures a + (b + c) == a + b + c
  {
  }

  /** The octets that the strings stand for. */
  function Meanings(ss: seq<str>): (bs: seq<str>)
    ensures |bs| == |ss| && forall k | 0 <= k < |ss| :: bs[k] == Unescaped(ss[k])
  {
    seq(|ss|, k requires 0 <= k < |ss| => Unescaped(ss[k]))
  }

  lemma {:induction false} BytesAreTexts(ss: seq<str>, scratch: nat)
    requires AllPack(ss, scratch)
    ensures (forall b | b in Meanings(ss) :: |b| <= 255) && AllBytes(ss, scratch) == Texts(Meanings(ss))
    decreases |ss|
  {
    hide Unescaped, TxtBytes, Texts, AllBytes;
    if ss == [] {
      NoBytes(scratch);
    } else {
      var n := |ss| - 1;
      assert ss[n] in ss && forall s | s in ss[..n] :: s in ss;
      assert Packs(ss[n], scratch);
      BytesAreTexts(ss[..n], scratch);
      assert Meanings(ss) == Meanings(ss[..n]) + [Unescaped(ss[n])];
      TextsSnoc(Meanings(ss[..n]), Unescaped(ss[n]));
      LastBytes(ss, scratch);
    }
  }

  lemma NoBytes(scratch: nat)
    ensures AllPack([], scratch) && AllBytes([], scratch) == Texts([]) && Meanings([]) == []
  {
  }

  lemma LastBytes(ss: seq<str>, scratch: nat)
    requires AllPack(ss, scratch) && ss != [] && AllPack(ss[..|ss| - 1], scratch) && |Unescaped(ss[|ss| - 1])| <= 255
    ensures AllBytes(ss, scratch) == AllBytes(ss[..|ss| - 1], scratch) + TxtBytes(Unescaped(ss[|ss| - 1]))
  {
    hide Unescaped, TxtBytes, Packs;
  }

  lemma {:induction false} TextsSnoc(bs: seq<str>, b: str)
    requires (forall x | x in bs :: |x| <= 255) && |b| <= 255
    ensures (forall x | x in bs + [b] :: |x| <= 255) && Texts(bs + [b]) == Texts(bs) + TxtBytes(b)
    decreases |bs|
  {
    hide TxtBytes;
    var all := bs + [b];
    if bs == [] {
      assert all[0] == b && all[1..] == [];
      assert [] + TxtBytes(b) == TxtBytes(b) && TxtBytes(b) + [] == TxtBytes(b);
    } else {
      assert all[0] == bs[0] && all[1..] == bs[1..] + [b] && bs[0] in bs;
      assert forall x | x in bs[1..] :: x in bs;
      TextsSnoc(bs[1..], b);
      assert TxtBytes(bs[0]) + (Texts(bs[1..]) + TxtBytes(b)) == TxtBytes(bs[0]) + Texts(bs[1..]) + TxtBytes(b);
    }
  }

  /** Strings that were packed read as what they stand for, escaped the one way unpackTxt escapes. */
  lemma PackedTxtReads(head: str, ss: seq<str>, scratch: nat)
    requires AllPack(ss, scratch)
    ensures var msg := head + AllBytes(ss, scratch);
            ReadTxt(msg, |head|, []) == TxtRead(Quoted(Meanings(ss)), |msg|, NoError)
  {
    hide AllBytes, AllPack, Texts, Quoted;
    BytesAreTexts(ss, scratch);
    TextsRead(head, Meanings(ss), []);
    assert [] + Quoted(Meanings(ss)) == Quoted(Meanings(ss));
  }
}
