/** Unpacking resource records (msg_helpers.go, zmsg.go, msg.go), and the round trip of one record. */
module UnpackRecords {
  import opened Bytes
  import opened Names
  import opened PackNames
  import opened UnpackNames
  import opened Compression
  import opened Records

  // ---------- The unpackers; slices of the message are only read ----------

  datatype Int16Result = Int16Result(i: uint16, off1: nat, err: Error)
  datatype Int32Result = Int32Result(i: uint32, off1: nat, err: Error)

  function UnpackUint16(msg: str, off: nat): Int16Result {
    if off + 2 > |msg| then Int16Result(0, |msg|, ErrOverflow) else Int16Result(GetU16(msg, off), off + 2, NoError)
  }

  function UnpackUint32(msg: str, off: nat): Int32Result {
    if off + 4 > |msg| then Int32Result(0, |msg|, ErrOverflow) else Int32Result(GetU32(msg, off), off + 4, NoError)
  }

  datatype Header = Header(name: str, rrtype: uint16, cls: uint16, ttl: uint32, rdlength: uint16)

  /** The header, the offset after it, and the message cut off at the end of the rdata. */
  datatype HeaderResult = HeaderResult(h: Header, off1: nat, msg: str, err: Error)

  const NO_HEADER := Header([], 0, 0, 0, 0)

  /** unpackHeader. A length field that reaches past the message is not an error here. */
  function UnpackHeader(msg: str, off: nat): HeaderResult {
    if off == |msg| then HeaderResult(NO_HEADER, off, msg, NoError)
    else
      var n := UnpackName(msg, off);
      if n.err != NoError then HeaderResult(NO_HEADER, |msg|, msg, n.err)
      else
        var t := UnpackUint16(msg, n.off1);
        if t.err != NoError then HeaderResult(NO_HEADER, |msg|, msg, t.err)
        else
          var c := UnpackUint16(msg, t.off1);
          if c.err != NoError then HeaderResult(NO_HEADER, |msg|, msg, c.err)
          else
            var l := UnpackUint32(msg, c.off1);
            if l.err != NoError then HeaderResult(NO_HEADER, |msg|, msg, l.err)
            else
              var r := UnpackUint16(msg, l.off1);
              if r.err != NoError then HeaderResult(NO_HEADER, |msg|, msg, r.err)
              else
                HeaderResult(Header(n.name, t.i, c.i, l.i, r.i), r.off1,
                             if r.off1 + r.i <= |msg| then msg[..r.off1 + r.i] else msg, NoError)
  }

  datatype DataResult = DataResult(data: RData, off1: nat, err: Error)

  /** The record a type starts from, with nothing filled in; none for types outside this model. */
  function Empty(rrtype: uint16): Option<RData> {
    if rrtype == TYPE_A then Some(A([]))
    else if rrtype == TYPE_AAAA then Some(AAAA([]))
    else if rrtype == TYPE_NS then Some(NS([]))
    else if rrtype == TYPE_CNAME then Some(CNAME([]))
    else if rrtype == TYPE_PTR then Some(PTR([]))
    else if rrtype == TYPE_MX then Some(MX(0, []))
    else if rrtype == TYPE_SRV then Some(SRV(0, 0, 0, []))
    else None
  }

  function UnpackAddr(msg: str, off: nat, n: nat, d: RData, f: str -> RData): DataResult {
    if off + n > |msg| then DataResult(d, |msg|, ErrOverflow) else DataResult(f(msg[off..off + n]), off + n, NoError)
  }

  function UnpackTarget(msg: str, off: nat, f: str -> RData): DataResult {
    var n := UnpackName(msg, off);
    DataResult(f(n.name), n.off1, n.err)
  }

  function UnpackMX(msg: str, off: nat): DataResult {
    var p := UnpackUint16(msg, off);
    if p.err != NoError || p.off1 == |msg| then DataResult(MX(p.i, []), p.off1, p.err)
    else UnpackTarget(msg, p.off1, n => MX(p.i, n))
  }

  function UnpackSRV(msg: str, off: nat): DataResult {
    var p := UnpackUint16(msg, off);
    if p.err != NoError || p.off1 == |msg| then DataResult(SRV(p.i, 0, 0, []), p.off1, p.err)
    else
      var w := UnpackUint16(msg, p.off1);
      if w.err != NoError || w.off1 == |msg| then DataResult(SRV(p.i, w.i, 0, []), w.off1, w.err)
      else
        var o := UnpackUint16(msg, w.off1);
        if o.err != NoError || o.off1 == |msg| then DataResult(SRV(p.i, w.i, o.i, []), o.off1, o.err)
        else UnpackTarget(msg, o.off1, n => SRV(p.i, w.i, o.i, n))
  }

  /** The unpack functions of zmsg.go, chosen by type. */
  function UnpackData(h: Header, msg: str, off: nat, empty: RData): DataResult {
    if h.rdlength == 0 then DataResult(empty, off, NoError)
    else
      match empty
      case A(_) => UnpackAddr(msg, off, 4, empty, ip => A(ip))
      case AAAA(_) => UnpackAddr(msg, off, 16, empty, ip => AAAA(ip))
      case NS(_) => UnpackTarget(msg, off, n => NS(n))
      case CNAME(_) => UnpackTarget(msg, off, n => CNAME(n))
      case PTR(_) => UnpackTarget(msg, off, n => PTR(n))
      case MX(_, _) => UnpackMX(msg, off)
      case SRV(_, _, _, _) => UnpackSRV(msg, off)
  }

  /** A record read from a message, with the Rdlength its header gave. */
  datatype Decoded = Decoded(rec: Rec, rdlength: uint16)

  datatype RRResult = RRResult(rr: Option<Decoded>, off1: nat, err: Error)

  function UnpackRR(msg: str, off: nat): RRResult {
    var r := UnpackHeader(msg, off);
    var end := r.off1 + r.h.rdlength;
    if r.err != NoError then RRResult(None, |r.msg|, r.err)
    else if off == |msg| then RRResult(None, off, NoError)
    else
      match Empty(r.h.rrtype)
      case None => RRResult(None, end, ErrUnmodelled)
      case Some(empty) =>
        var d := UnpackData(r.h, r.msg, r.off1, empty);
        if d.off1 != end then RRResult(None, end, ErrBadRdlength)
        else RRResult(Some(Decoded(Rec(r.h.name, r.h.rrtype, r.h.cls, r.h.ttl, d.data), r.h.rdlength)), d.off1, d.err)
  }

  // ---------- The round trip of one record ----------

  /** The name that unpacking prints for s; s itself when s is written that way. */
  function Printed(s: str): str {
    match Parse(s)
    case Good(_) => NameString(Labels(s))
    case Bad(_) => []
  }

  function PrintedData(d: RData): RData {
    match d
    case A(ip) => A(To4(ip))
    case AAAA(ip) => AAAA(ip)
    case NS(n) => NS(Printed(n))
    case CNAME(n) => CNAME(Printed(n))
    case PTR(n) => PTR(Printed(n))
    case MX(p, n) => MX(p, Printed(n))
    case SRV(p, w, o, n) => SRV(p, w, o, Printed(n))
  }

  /** The record that comes back: its names in their printed form, an IPv4-mapped address as IPv4. */
  function PrintedRec(r: Rec): Rec {
    Rec(Printed(r.name), r.rrtype, r.cls, r.ttl, PrintedData(r.data))
  }

  /** Middle and length field. */
  function Mid10(r: Rec, l: uint16): (b: str)
    ensures |b| == 10
  {
    Middle(r) + U16(l)
  }

  lemma HeaderAt(msg: str, off: nat, name: str, o1: nat, r: Rec, l: uint16)
    requires off < |msg| && UnpackName(msg, off) == NameResult(name, o1, NoError)
    requires o1 + 10 <= |msg| && msg[o1..o1 + 10] == Mid10(r, l)
    ensures UnpackHeader(msg, off)
            == HeaderResult(Header(name, r.rrtype, r.cls, r.ttl, l), o1 + 10,
                            if o1 + 10 + l <= |msg| then msg[..o1 + 10 + l] else msg, NoError)
  {
    hide UnpackName, U16, U32, GetU16, GetU32;
    var b := msg[o1..o1 + 10];
    var t, c, w, x := U16(r.rrtype), U16(r.cls), U32(r.ttl), U16(l);
    assert b == t + c + w + x;
    SubSlice(msg, o1, 10, 0, 2);
    SubSlice(msg, o1, 10, 2, 4);
    SubSlice(msg, o1, 10, 4, 8);
    SubSlice(msg, o1, 10, 8, 10);
    GetU16Put(msg, o1, r.rrtype);
    GetU16Put(msg, o1 + 2, r.cls);
    GetU32Put(msg, o1 + 4, r.ttl);
    GetU16Put(msg, o1 + 8, l);
  }

  /** rdata without a name reads back. */
  lemma AddrAt(msg: str, off: nat, h: Header, d: RData, compressing: bool)
    requires GoodData(d, compressing) && Final(d).None? && h.rdlength == |Fixed(d)|
    requires off + |Fixed(d)| == |msg| && msg[off..] == Fixed(d)
    ensures Empty(TypeOf(d)).Some?
    ensures UnpackData(h, msg, off, Empty(TypeOf(d)).value) == DataResult(PrintedData(d), |msg|, NoError)
  {
    assert msg[off..|msg|] == msg[off..];
  }

  /** rdata that ends in a name reads back when the name does. */
  lemma TargetAt(msg: str, off: nat, h: Header, d: RData)
    requires Final(d).Some? && h.rdlength > 0
    requires off + |Fixed(d)| < |msg| && msg[off..off + |Fixed(d)|] == Fixed(d)
    requires Parse(Final(d).value.0).Good?
    requires UnpackName(msg, off + |Fixed(d)|) == NameResult(Printed(Final(d).value.0), |msg|, NoError)
    ensures Empty(TypeOf(d)).Some?
    ensures UnpackData(h, msg, off, Empty(TypeOf(d)).value) == DataResult(PrintedData(d), |msg|, NoError)
  {
    hide UnpackName, Parse, Printed, GetU16, U16;
    match d
    case MX(p, n) =>
      GetU16Put(msg, off, p);
    case SRV(p, w, o, n) =>
      SubSlice(msg, off, 6, 0, 2);
      SubSlice(msg, off, 6, 2, 4);
      SubSlice(msg, off, 6, 4, 6);
      GetU16Put(msg, off, p);
      GetU16Put(msg, off + 2, w);
      GetU16Put(msg, off + 4, o);
    case _ =>
  }

  /** The pointers on the way of the owner name, and of the name that ends the rdata. */
  datatype Chains = Chains(owner: nat, target: nat, depths: map<str, nat>)

  function RecChains(r: Rec, off: nat, mp: Option<Offsets>, dm: map<str, nat>, compress: bool): Chains
    requires GoodRec(r, mp.Some?)
  {
    var h := PackName(Labels(r.name), off, mp, compress);
    var d := Depth(Labels(r.name), mp, dm, compress);
    var dm1 := Depths(mp, h.mp, dm, d);
    match Final(r.data)
    case None => Chains(d, 0, dm1)
    case Some((n, c)) =>
      var d2 := Depth(Labels(n), h.mp, dm1, compress && c);
      Chains(d, d2, Depths(h.mp, PackData(r.data, off + |h.bytes| + 10, h.mp, compress).mp, dm1, d2))
  }

  predicate ChainsOk(c: Chains) {
    c.owner <= MAX_POINTERS && c.target <= MAX_POINTERS
  }

  /** A name leads through at most one pointer for each of its labels, so ten labels are always few enough. */
  predicate FewLabels(s: str) {
    Parse(s).Good? && |Labels(s)| <= MAX_POINTERS
  }

  predicate FewRec(r: Rec) {
    FewLabels(r.name) && (Final(r.data).Some? ==> FewLabels(Final(r.data).value.0))
  }

  lemma FewParts(r: Rec)
    requires FewRec(r)
    ensures Parse(r.name).Good? && |Labels(r.name)| <= MAX_POINTERS
    ensures Final(r.data).Some? ==>
              var n := Final(r.data).value.0; Parse(n).Good? && |Labels(n)| <= MAX_POINTERS
  {
    hide Parse, Labels, Final;
  }

  lemma RecShape(r: Rec, off: nat, mp: Option<Offsets>, compress: bool)
    requires GoodRec(r, mp.Some?)
    ensures GoodName(r.name, mp.Some?) && Parse(r.name).Good? && ShortLabels(Labels(r.name))
    ensures Packable(Labels(r.name), mp)
    ensures GoodData(r.data, mp.Some?)
    ensures var h := PackName(Labels(r.name), off, mp, compress);
            var o := PackRec(r, off, mp, compress);
            var d := PackData(r.data, off + |h.bytes| + 10, h.mp, compress);
            var l := RdataLen(r, off, mp, compress);
            && o == Out(h.bytes + Mid10(r, l) + d.bytes, d.mp)
            && l == |d.bytes|
  {
    hide Parse, Labels, PackNamed, PackData, Final, Fixed, Middle, U16, PackRecWith, RdataLen, PackRec;
    RecLayout(r, off, mp, compress);
    GoodNamePackable(r.name, mp);
  }

  /** The parts of a packed record. */
  lemma RecLayout(r: Rec, off: nat, mp: Option<Offsets>, compress: bool)
    requires FitRec(r)
    ensures FitName(r.name) && Parse(r.name).Good? && FitData(r.data)
    ensures var h := PackNamed(r.name, off, mp, compress);
            var o := PackRec(r, off, mp, compress);
            var d := PackData(r.data, off + |h.bytes| + 10, h.mp, compress);
            var l := RdataLen(r, off, mp, compress);
            && o == Out(h.bytes + Mid10(r, l) + d.bytes, d.mp)
            && l == |d.bytes|
  {
    hide Parse, Labels, PackNamed, PackData, Final, Fixed, Middle, U16, PackRecWith, RdataLen, PackRec;
    GoodParts(r, off, mp, compress);
    RecUnfolds(r, RdataLen(r, off, mp, compress), off, mp, compress);
    var h := PackNamed(r.name, off, mp, compress);
    Concat3(h.bytes, Middle(r), U16(RdataLen(r, off, mp, compress)));
  }

  lemma GoodNamePackable(s: str, mp: Option<Offsets>)
    requires GoodName(s, mp.Some?)
    ensures Parse(s).Good? && ShortLabels(Labels(s)) && Packable(Labels(s), mp)
  {
    hide Parse, Labels, LabelsLen;
    if mp.Some? {
      PlainName(s);
    }
  }

  /** A good name is packed as its labels. */
  lemma PackedAsLabels(s: str, off: nat, mp: Option<Offsets>, compress: bool)
    requires GoodName(s, mp.Some?)
    ensures Parse(s).Good? && PackNamed(s, off, mp, compress) == PackName(Labels(s), off, mp, compress)
  {
    hide Parse, Labels, LabelsLen, PackName, PackNamed;
  }

  lemma DataShape(d: RData, off: nat, mp: Option<Offsets>, compress: bool)
    requires GoodData(d, mp.Some?)
    ensures Final(d).None? ==> PackData(d, off, mp, compress) == Out(Fixed(d), mp) && |Fixed(d)| > 0
    ensures Final(d).Some? ==>
              var (n, c) := Final(d).value;
              && GoodName(n, mp.Some?) && Parse(n).Good?
              && PackData(d, off, mp, compress)
                 == Append(Fixed(d), PackName(Labels(n), off + |Fixed(d)|, mp, compress && c))
  {
    if Final(d).Some? {
      DataUnfolds(d, off, mp, compress);
    }
  }

  /** The rdata, packed at the end of b, reads back from the message cut off at its end. */
  lemma DataRoundTrip(b: str, h: Header, d: RData, mp: Option<Offsets>, dm: map<str, nat>, compress: bool)
    requires GoodData(d, mp.Some?) && Sound(b, mp, dm)
    requires var o := PackData(d, |b|, mp, compress);
             h.rdlength == |o.bytes|
    ensures var o := PackData(d, |b|, mp, compress);
            && Empty(TypeOf(d)).Some?
            && (Final(d).None? ==>
                  && Sound(b + o.bytes, o.mp, dm)
                  && UnpackData(h, b + o.bytes, |b|, Empty(TypeOf(d)).value)
                     == DataResult(PrintedData(d), |b + o.bytes|, NoError))
            && (Final(d).Some? ==>
                  var (n, c) := Final(d).value;
                  Parse(n).Good? &&
                  var d2 := Depth(Labels(n), mp, dm, compress && c);
                  && d2 <= |Labels(n)|
                  && Sound(b + o.bytes, o.mp, Depths(mp, o.mp, dm, d2))
                  && (d2 <= MAX_POINTERS ==>
                        UnpackData(h, b + o.bytes, |b|, Empty(TypeOf(d)).value)
                        == DataResult(PrintedData(d), |b + o.bytes|, NoError))
                  && (d2 > MAX_POINTERS ==>
                        var x := UnpackData(h, b + o.bytes, |b|, Empty(TypeOf(d)).value);
                        x.err == ErrPointers && x.off1 == |b + o.bytes|))
  {
    hide *;
    DataShape(d, |b|, mp, compress);
    var o := PackData(d, |b|, mp, compress);
    var m := b + o.bytes;
    if Final(d).None? {
      assert m[|b|..] == o.bytes;
      SoundExtend(b, mp, dm, o.bytes);
      AddrAt(m, |b|, h, d, mp.Some?);
    } else {
      var (n, c) := Final(d).value;
      GoodNamePackable(n, mp);
      var b1 := b + Fixed(d);
      SoundExtend(b, mp, dm, Fixed(d));
      var d2 := Depth(Labels(n), mp, dm, compress && c);
      var q := PackName(Labels(n), |b1|, mp, compress && c);
      PackSound(b1, Labels(n), mp, dm, compress && c);
      Concat3(b, Fixed(d), q.bytes);
      TargetReads(b1, n, mp, dm, compress && c);
      DataIsName(d, o, q, m, b);
      if d2 <= MAX_POINTERS {
        TargetAt(m, |b|, h, d);
      } else {
        TargetFails(m, |b|, h, d);
      }
    }
  }

  /** rdata whose name cannot be read is refused with the same error. */
  lemma TargetFails(msg: str, off: nat, h: Header, d: RData)
    requires Final(d).Some? && h.rdlength > 0 && off + |Fixed(d)| < |msg|
    requires UnpackName(msg, off + |Fixed(d)|).err == ErrPointers && UnpackName(msg, off + |Fixed(d)|).off1 == |msg|
    ensures Empty(TypeOf(d)).Some?
    ensures var x := UnpackData(h, msg, off, Empty(TypeOf(d)).value); x.err == ErrPointers && x.off1 == |msg|
  {
    hide UnpackName, GetU16, U16;
  }

  lemma DataIsName(d: RData, o: Out, q: Out, m: str, b: str)
    requires o == Append(Fixed(d), q) && m == b + o.bytes
    ensures o.mp == q.mp && o.bytes == Fixed(d) + q.bytes && |o.bytes| == |Fixed(d)| + |q.bytes|
    ensures m[|b|..|b| + |Fixed(d)|] == Fixed(d)
  {
  }

  /** A good name packed at the end of b reads back as it is printed. */
  lemma TargetReads(b: str, n: str, mp: Option<Offsets>, dm: map<str, nat>, compress: bool)
    requires GoodName(n, mp.Some?) && Parse(n).Good? && Sound(b, mp, dm)
    ensures var o := PackName(Labels(n), |b|, mp, compress);
            && |o.bytes| > 0
            && if Depth(Labels(n), mp, dm, compress) <= MAX_POINTERS
               then UnpackName(b + o.bytes, |b|) == NameResult(Printed(n), |b| + |o.bytes|, NoError)
               else
                 UnpackName(b + o.bytes, |b|).err == ErrPointers && UnpackName(b + o.bytes, |b|).off1 == |b + o.bytes|
  {
    hide Sound, UnpackName, Depth, PackName, Parse, Labels, LabelsLen, NameString, SkipName, Spells;
    GoodNamePackable(n, mp);
    var o := PackName(Labels(n), |b|, mp, compress);
    UnpackPacked(b, Labels(n), mp, dm, compress, []);
    SkipForward(b + o.bytes + [], |b|);
    assert b + o.bytes + [] == b + o.bytes;
  }

  /** A good record packed at the end of buf reads back from any longer message, with its true Rdlength,
      exactly when neither of its names leads through more than ten pointers; and the compression map
      stays sound for what is packed next. */
  lemma RecRoundTrip(buf: str, r: Rec, mp: Option<Offsets>, dm: map<str, nat>, compress: bool, more: str)
    requires GoodRec(r, mp.Some?) && Sound(buf, mp, dm)
    ensures var o := PackRec(r, |buf|, mp, compress);
            var c := RecChains(r, |buf|, mp, dm, compress);
            && |o.bytes| > 0
            && Sound(buf + o.bytes, o.mp, c.depths)
            && if ChainsOk(c)
               then UnpackRR(buf + o.bytes + more, |buf|)
                    == RRResult(Some(Decoded(PrintedRec(r), RdataLen(r, |buf|, mp, compress))), |buf| + |o.bytes|,
                                NoError)
               else UnpackRR(buf + o.bytes + more, |buf|).err == ErrPointers
    ensures FewRec(r) ==> ChainsOk(RecChains(r, |buf|, mp, dm, compress))
  {
    hide *;
    if FewRec(r) { FewParts(r); }
    RecShape(r, |buf|, mp, compress);
    var ls := Labels(r.name);
    var h, d := PackName(ls, |buf|, mp, compress), Depth(ls, mp, dm, compress);
    var dm1 := Depths(mp, h.mp, dm, d);
    var l := RdataLen(r, |buf|, mp, compress);
    var b1 := buf + h.bytes;
    var b2 := b1 + Mid10(r, l);
    PackSound(buf, ls, mp, dm, compress);
    SoundExtend(b1, h.mp, dm1, Mid10(r, l));
    var rd := PackData(r.data, |b2|, h.mp, compress);
    var hdr := Header(Printed(r.name), r.rrtype, r.cls, r.ttl, l);
    DataRoundTrip(b2, hdr, r.data, h.mp, dm1, compress);
    var o := PackRec(r, |buf|, mp, compress);
    var msg := buf + o.bytes + more;
    Rejoin(buf, h.bytes, Mid10(r, l), rd.bytes, more, o.bytes);
    UnpackPacked(buf, ls, mp, dm, compress, Mid10(r, l) + rd.bytes + more);
    ChainsShape(r, |buf|, mp, dm, compress);
    NameReads(r.name, mp, d, |msg|, |b1|);
    if d <= MAX_POINTERS {
      HeaderAt(msg, |buf|, Printed(r.name), |b1|, r, l);
      RecordAt(msg, |buf|, r, hdr, b2 + rd.bytes, |b2|, mp.Some?);
    } else {
      HeaderFails(msg, |buf|);
    }
  }

  lemma Rejoin(buf: str, h: str, m: str, d: str, more: str, o: str)
    requires o == h + m + d
    ensures buf + o + more == buf + h + (m + d + more)
    ensures buf + o == buf + h + m + d
    ensures |buf| < |buf + o + more| || o == []
    ensures var msg := buf + o + more;
            && msg[|buf + h|..|buf + h + m|] == m
            && |buf + h + m + d| <= |msg| && msg[..|buf + h + m + d|] == buf + h + m + d
  {
  }

  lemma ChainsShape(r: Rec, off: nat, mp: Option<Offsets>, dm: map<str, nat>, compress: bool)
    requires GoodRec(r, mp.Some?) && Parse(r.name).Good? && GoodData(r.data, mp.Some?)
    ensures var h := PackName(Labels(r.name), off, mp, compress);
            var d := Depth(Labels(r.name), mp, dm, compress);
            var dm1 := Depths(mp, h.mp, dm, d);
            var c := RecChains(r, off, mp, dm, compress);
            && (ChainsOk(c) <==> c.owner <= MAX_POINTERS && c.target <= MAX_POINTERS)
            && c.owner == d
            && (Final(r.data).None? ==> c.target == 0 && c.depths == dm1)
            && (Final(r.data).Some? ==>
                  var (n, cc) := Final(r.data).value;
                  && Parse(n).Good?
                  && c.target == Depth(Labels(n), h.mp, dm1, compress && cc)
                  && c.depths == Depths(h.mp, PackData(r.data, off + |h.bytes| + 10, h.mp, compress).mp, dm1, c.target))
  {
    hide PackName, PackNamed, Depth, Parse, Labels, Depths, Fixed, ValidLabels, LabelsLen, PackData;
    if Final(r.data).Some? {
      DataUnfolds(r.data, off + |PackName(Labels(r.name), off, mp, compress).bytes| + 10,
                  PackName(Labels(r.name), off, mp, compress).mp, compress);
    }
  }

  lemma NameReads(s: str, mp: Option<Offsets>, d: nat, msgLen: nat, end: nat)
    requires GoodName(s, mp.Some?) && Parse(s).Good?
    ensures if d <= MAX_POINTERS then Unpacked(Labels(s), d, msgLen, end) == NameResult(Printed(s), end, NoError)
            else Unpacked(Labels(s), d, msgLen, end).err == ErrPointers
  {
    hide Parse, Labels;
  }

  lemma HeaderFails(msg: str, off: nat)
    requires off < |msg| && UnpackName(msg, off).err == ErrPointers
    ensures UnpackRR(msg, off).err == ErrPointers
  {
    hide UnpackName;
  }

  lemma RecordAt(msg: str, off: nat, r: Rec, h: Header, m: str, o1: nat, compressing: bool)
    requires GoodRec(r, compressing) && off < |msg| && o1 <= |m| <= |msg| && m == msg[..|m|]
    requires h == Header(Printed(r.name), r.rrtype, r.cls, r.ttl, h.rdlength) && h.rdlength == |m| - o1
    requires UnpackHeader(msg, off)
             == HeaderResult(h, o1, if o1 + h.rdlength <= |msg| then msg[..o1 + h.rdlength] else msg, NoError)
    requires Empty(TypeOf(r.data)).Some?
    ensures var d := UnpackData(h, m, o1, Empty(TypeOf(r.data)).value);
            && (d == DataResult(PrintedData(r.data), |m|, NoError) ==>
                  UnpackRR(msg, off) == RRResult(Some(Decoded(PrintedRec(r), h.rdlength)), |m|, NoError))
            && (d.err == ErrPointers && d.off1 == |m| ==> UnpackRR(msg, off).err == ErrPointers)
  {
    hide UnpackHeader, UnpackData, Parse, Printed, GoodName, GoodData;
  }
}
