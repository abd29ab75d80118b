/** Resource records: the packers and unpackers of zmsg.go and msg_helpers.go for A, AAAA, NS, CNAME, PTR,
    MX and SRV, PackRR and UnpackRR of msg.go, and rawSetRdlength of rawmsg.go. */
module Records {
  import opened Bytes
  import opened Names
  import opened PackNames
  import opened UnpackNames

  datatype RData =
    | A(ip: str)
    | AAAA(ip6: str)
    | NS(ns: str)
    | CNAME(target: str)
    | PTR(ptr: str)
    | MX(preference: uint16, mx: str)
    | SRV(priority: uint16, weight: uint16, port: uint16, host: str)

  const TYPE_A: uint16 := 1
  const TYPE_NS: uint16 := 2
  const TYPE_CNAME: uint16 := 5
  const TYPE_PTR: uint16 := 12
  const TYPE_MX: uint16 := 15
  const TYPE_AAAA: uint16 := 28
  const TYPE_SRV: uint16 := 33

  /** A record without its Rdlength: what the caller chooses. */
  datatype Rec = Rec(name: str, rrtype: uint16, cls: uint16, ttl: uint32, data: RData)

  /** net.IP.To4: the four octets of an IPv4 or IPv4-mapped address, else nil. */
  function To4(ip: str): (r: str)
    ensures |r| == 4 || r == []
  {
    if |ip| == 4 then ip
    else if |ip| == 16 && ip[..12] == [0, 0, 0, 0, 0, 0, 0, 0, 0, 0, 255, 255] then ip[12..]
    else []
  }

  function TypeOf(d: RData): uint16 {
    match d
    case A(_) => TYPE_A
    case AAAA(_) => TYPE_AAAA
    case NS(_) => TYPE_NS
    case CNAME(_) => TYPE_CNAME
    case PTR(_) => TYPE_PTR
    case MX(_, _) => TYPE_MX
    case SRV(_, _, _, _) => TYPE_SRV
  }

  /** The octets of the rdata before its domain name. */
  function Fixed(d: RData): str {
    match d
    case A(ip) => To4(ip)
    case AAAA(ip) => ip
    case MX(p, _) => U16(p)
    case SRV(p, w, o, _) => U16(p) + U16(w) + U16(o)
    case _ => []
  }

  /** The domain name that ends the rdata, and whether it may be compressed (SRV targets are not). */
  function Final(d: RData): Option<(str, bool)> {
    match d
    case NS(n) => Some((n, true))
    case CNAME(n) => Some((n, true))
    case PTR(n) => Some((n, true))
    case MX(_, n) => Some((n, true))
    case SRV(_, _, _, n) => Some((n, false))
    case _ => None
  }

  // ---------- Specification of packing ----------

  /** A name of at most 255 octets on the wire. */
  predicate FitName(s: str) {
    ValidName(s) && LabelsLen(Labels(s)) + 1 <= MAX_WIRE_OCTETS
  }

  /** rdata that packs: its name fits, and an address has its octets. */
  predicate FitData(d: RData) {
    && (Final(d).Some? ==> FitName(Final(d).value.0))
    && match d
       case A(ip) => To4(ip) != []
       case AAAA(ip) => |ip| == 16
       case _ => true
  }

  predicate FitRec(r: Rec) {
    FitName(r.name) && FitData(r.data) && r.rrtype == TypeOf(r.data)
  }

  /** A name whose compression keeps its meaning: without escapes when it meets a compression map. */
  predicate GoodName(s: str, compressing: bool): (good: bool)
    ensures good ==> FitName(s)
  {
    FitName(s) && (compressing ==> NoBackslash(s))
  }

  predicate GoodData(d: RData, compressing: bool): (good: bool)
    ensures good ==> FitData(d)
  {
    FitData(d) && (Final(d).Some? ==> GoodName(Final(d).value.0, compressing))
  }

  predicate GoodRec(r: Rec, compressing: bool): (good: bool)
    ensures good ==> FitRec(r)
  {
    FitRec(r) && GoodName(r.name, compressing) && GoodData(r.data, compressing)
  }

  function Append(b: str, o: Out): Out {
    Out(b + o.bytes, o.mp)
  }

  function PackData(d: RData, off: nat, mp: Option<Offsets>, compress: bool): (o: Out)
    requires FitData(d)
    ensures o.mp.Some? == mp.Some? && |o.bytes| <= 261
  {
    match Final(d)
    case None => Out(Fixed(d), mp)
    case Some((n, c)) =>
      Append(Fixed(d), PackNamed(n, off + |Fixed(d)|, mp, compress && c))
  }

  /** Type, class and TTL. */
  function Middle(r: Rec): (b: str)
    ensures |b| == 8
  {
    U16(r.rrtype) + U16(r.cls) + U32(r.ttl)
  }

  /** The record with rdlength in its length field. */
  function PackRecWith(r: Rec, rdlength: uint16, off: nat, mp: Option<Offsets>, compress: bool): (o: Out)
    requires FitRec(r)
    ensures o.mp.Some? == mp.Some?
  {
    var h := PackNamed(r.name, off, mp, compress);
    Append(h.bytes + Middle(r) + U16(rdlength), PackData(r.data, off + |h.bytes| + 10, h.mp, compress))
  }

  /** The octets of the rdata. */
  function RdataLen(r: Rec, off: nat, mp: Option<Offsets>, compress: bool): uint16
    requires FitRec(r)
  {
    var h := PackNamed(r.name, off, mp, compress);
    |PackData(r.data, off + |h.bytes| + 10, h.mp, compress).bytes|
  }

  /** The record on the wire: its length field holds the true length of its rdata. */
  function PackRec(r: Rec, off: nat, mp: Option<Offsets>, compress: bool): (o: Out)
    requires FitRec(r)
    ensures o.mp.Some? == mp.Some?
  {
    PackRecWith(r, RdataLen(r, off, mp, compress), off, mp, compress)
  }

  /** Octets that a name, rdata and a record take without compression. */
  function NameLen(s: str): nat {
    match Parse(s)
    case Good(_) => LabelsLen(Labels(s)) + 1
    case Bad(_) => 0
  }

  function DataLen(d: RData): nat {
    |Fixed(d)| + if Final(d).Some? then NameLen(Final(d).value.0) else 0
  }

  function RecLen(r: Rec): nat {
    NameLen(r.name) + 10 + DataLen(r.data)
  }

  /** The len methods of ztypes.go: every name counts one more than its characters. */
  function DataChars(d: RData): nat {
    match d
    case A(_) => 4
    case AAAA(_) => 16
    case NS(n) => |n| + 1
    case CNAME(n) => |n| + 1
    case PTR(n) => |n| + 1
    case MX(_, n) => 2 + |n| + 1
    case SRV(_, _, _, n) => 6 + |n| + 1
  }

  function RecChars(r: Rec): nat { |r.name| + 1 + 10 + DataChars(r.data) }

  // ---------- What becomes of any record ----------

  /** Where packing a piece ends and the map it leaves, or the error that ends the packing. */
  datatype Fate = Packed(off1: nat, mp: Option<Offsets>) | Stopped(err: Error) {
    /** n octets that need no map follow. */
    function Then(n: nat): Fate {
      match this
      case Packed(off1, mp) => Packed(off1 + n, mp)
      case Stopped(_) => this
    }
  }

  function NameFate(s: str, off: nat, mp: Option<Offsets>, compress: bool): (f: Fate)
    ensures f.Stopped? ==> f.err == ErrFqdn || f.err == ErrRdata
    ensures f.Packed? ==> off <= f.off1 <= off + |s| + 1
  {
    if s == [] then Packed(off, mp)
    else if !IsFqdn(s) then Stopped(ErrFqdn)
    else if Refused(s, off, mp, compress) then Stopped(ErrRdata)
    else
      var o := PackNamed(s, off, mp, compress);
      ParsedLen([], s, true);
      Packed(off + |o.bytes|, o.mp)
  }

  /** An address of one of the sizes its type takes is n octets on the wire; none at all is nothing. */
  function AddressFate(ip: str, sizes: set<nat>, n: nat, off: nat, mp: Option<Offsets>): (f: Fate)
    ensures f.Stopped? ==> f.err == ErrOverflow
    ensures f.Packed? ==> off <= f.off1 <= off + n
  {
    if |ip| in sizes then Packed(off + n, mp) else if ip == [] then Packed(off, mp) else Stopped(ErrOverflow)
  }

  function DataFate(d: RData, off: nat, mp: Option<Offsets>, compress: bool): Fate {
    match d
    case A(ip) => AddressFate(ip, {4, 16}, 4, off, mp)
    case AAAA(ip) => AddressFate(ip, {16}, 16, off, mp)
    case NS(n) => NameFate(n, off, mp, compress)
    case CNAME(n) => NameFate(n, off, mp, compress)
    case PTR(n) => NameFate(n, off, mp, compress)
    case MX(_, n) => NameFate(n, off + 2, mp, compress)
    case SRV(_, _, _, n) => NameFate(n, off + 6, mp, false)
  }

  function RecFate(r: Rec, off: nat, mp: Option<Offsets>, compress: bool): Fate {
    match NameFate(r.name, off, mp, compress)
    case Packed(off1, mp1) => DataFate(r.data, off1 + 10, mp1, compress)
    case Stopped(err) => Stopped(err)
  }

  lemma DataWithin(d: RData, off: nat, mp: Option<Offsets>, compress: bool)
    ensures var f := DataFate(d, off, mp, compress);
            if f.Packed? then off <= f.off1 <= off + DataChars(d) else f.err != NoError
  {
    hide NameFate, AddressFate;
  }

  lemma RecWithin(r: Rec, off: nat, mp: Option<Offsets>, compress: bool)
    ensures var f := RecFate(r, off, mp, compress);
            if f.Packed? then off + 10 <= f.off1 <= off + RecChars(r) else f.err != NoError
  {
    hide NameFate, DataFate, DataChars;
    var f := NameFate(r.name, off, mp, compress);
    if f.Packed? { DataWithin(r.data, f.off1 + 10, f.mp, compress); }
  }

  /** Walking over the owner of the packed record again finds its length field: an owner that is not there
      must be followed by a type that reads as the end of a name. */
  predicate Walkable(r: Rec) {
    (r.name == [] ==> r.rrtype < 0x100) && RecChars(r) <= 0x1_0000
  }

  /** The characters of a name are room for its labels. */
  lemma {:induction false} ParsedLen(cur: Label, s: str, first: bool)
    ensures LabelsLen(ParseFrom(cur, s, first).labels) <= |cur| + |s|
    decreases |s|
  {
    if s != [] && s != [BACKSLASH] {
      match FirstTok(s)
      case Lit(b) => ParsedLen(cur + [b], s[TokLen(s)..], first);
      case Sep =>
        ParsedLen([], s[1..], false);
        var more := ParseFrom([], s[1..], false).labels;
        assert ([cur] + more)[1..] == more;
    }
  }

  // ---------- Writing step by step ----------

  method PackUint16(i: uint16, msg: array<byte>, off: nat) returns (off1: nat, err: Error)
    modifies msg
    ensures Kept(old(msg[..]), msg[..], off)
    ensures if off + 2 > msg.Length then off1 == msg.Length && err == ErrOverflow && msg[..] == old(msg[..])
            else off1 == off + 2 && err == NoError && msg[off..off1] == U16(i) && msg[off1..] == old(msg[off1..])
  {
    if off + 2 > msg.Length {
      return msg.Length, ErrOverflow;
    }
    msg[off], msg[off + 1] := i / 256, i % 256;
    return off + 2, NoError;
  }

  method PackUint32(i: uint32, msg: array<byte>, off: nat) returns (off1: nat, err: Error)
    modifies msg
    ensures Kept(old(msg[..]), msg[..], off)
    ensures if off + 4 > msg.Length then off1 == msg.Length && err == ErrOverflow
            else off1 == off + 4 && err == NoError && msg[off..off1] == U32(i) && msg[off1..] == old(msg[off1..])
  {
    if off + 4 > msg.Length {
      return msg.Length, ErrOverflow;
    }
    var hi, lo := i / 0x1_0000, i % 0x1_0000;
    msg[off], msg[off + 1], msg[off + 2], msg[off + 3] := hi / 256, hi % 256, lo / 256, lo % 256;
    return off + 4, NoError;
  }

  /** copy(msg[off:], b) */
  method CopyInto(b: str, msg: array<byte>, off: nat)
    requires off + |b| <= msg.Length
    modifies msg
    ensures msg[..off] == old(msg[..off]) && msg[off..off + |b|] == b && msg[off + |b|..] == old(msg[off + |b|..])
  {
    for j := 0 to |b|
      invariant msg[..off] == old(msg[..off]) && msg[off..off + j] == b[..j] && msg[off + j..] == old(msg[off + j..])
    {
      msg[off + j] := b[j];
    }
  }

  method PackDataA(ip: str, msg: array<byte>, off: nat) returns (off1: nat, err: Error)
    modifies msg
    ensures Kept(old(msg[..]), msg[..], off)
    ensures err == NoError ==> off <= off1
    ensures off + 4 <= msg.Length && |ip| == 4 ==> msg[off..off + 4] == ip
    ensures off + 4 <= msg.Length && |ip| == 16 ==>
              if (forall k | 0 <= k < 10 :: ip[k] == 0) && ip[10] == ip[11] == 255 then msg[off..off + 4] == ip[12..16]
              else msg[..] == old(msg[..])
    ensures off + 4 <= msg.Length && |ip| in {4, 16} ==> off1 == off + 4 && err == NoError
    ensures off + 4 <= msg.Length && To4(ip) != [] ==> off1 == off + 4 && err == NoError && msg[off..off1] == To4(ip)
    ensures off + 4 <= msg.Length && ip == [] ==> off1 == off && err == NoError && msg[..] == old(msg[..])
    ensures off + 4 <= msg.Length && |ip| == 16 && To4(ip) == [] ==>
              off1 == off + 4 && err == NoError && msg[..] == old(msg[..])
    ensures off + 4 > msg.Length || |ip| !in {0, 4, 16} ==> off1 == msg.Length && err == ErrOverflow
  {
    if off + 4 > msg.Length {
      return msg.Length, ErrOverflow;
    }
    if |ip| == 4 || |ip| == 16 {
      CopyInto(To4(ip), msg, off);
      return off + 4, NoError;
    } else if |ip| == 0 {
      return off, NoError;
    }
    return msg.Length, ErrOverflow;
  }

  method PackDataAAAA(ip: str, msg: array<byte>, off: nat) returns (off1: nat, err: Error)
    modifies msg
    ensures Kept(old(msg[..]), msg[..], off)
    ensures err == NoError ==> off <= off1
    ensures off + 16 <= msg.Length && |ip| == 16 ==> off1 == off + 16 && err == NoError && msg[off..off1] == ip
    ensures off + 16 <= msg.Length && ip == [] ==> off1 == off && err == NoError && msg[..] == old(msg[..])
    ensures off + 16 > msg.Length || |ip| !in {0, 16} ==> off1 == msg.Length && err == ErrOverflow
  {
    if off + 16 > msg.Length {
      return msg.Length, ErrOverflow;
    }
    if |ip| == 16 {
      CopyInto(ip, msg, off);
      return off + 16, NoError;
    } else if |ip| == 0 {
      return off, NoError;
    }
    return msg.Length, ErrOverflow;
  }

  /** Writes the true length of the rdata of the record at off, which ends at end, into its length
      field, after walking over the owner name again. */
  method RawSetRdlength(msg: array<byte>, off: nat, end: nat) returns (ok: bool)
    modifies msg
    ensures var s := SkipName(old(msg[..]), off);
            ok <==> s.Some? && s.value + 10 <= msg.Length && end as int - (s.value + 10) <= 0xFFFF
    ensures ok ==> var at := SkipName(old(msg[..]), off).value + 8;
                   && msg[..at] == old(msg[..at]) && msg[at + 2..] == old(msg[at + 2..])
                   && msg[at..at + 2] == U16((end as int - (at + 2)) % 0x1_0000)
    ensures !ok ==> msg[..] == old(msg[..])
  {
    var l, off1 := msg.Length, off;
    while true
      invariant SkipName(msg[..], off1) == SkipName(msg[..], off)
      invariant msg[..] == old(msg[..])
      decreases l - off1
    {
      if off1 + 1 > l {
        return false;
      }
      var c := msg[off1];
      off1 := off1 + 1;
      if c < 64 {
        if c == 0 {
          break;
        }
        if off1 + c > l {
          return false;
        }
        off1 := off1 + c;
      } else if c >= 192 {
        off1 := off1 + 1;
        break;
      }
    }
    off1 := off1 + 2 + 2 + 4;
    if off1 + 2 > l {
      return false;
    }
    var rdatalen: int := end as int - (off1 + 2);
    if rdatalen > 0xFFFF {
      return false;
    }
    var v: uint16 := rdatalen % 0x1_0000;
    msg[off1], msg[off1 + 1] := v / 256, v % 256;
    return true;
  }

  /** The exported PackDomainName, on names that fit and have room; its end offset lies beyond the buffer when
      only the final zero has none. */
  method PackDomainName(s: str, msg: array<byte>, off: nat, compression: CompressionMap?, compress: bool)
    returns (off1: nat, err: Error)
    modifies msg, compression
    ensures Kept(old(msg[..]), msg[..], off)
    ensures err == NoError ==> off <= off1
    ensures s != [] && !IsFqdn(s) ==> err == ErrFqdn
    ensures s == [] ==>
              err == NoError && off1 == off && msg[..] == old(msg[..]) && MapOf(compression) == old(MapOf(compression))
    ensures s != [] && compression == null && err == NoError ==> Beyond(msg, old(msg[..]), off1)
    ensures FitName(s) && off + NameLen(s) <= msg.Length ==>
              var o := PackNamed(s, off, old(MapOf(compression)), compress);
              && err == NoError && off1 == off + |o.bytes| <= msg.Length
              && msg[off..off1] == o.bytes && MapOf(compression) == o.mp
    ensures compression == null && ValidName(s) && s != ROOT && EndsInSep(s)
            && off + LabelsLen(Labels(s)) == msg.Length ==>
              err == NoError && off1 == msg.Length + 1
    // any name
    ensures off + |s| < msg.Length ==>
              && (err == NoError ==> off1 <= msg.Length)
              && (if err == NoError then Packed(off1, MapOf(compression)) else Stopped(err))
                 == NameFate(s, off, old(MapOf(compression)), compress)
              && (s != [] && err == NoError ==>
                    msg[off..off1] == PackNamed(s, off, old(MapOf(compression)), compress).bytes)
  {
    hide ParseFrom, PackNamed, LabelsLen, Kept, EndsInSep, NoBackslash, Refused;
    var labels;
    ghost var mp := MapOf(compression);
    off1, labels, err := PackNames.PackDomainName(s, msg, off, compression, compress);
    if compression == null && ValidName(s) && err == NoError { ExactEnd(msg, s, off, off1, compress); }
  }

  /** RR_Header.pack */
  method PackHeader(r: Rec, rdlength: uint16, msg: array<byte>, off: nat, compression: CompressionMap?, compress: bool)
    returns (off1: nat, err: Error)
    modifies msg, compression
    ensures Kept(old(msg[..]), msg[..], off)
    ensures err == NoError ==> off <= off1
    ensures off != msg.Length && r.name != [] && !IsFqdn(r.name) ==> err == ErrFqdn && off1 == msg.Length
    ensures FitName(r.name) && off + NameLen(r.name) + 10 <= msg.Length ==>
              var h := PackNamed(r.name, off, old(MapOf(compression)), compress);
              && err == NoError && off1 == off + |h.bytes| + 10 && off1 <= msg.Length
              && msg[off..off1] == h.bytes + Middle(r) + U16(rdlength)
              && MapOf(compression) == h.mp
    ensures off + |r.name| + 11 <= msg.Length ==>
              && (if err == NoError then Packed(off1, MapOf(compression)) else Stopped(err))
                 == NameFate(r.name, off, old(MapOf(compression)), compress).Then(10)
              && (err == NoError ==> off1 <= msg.Length && OwnerAt(msg[..], off, r, old(MapOf(compression)), compress))
  {
    if off == msg.Length {
      return off, NoError;
    }
    hide *;
    ghost var b0, mp := msg[..], MapOf(compression);
    ThenIs(NameFate(r.name, off, mp, compress), 10);
    off1, err := PackDomainName(r.name, msg, off, compression, compress);
    if err != NoError {
      return msg.Length, err;
    }
    ghost var b1, o1 := msg[..], off1;
    off1, err := PackFields(r, rdlength, msg, off1);
    KeptTrans(b0, b1, msg[..], off, o1);
    if err != NoError {
      return msg.Length, err;
    }
    HeaderWritten(b1, msg[..], off, o1, off1, r, rdlength, mp, compress);
    return off1, NoError;
  }

  lemma HeaderWritten(before: str, now: str, off: nat, off1: nat, end: nat, r: Rec, rdlength: uint16,
                      mp: Option<Offsets>, compress: bool)
    requires off <= off1 <= |before| && Kept(before, now, off1) && end == off1 + 10 <= |now|
    requires now[off1..end] == Middle(r) + U16(rdlength)
    ensures before[off..off1] == PackNamed(r.name, off, mp, compress).bytes ==>
              now[off..end] == PackNamed(r.name, off, mp, compress).bytes + Middle(r) + U16(rdlength)
    ensures (if r.name == [] then off1 == off else before[off..off1] == PackNamed(r.name, off, mp, compress).bytes)
            ==> OwnerAt(now, off, r, mp, compress)
  {
    hide PackNamed;
    var h, m, x := before[off..off1], Middle(r), U16(rdlength);
    Splice(before, now, off, off1, end, h, m + x);
    Concat3(h, m, x);
    assert m[..2] == U16(r.rrtype) && now[off1..off1 + 2] == now[off1..end][..2] == (m + x)[..2];
    assert now[off..off1] == now[off..end][..|h|] == h;
  }

  /** Type, class, TTL and the length field of a record. */
  method PackFields(r: Rec, rdlength: uint16, msg: array<byte>, off: nat) returns (off1: nat, err: Error)
    modifies msg
    ensures Kept(old(msg[..]), msg[..], off)
    ensures if off + 10 > msg.Length then err == ErrOverflow
            else err == NoError && off1 == off + 10 && msg[off..off1] == Middle(r) + U16(rdlength)
  {
    hide *;
    ghost var b0, room := msg[..], off + 10 <= msg.Length;
    off1, err := PackUint16(r.rrtype, msg, off);
    if err != NoError {
      return;
    }
    ghost var b1, o1 := msg[..], off1;
    off1, err := PackUint16(r.cls, msg, off1);
    ghost var b2, o2 := msg[..], off1;
    KeptTrans(b0, b1, b2, off, o1);
    if err != NoError {
      return;
    }
    Splice(b1, b2, off, o1, o2, U16(r.rrtype), U16(r.cls));
    off1, err := PackUint32(r.ttl, msg, off1);
    ghost var b3, o3 := msg[..], off1;
    KeptTrans(b0, b2, b3, off, o2);
    if err != NoError {
      return;
    }
    Splice(b2, b3, off, o2, o3, U16(r.rrtype) + U16(r.cls), U32(r.ttl));
    off1, err := PackUint16(rdlength, msg, off1);
    KeptTrans(b0, b3, msg[..], off, o3);
    if err != NoError {
      return;
    }
    Splice(b3, msg[..], off, o3, off1, U16(r.rrtype) + U16(r.cls) + U32(r.ttl), U16(rdlength));
    MiddleIs(r);
  }

  lemma MiddleIs(r: Rec)
    ensures Middle(r) == U16(r.rrtype) + U16(r.cls) + U32(r.ttl)
  {
  }

  lemma ThenIs(f: Fate, n: nat)
    ensures f.Then(n) == if f.Packed? then Packed(f.off1 + n, f.mp) else f
  {
  }

  /** The octets at off where a walk over the owner starts: those of the name, or if there is none, of the type. */
  ghost predicate OwnerAt(msg: str, off: nat, r: Rec, mp: Option<Offsets>, compress: bool) {
    var b := if r.name == [] then U16(r.rrtype) else PackNamed(r.name, off, mp, compress).bytes;
    off + |b| <= |msg| && msg[off..off + |b|] == b
  }

  lemma OwnerKept(before: str, now: str, off: nat, off1: nat, r: Rec, mp: Option<Offsets>, compress: bool)
    requires OwnerAt(before, off, r, mp, compress) && Kept(before, now, off1)
    requires off1 >= off + if r.name == [] then 2 else |PackNamed(r.name, off, mp, compress).bytes|
    ensures OwnerAt(now, off, r, mp, compress)
  {
    hide PackNamed, U16;
    var b := if r.name == [] then U16(r.rrtype) else PackNamed(r.name, off, mp, compress).bytes;
    if off1 <= |now| {
      var n := off + |b|;
      assert now[off..n] == now[..off1][off..n];
      assert before[off..n] == before[..off1][off..n];
    }
  }

  /** The rdata part of what each `pack` method in zmsg.go writes. */
  method PackRdata(d: RData, msg: array<byte>, off: nat, compression: CompressionMap?, compress: bool)
    returns (off1: nat, err: Error)
    modifies msg, compression
    ensures Kept(old(msg[..]), msg[..], off)
    ensures err == NoError ==> off <= off1
    ensures FitData(d) && off + DataLen(d) <= msg.Length ==>
              var o := PackData(d, off, old(MapOf(compression)), compress);
              && err == NoError && off1 == off + |o.bytes| <= msg.Length
              && msg[off..off1] == o.bytes && MapOf(compression) == o.mp
    ensures off + DataChars(d) <= msg.Length ==>
              && (err == NoError ==> off1 <= msg.Length)
              && (if err == NoError then Packed(off1, MapOf(compression)) else Stopped(err))
                 == DataFate(d, off, old(MapOf(compression)), compress)
  {
    hide PackNamed, LabelsLen, Parse, Labels, ValidName, U16, To4, NameLen, FitName, NameFate;
    match d
    case A(ip) =>
      off1, err := PackDataA(ip, msg, off);
    case AAAA(ip) =>
      off1, err := PackDataAAAA(ip, msg, off);
    case NS(n) =>
      off1, err := PackName1(d, [], n, true, msg, off, off, msg[..], compression, compress);
    case CNAME(n) =>
      off1, err := PackName1(d, [], n, true, msg, off, off, msg[..], compression, compress);
    case PTR(n) =>
      off1, err := PackName1(d, [], n, true, msg, off, off, msg[..], compression, compress);
    case MX(preference, n) =>
      ghost var b0 := msg[..];
      off1, err := PackUint16(preference, msg, off);
      if err != NoError {
        return;
      }
      off1, err := PackName1(d, U16(preference), n, true, msg, off, off1, b0, compression, compress);
    case SRV(priority, weight, port, n) =>
      ghost var b0 := msg[..];
      off1, err := PackThree(priority, weight, port, msg, off);
      if err != NoError {
        return;
      }
      off1, err := PackName1(d, U16(priority) + U16(weight) + U16(port), n, false, msg, off, off1, b0,
                             compression, compress);
  }

  /** Priority, weight and port of an SRV record. */
  method PackThree(priority: uint16, weight: uint16, port: uint16, msg: array<byte>, off: nat)
    returns (off1: nat, err: Error)
    modifies msg
    ensures Kept(old(msg[..]), msg[..], off)
    ensures err == NoError <==> off + 6 <= msg.Length
    ensures err == NoError ==> off1 == off + 6 && msg[off..off1] == U16(priority) + U16(weight) + U16(port)
  {
    hide *;
    ghost var b0 := msg[..];
    off1, err := PackUint16(priority, msg, off);
    if err != NoError {
      return;
    }
    ghost var b1, o1 := msg[..], off1;
    off1, err := PackUint16(weight, msg, off1);
    KeptTrans(b0, b1, msg[..], off, o1);
    if err != NoError {
      return;
    }
    ghost var b2, o2 := msg[..], off1;
    Splice(b1, b2, off, o1, o2, U16(priority), U16(weight));
    off1, err := PackUint16(port, msg, off1);
    KeptTrans(b0, b2, msg[..], off, o2);
    if err != NoError {
      return;
    }
    Splice(b2, msg[..], off, o2, off1, U16(priority) + U16(weight), U16(port));
  }

  /** The domain name that ends the rdata, after the octets in head. */
  method PackName1(ghost d: RData, ghost head: str, n: str, c: bool, msg: array<byte>, ghost off0: nat, off: nat,
                   ghost before: str, compression: CompressionMap?, compress: bool)
    returns (off1: nat, err: Error)
    requires head == Fixed(d) && Final(d) == Some((n, c)) && off == off0 + |head|
    requires Kept(before, msg[..], off0) && (off <= msg.Length ==> msg[off0..off] == head)
    modifies msg, compression
    ensures Kept(before, msg[..], off0)
    ensures err == NoError ==> off0 <= off1
    ensures FitData(d) && off0 + DataLen(d) <= msg.Length ==>
              var o := PackData(d, off0, old(MapOf(compression)), compress);
              && err == NoError && off1 == off0 + |o.bytes| <= msg.Length
              && msg[off0..off1] == o.bytes && MapOf(compression) == o.mp
    ensures off0 + DataChars(d) <= msg.Length ==>
              && (err == NoError ==> off1 <= msg.Length)
              && (if err == NoError then Packed(off1, MapOf(compression)) else Stopped(err))
                 == DataFate(d, off0, old(MapOf(compression)), compress)
  {
    hide PackNamed, LabelsLen, Parse, Labels, ValidName, Fixed, Final, NameLen, FitName, Kept, NameFate, DataFate,
         DataChars, Refused;
    DataFateIs(d, off0, MapOf(compression), compress);
    ghost var b := msg[..];
    ghost var good := FitData(d) && off0 + DataLen(d) <= msg.Length;
    ghost var mp := MapOf(compression);
    off1, err := PackDomainName(n, msg, off, compression, compress && c);
    KeptTrans(before, b, msg[..], off0, off);
    if good {
      DataUnfolds(d, off0, mp, compress);
      Splice(b, msg[..], off0, off, off1, head, PackNamed(n, off, mp, compress && c).bytes);
    }
  }

  lemma DataFateIs(d: RData, off: nat, mp: Option<Offsets>, compress: bool)
    requires Final(d).Some?
    ensures var (n, c) := Final(d).value;
            && DataFate(d, off, mp, compress) == NameFate(n, off + |Fixed(d)|, mp, compress && c)
            && DataChars(d) == |Fixed(d)| + |n| + 1
  {
    hide NameFate;
  }

  lemma DataUnfolds(d: RData, off: nat, mp: Option<Offsets>, compress: bool)
    requires FitData(d) && Final(d).Some?
    ensures var (n, c) := Final(d).value;
            && FitName(n) && Parse(n).Good?
            && PackData(d, off, mp, compress) == Append(Fixed(d), PackNamed(n, off + |Fixed(d)|, mp, compress && c))
            && DataLen(d) == |Fixed(d)| + NameLen(n)
  {
  }

  /** A record as the packers see it: what it says, and the Rdlength they fill in. */
  class RR {
    const rec: Rec
    var rdlength: uint16

    constructor (rec: Rec)
      ensures this.rec == rec && rdlength == 0
    {
      this.rec := rec;
      rdlength := 0;
    }

    /** One `pack` method of zmsg.go: header, rdata, then Rdlength in the record itself; the length field
        in the buffer still holds the old Rdlength. */
    method Pack(msg: array<byte>, off: nat, compression: CompressionMap?, compress: bool)
      returns (off1: nat, err: Error)
      modifies this`rdlength, msg, compression
      ensures Kept(old(msg[..]), msg[..], off)
      ensures err == NoError ==> off <= off1
      ensures FitRec(rec) && off + RecLen(rec) <= msg.Length ==>
                var mp := old(MapOf(compression));
                var o := PackRecWith(rec, old(rdlength), off, mp, compress);
                && err == NoError && off1 == off + |o.bytes| <= msg.Length
                && msg[off..off1] == o.bytes && MapOf(compression) == o.mp
                && rdlength == RdataLen(rec, off, mp, compress)
      ensures off + RecChars(rec) <= msg.Length ==>
                && (err == NoError ==> off1 <= msg.Length)
                && (if err == NoError then Packed(off1, MapOf(compression)) else Stopped(err))
                   == RecFate(rec, off, old(MapOf(compression)), compress)
                && (err == NoError ==> OwnerAt(msg[..], off, rec, old(MapOf(compression)), compress))
    {
      hide *;
      FateParts(rec, off, MapOf(compression), compress);
      ghost var b0, good := msg[..], FitRec(rec) && off + RecLen(rec) <= msg.Length;
      ghost var mp, l0 := MapOf(compression), rdlength;
      RecParts(rec, off, compression, compress);
      off1, err := PackHeader(rec, rdlength, msg, off, compression, compress);
      if err != NoError {
        return;
      }
      var headerEnd := off1;
      ghost var b1, mp1 := msg[..], MapOf(compression);
      off1, err := PackRdata(rec.data, msg, off1, compression, compress);
      KeptTrans(b0, b1, msg[..], off, headerEnd);
      if err != NoError {
        return;
      }
      if off + RecChars(rec) <= msg.Length { OwnerKept(b1, msg[..], off, headerEnd, rec, mp, compress); }
      rdlength := (off1 - headerEnd) % 0x1_0000;
      if good {
        ghost var h := PackNamed(rec.name, off, mp, compress);
        ghost var rd := PackData(rec.data, off + |h.bytes| + 10, h.mp, compress);
        RecUnfolds(rec, l0, off, mp, compress);
        Splice(b1, msg[..], off, headerEnd, off1, h.bytes + Middle(rec) + U16(l0), rd.bytes);
      }
    }
  }

  lemma FateParts(r: Rec, off: nat, mp: Option<Offsets>, compress: bool)
    ensures RecChars(r) == |r.name| + 11 + DataChars(r.data) && DataChars(r.data) >= 1
    ensures var f := NameFate(r.name, off, mp, compress);
            && RecFate(r, off, mp, compress)
               == (if f.Packed? then DataFate(r.data, f.off1 + 10, f.mp, compress) else f)
            && f.Then(10) == (if f.Packed? then Packed(f.off1 + 10, f.mp) else f)
            && (f.Packed? ==>
                  && f.off1 <= off + |r.name| + 1
                  && f.off1 + 10 >= off + if r.name == [] then 2 else |PackNamed(r.name, off, mp, compress).bytes|)
  {
    hide PackNamed, Refused, DataFate;
  }

  lemma RecParts(r: Rec, off: nat, c: CompressionMap?, compress: bool)
    ensures MapOf(c).Some? == (c != null)
    ensures FitRec(r) ==> FitName(r.name) && Parse(r.name).Good? && FitData(r.data)
    ensures RecLen(r) == NameLen(r.name) + 10 + DataLen(r.data)
    ensures FitRec(r) ==> |PackNamed(r.name, off, MapOf(c), compress).bytes| <= NameLen(r.name)
  {
    hide ParseFrom;
  }

  lemma RecUnfolds(r: Rec, rdlength: uint16, off: nat, mp: Option<Offsets>, compress: bool)
    requires FitRec(r) && Parse(r.name).Good?
    ensures var h := PackNamed(r.name, off, mp, compress);
            && h.mp.Some? == mp.Some? && FitData(r.data)
            && var rd := PackData(r.data, off + |h.bytes| + 10, h.mp, compress);
               && PackRecWith(r, rdlength, off, mp, compress)
                  == Out(h.bytes + Middle(r) + U16(rdlength) + rd.bytes, rd.mp)
               && |rd.bytes| <= 261 && RdataLen(r, off, mp, compress) == |rd.bytes|
  {
    hide Parse, Labels, PackNamed, PackData, Final, Fixed, FitData, FitName, Middle, U16;
    assert FitData(r.data);
  }

  /** Walking over a packed name, compressed or not, ends right after it. */
  lemma SkipPacked(msg: str, off: nat, s: str, mp: Option<Offsets>, compress: bool)
    requires ValidName(s)
    requires var b := PackNamed(s, off, mp, compress).bytes; off + |b| <= |msg| && msg[off..off + |b|] == b
    ensures SkipName(msg, off) == Some(off + |PackNamed(s, off, mp, compress).bytes|)
  {
    hide Parse, NameKeys, PackKeyed, SkipName;
    if s == ROOT {
      SkipZero(msg, off);
    } else {
      SkipKeyed(msg, off, Labels(s), NameKeys(s, compress), mp, compress);
    }
  }

  lemma {:induction false} SkipKeyed(msg: str, off: nat, ls: seq<Label>, keys: seq<str>, mp: Option<Offsets>,
                                     compress: bool)
    requires ValidLabels(ls) && ShortLabels(ls) && |keys| == |ls|
    requires var b := PackKeyed(ls, keys, off, mp, compress).bytes; off + |b| <= |msg| && msg[off..off + |b|] == b
    ensures SkipName(msg, off) == Some(off + |PackKeyed(ls, keys, off, mp, compress).bytes|)
    decreases |ls|
  {
    hide *;
    if ls == [] {
      KeyedEmpty(off, mp, compress);
      assert keys == [];
      SkipZero(msg, off);
    } else if compress && Hit(mp, keys[0]) {
      KeyedHit(ls, keys, off, mp);
      SkipPointer(msg, off, mp.value[keys[0]]);
    } else {
      ValidFirst(ls);
      KeyedMore(ls, keys, off, mp, compress);
      var rest := PackKeyed(ls[1..], keys[1..], off + |ls[0]| + 1, Record(mp, keys[0], off), compress).bytes;
      SkipLabel(msg, off, ls[0], rest);
      SkipKeyed(msg, off + |ls[0]| + 1, ls[1..], keys[1..], Record(mp, keys[0], off), compress);
    }
  }

  lemma KeyedEmpty(off: nat, mp: Option<Offsets>, compress: bool)
    ensures ShortLabels([]) && PackKeyed([], [], off, mp, compress) == Out([0], mp)
  {
  }

  lemma KeyedHit(ls: seq<Label>, keys: seq<str>, off: nat, mp: Option<Offsets>)
    requires ShortLabels(ls) && ls != [] && |keys| == |ls| && Hit(mp, keys[0])
    ensures mp.Some? && keys[0] in mp.value
    ensures PackKeyed(ls, keys, off, mp, true) == Out(Pointer(mp.value[keys[0]]), mp)
  {
  }

  lemma ValidFirst(ls: seq<Label>)
    requires ValidLabels(ls) && ls != []
    ensures 1 <= |ls[0]| <= 63 && ValidLabels(ls[1..]) && ShortLabels(ls) && ShortLabels(ls[1..])
  {
    assert ls[0] in ls;
    assert forall x | x in ls[1..] :: x in ls;
  }

  lemma SkipZero(msg: str, off: nat)
    requires off + 1 <= |msg| && msg[off..off + 1] == [0]
    ensures SkipName(msg, off) == Some(off + 1)
  {
    assert msg[off] == msg[off..off + 1][0];
  }

  lemma SkipPointer(msg: str, off: nat, p: nat)
    requires p < MAX_OFFSET && off + 2 <= |msg| && msg[off..off + 2] == Pointer(p)
    ensures SkipName(msg, off) == Some(off + 2)
  {
    assert msg[off] == msg[off..off + 2][0] >= 192;
  }

  lemma SkipLabel(msg: str, off: nat, l: Label, rest: str)
    requires 1 <= |l| <= 63
    requires var b := [|l|] + l + rest; off + |b| <= |msg| && msg[off..off + |b|] == b
    ensures SkipName(msg, off) == SkipName(msg, off + |l| + 1)
    ensures msg[off + |l| + 1..off + |l| + 1 + |rest|] == rest
  {
    var b := [|l|] + l + rest;
    assert msg[off] == msg[off..off + |b|][0] == |l|;
    assert msg[off + |l| + 1..off + |l| + 1 + |rest|] == b[|l| + 1..] == rest;
  }

  /** The length field rawSetRdlength finds is the one RR_Header.pack wrote, and what it puts there is the
      true length of the rdata. */
  lemma RdlengthField(msg: str, off: nat, r: Rec, l0: uint16, mp: Option<Offsets>, compress: bool)
    requires FitRec(r)
    requires var o := PackRecWith(r, l0, off, mp, compress);
             off + |o.bytes| <= |msg| && msg[off..off + |o.bytes|] == o.bytes
    ensures var o := PackRecWith(r, l0, off, mp, compress);
            var l := RdataLen(r, off, mp, compress);
            var s := SkipName(msg, off);
            && s.Some? && s.value + 10 <= |msg|
            && off + |o.bytes| - (s.value + 10) == l
            && off <= s.value + 8
            && var at := s.value + 8;
               var patched := msg[..at] + U16(l) + msg[at + 2..];
               && off + |o.bytes| <= |patched|
               && patched[off..off + |o.bytes|] == PackRec(r, off, mp, compress).bytes
               && PackRec(r, off, mp, compress).mp == o.mp
  {
    hide *;
    GoodParts(r, off, mp, compress);
    var l := RdataLen(r, off, mp, compress);
    var h := PackNamed(r.name, off, mp, compress);
    var rd := PackData(r.data, off + |h.bytes| + 10, h.mp, compress);
    RecUnfolds(r, l0, off, mp, compress);
    RecUnfolds(r, l, off, mp, compress);
    var x, y, m := U16(l0), U16(l), Middle(r);
    assert |PackRecWith(r, l0, off, mp, compress).bytes| == |h.bytes| + 10 + |rd.bytes|;
    PatchRecord(msg, off, h.bytes, m, x, y, rd.bytes);
    SkipPacked(msg, off, r.name, mp, compress);
  }

  lemma GoodParts(r: Rec, off: nat, mp: Option<Offsets>, compress: bool)
    requires FitRec(r)
    ensures ValidName(r.name) && Parse(r.name).Good? && FitData(r.data)
    ensures PackRec(r, off, mp, compress) == PackRecWith(r, RdataLen(r, off, mp, compress), off, mp, compress)
  {
    hide Parse, Labels, PackNamed, PackData, Final, Fixed, FitData, Middle, U16, PackRecWith, RdataLen, ValidLabels,
         LabelsLen, NoBackslash;
  }

  lemma PatchRecord(msg: str, off: nat, h: str, mid: str, x: str, y: str, rd: str)
    requires |mid| == 8 && |x| == |y| == 2
    requires var b := h + mid + x + rd; off + |b| <= |msg| && msg[off..off + |b|] == b
    ensures msg[off..off + |h|] == h
    ensures var at := off + |h| + 8;
            var p := msg[..at] + y + msg[at + 2..];
            var n := |h| + 10 + |rd|;
            |p| == |msg| && p[off..off + n] == h + mid + y + rd
  {
    var b := h + mid + x + rd;
    var s := msg[off..off + |b|];
    var at := off + |h| + 8;
    assert msg[off..off + |h|] == s[..|h|];
    assert msg[off..at] == s[..|h| + 8] == h + mid;
    assert msg[at + 2..off + |b|] == s[|h| + 10..] == rd;
    var p := msg[..at] + y + msg[at + 2..];
    assert p[off..off + |b|] == msg[off..at] + y + msg[at + 2..off + |b|];
  }

  method PackRR(rr: RR, msg: array<byte>, off: nat, compression: CompressionMap?, compress: bool)
    returns (off1: nat, err: Error)
    modifies rr`rdlength, msg, compression
    ensures Kept(old(msg[..]), msg[..], off)
    ensures FitRec(rr.rec) && off + RecLen(rr.rec) <= msg.Length ==>
              var mp := old(MapOf(compression));
              var o := PackRec(rr.rec, off, mp, compress);
              && err == NoError && off1 == off + |o.bytes| <= msg.Length
              && msg[off..off1] == o.bytes && MapOf(compression) == o.mp
              && rr.rdlength == RdataLen(rr.rec, off, mp, compress)
    ensures off + RecChars(rr.rec) <= msg.Length ==>
              var f := RecFate(rr.rec, off, old(MapOf(compression)), compress);
              && (err == NoError ==> f == Packed(off1, MapOf(compression)) && off1 <= msg.Length)
              && (err != NoError ==> f == Stopped(err) || (err == ErrRdata && !Walkable(rr.rec)))
  {
    hide *;
    ghost var b0, good := msg[..], FitRec(rr.rec) && off + RecLen(rr.rec) <= msg.Length;
    ghost var mp, l0 := MapOf(compression), rr.rdlength;
    RecParts(rr.rec, off, compression, compress);
    off1, err := rr.Pack(msg, off, compression, compress);
    if err != NoError {
      return msg.Length, err;
    }
    ghost var b1, end := msg[..], off1;
    if off + RecChars(rr.rec) <= msg.Length && Walkable(rr.rec) { WalkFinds(b1, off, rr.rec, mp, compress, end); }
    if good {
      RdlengthField(b1, off, rr.rec, l0, mp, compress);
    }
    var ok := RawSetRdlength(msg, off, off1);
    RawKept(b1, msg[..], off, end, ok);
    KeptTrans(b0, b1, msg[..], off, off);
    if ok {
      if good {
        PackedRecord(b1, msg[..], off, rr.rec, l0, mp, compress);
      }
      return off1, NoError;
    }
    return off, ErrRdata;
  }

  /** However its owner is written, the length field of a record that fits its buffer is found again. */
  lemma WalkFinds(msg: str, off: nat, r: Rec, mp: Option<Offsets>, compress: bool, end: nat)
    requires OwnerAt(msg, off, r, mp, compress) && Walkable(r) && off + RecChars(r) <= |msg|
    requires RecFate(r, off, mp, compress).Packed? && RecFate(r, off, mp, compress).off1 == end <= |msg|
    ensures var s := SkipName(msg, off);
            s.Some? && s.value + 10 <= |msg| && end as int - (s.value + 10) <= 0xFFFF
  {
    hide *;
    WalkableIs(r);
    FateParts(r, off, mp, compress);
    RecWithin(r, off, mp, compress);
    SkipOwner(msg, off, r, mp, compress);
    SkipForward(msg, off);
    var f := NameFate(r.name, off, mp, compress);
    DataWithin(r.data, f.off1 + 10, f.mp, compress);
    if r.name != [] { FateOffset(r.name, off, mp, compress); }
  }

  lemma WalkableIs(r: Rec)
    ensures Walkable(r) <==> (r.name == [] ==> r.rrtype < 0x100) && RecChars(r) <= 0x1_0000
  {
  }

  lemma FateOffset(s: str, off: nat, mp: Option<Offsets>, compress: bool)
    requires s != [] && NameFate(s, off, mp, compress).Packed?
    ensures NameFate(s, off, mp, compress).off1 == off + |PackNamed(s, off, mp, compress).bytes|
  {
    hide PackNamed, Refused;
  }

  lemma SkipOwner(msg: str, off: nat, r: Rec, mp: Option<Offsets>, compress: bool)
    requires OwnerAt(msg, off, r, mp, compress) && (r.name == [] ==> r.rrtype < 0x100)
    ensures var s := SkipName(msg, off);
            s.Some? && s.value <= off + if r.name == [] then 1 else |PackNamed(r.name, off, mp, compress).bytes|
  {
    hide Parse, UsedKeys, PackKeyed, SkipName, PackNamed;
    var s := r.name;
    if s == [] {
      assert msg[off] == msg[off..off + 2][0] == 0 && msg[off..off + 1] == [0];
      SkipZero(msg, off);
    } else if s == ROOT {
      RootOctet(off, mp, compress);
      SkipZero(msg, off);
    } else {
      ParseInner([], s, true);
      PackNamedIs(s, off, mp, compress);
      ParsedHere(s);
      SkipHeads(msg, off, Parse(s).labels, UsedKeys(s, compress), mp, compress);
    }
  }

  lemma ParsedHere(s: str)
    ensures Parse(s) == ParseFrom([], s, true)
  {
  }

  lemma RootOctet(off: nat, mp: Option<Offsets>, compress: bool)
    ensures PackNamed(ROOT, off, mp, compress) == Out([0], mp)
  {
  }

  /** Only the first label that is read can be empty. */
  lemma {:induction false} ParseInner(cur: Label, s: str, first: bool)
    ensures var ls := ParseFrom(cur, s, first).labels;
            (!first ==> ValidLabels(ls)) && (ls != [] ==> ValidLabels(ls[1..]))
    decreases |s|
  {
    if s != [] && s != [BACKSLASH] {
      match FirstTok(s)
      case Lit(b) => ParseInner(cur + [b], s[TokLen(s)..], first);
      case Sep =>
        ParseInner([], s[1..], false);
        var more := ParseFrom([], s[1..], false).labels;
        assert ([cur] + more)[1..] == more;
    }
  }

  lemma SkipHeads(msg: str, off: nat, ls: seq<Label>, keys: seq<str>, mp: Option<Offsets>, compress: bool)
    requires ShortLabels(ls) && |keys| == |ls| && (ls != [] ==> ValidLabels(ls[1..]))
    requires var b := PackKeyed(ls, keys, off, mp, compress).bytes; off + |b| <= |msg| && msg[off..off + |b|] == b
    ensures var s := SkipName(msg, off); s.Some? && s.value <= off + |PackKeyed(ls, keys, off, mp, compress).bytes|
  {
    hide *;
    if ls == [] || ls[0] != [] {
      HeadsValid(ls);
      SkipKeyed(msg, off, ls, keys, mp, compress);
    } else if compress && Hit(mp, keys[0]) {
      KeyedHit(ls, keys, off, mp);
      SkipPointer(msg, off, mp.value[keys[0]]);
    } else {
      KeyedZero(ls, keys, off, mp, compress);
      var b := PackKeyed(ls, keys, off, mp, compress).bytes;
      assert msg[off..off + 1] == msg[off..off + |b|][..1];
      SkipZero(msg, off);
    }
  }

  lemma KeyedZero(ls: seq<Label>, keys: seq<str>, off: nat, mp: Option<Offsets>, compress: bool)
    requires ShortLabels(ls) && |keys| == |ls| && ls != [] && ls[0] == [] && !(compress && Hit(mp, keys[0]))
    ensures var b := PackKeyed(ls, keys, off, mp, compress).bytes; |b| >= 1 && b[..1] == [0]
  {
    hide *;
    HeadsShort(ls);
    KeyedMore(ls, keys, off, mp, compress);
  }

  lemma HeadsValid(ls: seq<Label>)
    requires ShortLabels(ls) && (ls != [] ==> ls[0] != [] && ValidLabels(ls[1..]))
    ensures ValidLabels(ls)
  {
    assert ls != [] ==> ls == [ls[0]] + ls[1..];
  }

  lemma HeadsShort(ls: seq<Label>)
    requires ShortLabels(ls) && ls != []
    ensures ShortLabels(ls[1..])
  {
  }

  lemma PackedRecord(before: str, now: str, off: nat, r: Rec, l0: uint16, mp: Option<Offsets>, compress: bool)
    requires FitRec(r) && |before| == |now|
    requires var o := PackRecWith(r, l0, off, mp, compress);
             off + |o.bytes| <= |before| && before[off..off + |o.bytes|] == o.bytes
    requires var s := SkipName(before, off);
             s.Some? && s.value + 10 <= |before| &&
             var at := s.value + 8;
             && now[..at] == before[..at] && now[at + 2..] == before[at + 2..]
             && now[at..at + 2] == U16(RdataLen(r, off, mp, compress))
    ensures var o := PackRec(r, off, mp, compress);
            off + |o.bytes| <= |now| && now[off..off + |o.bytes|] == o.bytes
            && |o.bytes| == |PackRecWith(r, l0, off, mp, compress).bytes|
  {
    hide *;
    RdlengthField(before, off, r, l0, mp, compress);
    PatchedBuffer(before, now, SkipName(before, off).value + 8, U16(RdataLen(r, off, mp, compress)));
    PackRecLen(r, l0, off, mp, compress);
  }

  lemma PatchedBuffer(before: str, now: str, at: nat, x: str)
    requires at + 2 <= |before| == |now| && |x| == 2
    requires now[..at] == before[..at] && now[at..at + 2] == x && now[at + 2..] == before[at + 2..]
    ensures now == before[..at] + x + before[at + 2..]
  {
    assert now == now[..at] + now[at..at + 2] + now[at + 2..];
  }

  lemma PackRecLen(r: Rec, l0: uint16, off: nat, mp: Option<Offsets>, compress: bool)
    requires FitRec(r)
    ensures |PackRecWith(r, l0, off, mp, compress).bytes| == |PackRec(r, off, mp, compress).bytes|
  {
    hide Parse, Labels, PackNamed, PackData, Final, Fixed, FitData, FitName, Middle, U16, FitRec;
  }

  lemma RawKept(before: str, now: str, off: nat, end: nat, ok: bool)
    requires !ok ==> now == before
    requires ok ==> SkipName(before, off).Some? && SkipName(before, off).value + 10 <= |now| == |before|
    requires ok ==> var at := SkipName(before, off).value + 8; now[..at] == before[..at]
    ensures Kept(before, now, off)
  {
    if ok {
      SkipForward(before, off);
      var at := SkipName(before, off).value + 8;
      assert now[..off] == now[..at][..off] && before[..off] == before[..at][..off];
    }
  }

  lemma SkipForward(msg: str, off: nat)
    requires SkipName(msg, off).Some?
    ensures off < SkipName(msg, off).value
    decreases |msg| - off
  {
  }
}
