/** Addresses written out as the questions of gyip write them. */
module AddressText {
  import opened Bytes
  import opened Hex
  import opened Names
  import opened LabelOps
  import opened Scanner
  import opened ScannerGreedy

  function OctetText(b: byte): str {
    if b < 10 then [48 + b]
    else if b < 100 then [48 + b / 10, 48 + b % 10]
    else [48 + b / 100, 48 + b / 10 % 10, 48 + b % 10]
  }

  function QuadText(q: str): str
    requires |q| == 4
  {
    JoinDots([OctetText(q[0]), OctetText(q[1]), OctetText(q[2]), OctetText(q[3])])
  }

  function GroupText(n: uint16): str {
    [HexDigit(n / 4096), HexDigit(n / 256 % 16), HexDigit(n / 16 % 16), HexDigit(n % 16)]
  }

  function GroupTexts(ip: str): (gs: seq<str>)
    requires |ip| % 2 == 0
    ensures 2 * |gs| == |ip|
  {
    if ip == [] then [] else [GroupText(GetU16(ip, 0))] + GroupTexts(ip[2..])
  }

  function JoinColons(gs: seq<str>): str {
    if gs == [] then [] else if |gs| == 1 then gs[0] else gs[0] + [COLON] + JoinColons(gs[1..])
  }

  /** An IPv4-mapped address as a dotted quad, any other as eight groups of four digits. */
  function Text(ip: str): str
    requires |ip| == 16
  {
    if ip[..12] == V4_PREFIX then QuadText(ip[12..]) else JoinColons(GroupTexts(ip))
  }

  // ---------- Reading the text back ----------

  lemma OctetReads(b: byte)
    ensures IsOctet(OctetText(b)) && Decimal(OctetText(b)) == b
  {
    hide *;
    OctetTextIs(b);
    OctetNumberIs(OctetText(b));
  }

  lemma Decimal1(x: byte)
    requires IsDigit(x)
    ensures Decimal([x]) == x - 48
  {
    assert [x][..0] == [];
  }

  lemma Decimal2(x: byte, y: byte)
    requires IsDigit(x) && IsDigit(y)
    ensures Decimal([x, y]) == (x - 48) * 10 + (y - 48)
  {
    assert [x, y][..1] == [x];
    Decimal1(x);
  }

  lemma Decimal3(x: byte, y: byte, z: byte)
    requires IsDigit(x) && IsDigit(y) && IsDigit(z)
    ensures Decimal([x, y, z]) == (x - 48) * 100 + (y - 48) * 10 + (z - 48)
  {
    assert [x, y, z][..2] == [x, y];
    Decimal2(x, y);
  }

  lemma QuadReads(q: str)
    requires |q| == 4
    ensures ParseIP(QuadText(q)) == Some(V4_PREFIX + q)
  {
    hide IsOctet, Decimal, OctetText, JoinDots;
    var f := [OctetText(q[0]), OctetText(q[1]), OctetText(q[2]), OctetText(q[3])];
    OctetReads(q[0]);
    OctetReads(q[1]);
    OctetReads(q[2]);
    OctetReads(q[3]);
    forall l | l in f
      ensures l != [] && DOT !in l
    {
      OctetDotless(l);
    }
    FieldsJoin(f);
    assert q == [q[0], q[1], q[2], q[3]];
  }

  lemma OctetDotless(l: str)
    requires IsOctet(l)
    ensures l != [] && DOT !in l
  {
    hide Decimal;
  }

  lemma GroupReads(n: uint16)
    ensures IsGroup(GroupText(n)) && GroupValue(GroupText(n)) == n && COLON !in GroupText(n)
  {
    hide HexDigit, HexValue, IsHex;
    var (a, b, c, d) := (n / 4096, n / 256 % 16, n / 16 % 16, n % 16);
    HexReads(a);
    HexReads(b);
    HexReads(c);
    HexReads(d);
    GroupDigits(HexDigit(a), HexDigit(b), HexDigit(c), HexDigit(d));
    FourDigits(n);
  }

  lemma FourDigits(n: uint16)
    ensures n / 4096 * 4096 + n / 256 % 16 * 256 + n / 16 % 16 * 16 + n % 16 == n
  {
    assert n / 256 == n / 4096 * 16 + n / 256 % 16;
    assert n / 16 == n / 256 * 16 + n / 16 % 16;
  }

  lemma GroupDigits(a: byte, b: byte, c: byte, d: byte)
    requires IsHex(a) && IsHex(b) && IsHex(c) && IsHex(d)
    ensures IsGroup([a, b, c, d])
    ensures GroupValue([a, b, c, d]) == HexValue(a) * 4096 + HexValue(b) * 256 + HexValue(c) * 16 + HexValue(d)
  {
    hide HexValue, IsHex;
    assert [a, b, c, d][..3] == [a, b, c] && [a, b, c][..2] == [a, b] && [a, b][..1] == [a] && [a][..0] == [];
    assert GroupValue([a]) == HexValue(a);
    assert GroupValue([a, b]) == GroupValue([a]) * 16 + HexValue(b);
    assert GroupValue([a, b, c]) == GroupValue([a, b]) * 16 + HexValue(c);
  }

  lemma {:induction false} GroupsRead(ip: str)
    requires |ip| % 2 == 0
    ensures ip != [] ==> Fields(JoinColons(GroupTexts(ip)), COLON) == GroupTexts(ip)
    ensures forall g | g in GroupTexts(ip) :: IsGroup(g)
    ensures GroupBytes(GroupTexts(ip)) == ip
    decreases |ip|
  {
    hide GroupText, IsGroup;
    if ip != [] {
      var n, more := GetU16(ip, 0), ip[2..];
      GroupReads(n);
      GroupsRead(more);
      var gs := GroupTexts(ip);
      assert gs[0] == GroupText(n) && gs[1..] == GroupTexts(more);
      FieldsCons(GroupText(n), COLON, JoinColons(gs[1..]));
      assert U16(n) == ip[..2];
      assert ip == ip[..2] + more;
    }
  }

  /** Every address is read back from its text. */
  lemma TextReads(ip: str)
    requires |ip| == 16
    ensures ParseIP(Text(ip)) == Some(ip)
  {
    hide Quad, GroupBytes, GroupTexts, IsGroup, JoinColons, QuadText;
    if ip[..12] == V4_PREFIX {
      QuadReads(ip[12..]);
      assert ip == ip[..12] + ip[12..];
    } else {
      GroupsRead(ip);
      var s := JoinColons(GroupTexts(ip));
      if |Fields(s, DOT)| == 4 {
        NoDots(s);
      }
    }
  }

  lemma NoDots(s: str)
    requires Groups(s).Some?
    ensures |Fields(s, DOT)| == 1
  {
    if DOT in s {
      DottedNone(s);
    }
    FieldsCons(s, DOT, []);
  }

  function Texts(ips: seq<str>): seq<str>
    requires forall ip | ip in ips :: |ip| == 16
  {
    if ips == [] then [] else Texts(ips[..|ips| - 1]) + [Text(ips[|ips| - 1])]
  }

  lemma {:induction false} TextsRead(ips: seq<str>)
    requires forall ip | ip in ips :: |ip| == 16
    ensures AllAddresses(Texts(ips)) && Values(Texts(ips)) == ips && |Texts(ips)| == |ips|
    decreases |ips|
  {
    hide ParseIP, Text, Values, Value, AllAddresses;
    if ips == [] {
      NoTexts();
    } else {
      var n := |ips| - 1;
      var ip := ips[n];
      assert ip in ips && forall x | x in ips[..n] :: x in ips;
      TextReads(ip);
      TextsRead(ips[..n]);
      ValuesSnoc(Texts(ips[..n]), Text(ip));
      assert Value(Text(ip)) == ip by { ValueIs(Text(ip)); }
    }
  }

  lemma NoTexts()
    ensures AllAddresses([]) && Values([]) == []
  {
  }

  lemma ValueIs(x: str)
    requires ParseIP(x).Some?
    ensures IsAddress(x) && Value(x) == ParseIP(x).value
  {
  }

  lemma ValuesSnoc(xs: seq<str>, x: str)
    requires AllAddresses(xs) && ParseIP(x).Some?
    ensures IsAddress(x) && AllAddresses(xs + [x]) && Values(xs + [x]) == Values(xs) + [Value(x)]
  {
    hide ParseIP;
    assert (xs + [x])[..|xs|] == xs;
  }

  /** parseIPs undoes writing a list of addresses out with dots between them. */
  lemma ParseTexts(ips: seq<str>)
    requires forall ip | ip in ips :: |ip| == 16
    ensures var s := JoinDots(Texts(ips)); Scan(s, |s| - 1) == Done(ips)
  {
    hide Scan, Texts, JoinDots;
    TextsRead(ips);
    ParseJoined(Texts(ips));
  }

  // ---------- Addresses in any spelling ----------

  /** One digit of a hexadecimal number, in either case. */
  predicate HexChar(c: byte) { 48 <= c <= 57 || 65 <= c <= 70 || 97 <= c <= 102 }

  function DigitWorth(c: byte): nat
    requires HexChar(c)
  {
    if c <= 57 then c - 48 else if c <= 70 then c - 65 + 10 else c - 97 + 10
  }

  /** One to four digits. */
  predicate HexNumber(g: str) {
    && 1 <= |g| <= 4 && HexChar(g[0])
    && (|g| > 1 ==> HexChar(g[1])) && (|g| > 2 ==> HexChar(g[2])) && (|g| > 3 ==> HexChar(g[3]))
  }

  function HexWorth(g: str): nat
    requires HexNumber(g)
  {
    if |g| == 1 then DigitWorth(g[0])
    else if |g| == 2 then 16 * DigitWorth(g[0]) + DigitWorth(g[1])
    else if |g| == 3 then 256 * DigitWorth(g[0]) + 16 * DigitWorth(g[1]) + DigitWorth(g[2])
    else 4096 * DigitWorth(g[0]) + 256 * DigitWorth(g[1]) + 16 * DigitWorth(g[2]) + DigitWorth(g[3])
  }

  lemma HexNumberIs(g: str)
    ensures IsGroup(g) <==> HexNumber(g)
    ensures HexNumber(g) ==> GroupValue(g) as int == HexWorth(g) && COLON !in g
  {
    if IsGroup(g) {
      assert forall k | 0 <= k < |g| :: g[k] in g;
    }
    if HexNumber(g) {
      assert forall c | c in g :: IsHex(c) && c != COLON;
      HexNumberValue(g);
    }
  }

  lemma HexNumberValue(g: str)
    requires HexNumber(g) && IsGroup(g)
    ensures GroupValue(g) as int == HexWorth(g)
  {
    assert g[..0] == [] && GroupValue([]) == 0;
    assert GroupValue(g[..1]) == DigitWorth(g[0]) by { assert g[..1][..0] == [] && g[..1][0] in g; }
    if |g| > 1 { assert g[..2][..1] == g[..1] && g[..2][1] == g[1]; }
    if |g| > 2 { assert g[..3][..2] == g[..2] && g[..3][2] == g[2]; }
    if |g| > 3 { assert g[..4][..3] == g[..3] && g[..4][3] == g[3]; }
    assert g[..|g|] == g;
  }

  lemma {:induction false} ColonFields(gs: seq<str>)
    requires gs != [] && forall g | g in gs :: COLON !in g
    ensures Fields(JoinColons(gs), COLON) == gs
    decreases |gs|
  {
    assert gs[0] in gs;
    FieldsCons(gs[0], COLON, JoinColons(gs[1..]));
    if |gs| > 1 {
      assert forall g | g in gs[1..] :: g in gs;
      ColonFields(gs[1..]);
      assert [gs[0]] + gs[1..] == gs;
    } else {
      assert [gs[0]] == gs;
    }
  }

  lemma {:induction false} GroupBytesAt(gs: seq<str>, k: nat)
    requires (forall g | g in gs :: IsGroup(g)) && k < |gs| && IsGroup(gs[k])
    ensures GroupBytes(gs)[2 * k] as int * 256 + GroupBytes(gs)[2 * k + 1] as int == GroupValue(gs[k])
    decreases k
  {
    hide GroupValue;
    assert gs[0] in gs && gs[k] in gs;
    assert forall g | g in gs[1..] :: g in gs;
    if k > 0 {
      GroupBytesAt(gs[1..], k - 1);
    }
  }

  /** Eight groups of one to four hexadecimal digits are the address with these numbers. */
  lemma GroupsParse(gs: seq<str>)
    requires |gs| == 8 && forall g | g in gs :: HexNumber(g)
    ensures var p := ParseIP(JoinColons(gs));
            && p.Some?
            && forall k | 0 <= k < 8 ::
                 HexNumber(gs[k])
                 && p.value[2 * k] as int * 256 + p.value[2 * k + 1] as int == HexWorth(gs[k])
  {
    hide HexNumber, GroupValue, GroupBytes, HexWorth, JoinColons, Fields;
    forall g | g in gs
      ensures IsGroup(g) && COLON !in g && GroupValue(g) as int == HexWorth(g)
    {
      HexNumberIs(g);
    }
    ColonFields(gs);
    var s := JoinColons(gs);
    NoDots(s);
    forall k | 0 <= k < 8
      ensures HexNumber(gs[k])
      ensures GroupBytes(gs)[2 * k] as int * 256 + GroupBytes(gs)[2 * k + 1] as int == HexWorth(gs[k])
    {
      assert gs[k] in gs;
      GroupBytesAt(gs, k);
    }
  }

  /** A decimal number of one to three digits, without a leading zero and at most 255. */
  predicate OctetNumber(t: str) {
    && 1 <= |t| <= 3 && 48 <= t[0] <= 57 && (|t| > 1 ==> t[0] != 48 && 48 <= t[1] <= 57)
    && (|t| > 2 ==> 48 <= t[2] <= 57) && DecimalWorth(t) <= 255
  }

  function DecimalWorth(t: str): int
    requires 1 <= |t| <= 3
  {
    if |t| == 1 then t[0] as int - 48
    else if |t| == 2 then 10 * (t[0] as int - 48) + (t[1] as int - 48)
    else 100 * (t[0] as int - 48) + 10 * (t[1] as int - 48) + (t[2] as int - 48)
  }

  lemma OctetNumberIs(t: str)
    ensures IsOctet(t) <==> OctetNumber(t)
    ensures OctetNumber(t) ==> Decimal(t) == DecimalWorth(t) && DOT !in t
  {
    if 1 <= |t| <= 3 {
      if forall c | c in t :: IsDigit(c) {
        assert forall k | 0 <= k < |t| :: t[k] in t;
        assert t == if |t| == 1 then [t[0]] else if |t| == 2 then [t[0], t[1]] else [t[0], t[1], t[2]];
        if |t| == 1 { Decimal1(t[0]); } else if |t| == 2 { Decimal2(t[0], t[1]); } else { Decimal3(t[0], t[1], t[2]); }
      }
    }
  }

  /** Four such numbers between dots are the IPv4-mapped address with these octets, in this order. */
  lemma QuadParses(a: str, b: str, c: str, d: str)
    requires OctetNumber(a) && OctetNumber(b) && OctetNumber(c) && OctetNumber(d)
    ensures ParseIP(a + [46] + b + [46] + c + [46] + d)
            == Some([0, 0, 0, 0, 0, 0, 0, 0, 0, 0, 255, 255,
                     DecimalWorth(a), DecimalWorth(b), DecimalWorth(c), DecimalWorth(d)])
  {
    hide IsOctet, Decimal, DecimalWorth, Fields;
    OctetNumberIs(a);
    OctetNumberIs(b);
    OctetNumberIs(c);
    OctetNumberIs(d);
    FieldsCons(a, 46, b + [46] + c + [46] + d);
    FieldsCons(b, 46, c + [46] + d);
    FieldsCons(c, 46, d);
    FieldsCons(d, 46, []);
    assert a + [46] + b + [46] + c + [46] + d == a + [46] + (b + [46] + c + [46] + d);
    assert b + [46] + c + [46] + d == b + [46] + (c + [46] + d);
    assert Fields(a + [46] + b + [46] + c + [46] + d, DOT) == [a, b, c, d];
    var (w, x, y, z) := (DecimalWorth(a), DecimalWorth(b), DecimalWorth(c), DecimalWorth(d));
    assert V4_PREFIX + [w, x, y, z] == [0, 0, 0, 0, 0, 0, 0, 0, 0, 0, 255, 255, w, x, y, z];
  }

  /** The text of an octet is its number without leading zeros. */
  lemma OctetTextIs(b: byte)
    ensures OctetNumber(OctetText(b)) && DecimalWorth(OctetText(b)) == b
  {
  }
}
