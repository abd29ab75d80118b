/** parseIPs and reverse (gyip.go): the right-to-left scanner that finds addresses in a name. */
module Scanner {
  import opened Bytes
  import opened Hex
  import opened Names


  // ---------- Addresses ----------

  /** strings.Split on one character. */
  function Fields(s: str, c: byte): (fs: seq<str>)
    ensures fs != []
  {
    if s == [] then [[]]
    else
      var rest := Fields(s[1..], c);
      if s[0] == c then [[]] + rest else [[s[0]] + rest[0]] + rest[1..]
  }

  function Decimal(f: str): nat
    requires forall c | c in f :: IsDigit(c)
  {
    if f == [] then 0
    else
      assert f[|f| - 1] in f && IsDigit(f[|f| - 1]);
      Decimal(f[..|f| - 1]) * 10 + (f[|f| - 1] as int - 48)
  }

  /** A decimal octet without leading zeros. */
  predicate IsOctet(f: str) {
    && 1 <= |f| <= 3 && (forall c | c in f :: IsDigit(c))
    && (|f| > 1 ==> f[0] != 48)
    && Decimal(f) <= 255
  }

  /** One to four hexadecimal digits. */
  predicate IsGroup(g: str) {
    1 <= |g| <= 4 && forall c | c in g :: IsHex(c)
  }

  function GroupValue(g: str): (v: nat)
    requires |g| <= 4 && forall c | c in g :: IsHex(c)
    ensures v < if |g| == 0 then 1 else if |g| == 1 then 0x10 else if |g| == 2 then 0x100
                else if |g| == 3 then 0x1000 else 0x1_0000
  {
    if g == [] then 0
    else
      assert g[|g| - 1] in g;
      GroupValue(g[..|g| - 1]) * 16 + HexValue(g[|g| - 1])
  }

  function GroupBytes(gs: seq<str>): (b: str)
    requires forall g | g in gs :: IsGroup(g)
    ensures |b| == 2 * |gs|
  {
    if gs == [] then []
    else
      assert gs[0] in gs && IsGroup(gs[0]);
      U16(GroupValue(gs[0])) + GroupBytes(gs[1..])
  }

  const V4_PREFIX: str := [0, 0, 0, 0, 0, 0, 0, 0, 0, 0, 255, 255]

  /** Four octets, in the 16-octet form that net.ParseIP returns. */
  function Quad(f: seq<str>): (ip: Option<str>)
    requires |f| == 4
    ensures ip.Some? ==> |ip.value| == 16
  {
    if IsOctet(f[0]) && IsOctet(f[1]) && IsOctet(f[2]) && IsOctet(f[3])
    then Some(V4_PREFIX + [Decimal(f[0]), Decimal(f[1]), Decimal(f[2]), Decimal(f[3])]) else None
  }

  /** Eight hexadecimal groups. */
  function Groups(s: str): (ip: Option<str>)
    ensures ip.Some? ==> |ip.value| == 16
  {
    var g := Fields(s, COLON);
    if |g| == 8 && forall x | x in g :: IsGroup(x) then Some(GroupBytes(g)) else None
  }

  /** net.ParseIP, on dotted quads and eight-group addresses. */
  function ParseIP(s: str): (ip: Option<str>)
    ensures ip.Some? ==> |ip.value| == 16
  {
    var f := Fields(s, DOT);
    if |f| == 4 then Quad(f) else Groups(s)
  }

  // ---------- Specification of the scanner ----------

  /** strings.LastIndex for one character, -1 when there is none. */
  function LastIndexByte(s: str, c: byte): (i: int)
    ensures -1 <= i < |s|
  {
    if s == [] then -1 else if s[|s| - 1] == c then |s| - 1 else LastIndexByte(s[..|s| - 1], c)
  }

  /** The addresses found, or a slice index below zero, or a state the loop can never leave. */
  datatype Scanned = Done(ips: seq<str>) | SlicePanic | Diverges {
    function Then(ip: str): Scanned {
      match this
      case Done(ips) => Done(ips + [ip])
      case _ => this
    }
  }

  /** What the loop finds from leftIndex on, when t is the string up to rightIndex. */
  function Scan(t: str, left: int): Scanned
    requires left < |t|
    decreases |t|, left
  {
    if left < 0 then Done([])
    else
      match ParseIP(t[left..])
      case Some(ip) => if left == 0 then Done([ip]) else Scan(t[..left - 1], left - 2).Then(ip)
      case None =>
        var dot := LastIndexByte(t[..|t| - 1], DOT);
        if dot < 0 && left == 0 then SlicePanic
        else if dot < 0 && LastIndexByte(t[..left - 1], COLON) < 0 then Done([])
        else if left > 0 then Scan(t, LastIndexByte(t[..left - 1], DOT) + 1)
        else if |t| > 2 then Scan(t[..dot], dot - 1)
        else Diverges
  }

  // ---------- The scanner ----------

  function Reversed<T>(s: seq<T>): (r: seq<T>)
    ensures |r| == |s|
  {
    if s == [] then [] else Reversed(s[1..]) + [s[0]]
  }

  lemma {:induction false} ReversedAt<T>(s: seq<T>, k: nat)
    requires k < |s|
    ensures Reversed(s)[k] == s[|s| - 1 - k]
  {
    if k < |s| - 1 {
      ReversedAt(s[1..], k);
    }
  }

  method Reverse(ips: array<str>)
    modifies ips
    ensures ips[..] == Reversed(old(ips[..]))
  {
    var i, j := 0, ips.Length - 1;
    ghost var was := ips[..];
    while i < j
      invariant 0 <= i && i + j == ips.Length - 1
      invariant i <= j + 1
      invariant forall k | 0 <= k < i || j < k < ips.Length :: ips[k] == was[ips.Length - 1 - k]
      invariant forall k | i <= k <= j :: ips[k] == was[k]
    {
      ips[i], ips[j] := ips[j], ips[i];
      i, j := i + 1, j - 1;
    }
    forall k | 0 <= k < ips.Length
      ensures ips[..][k] == Reversed(was)[k]
    {
      ReversedAt(was, k);
    }
  }

  method ParseIPs(addressString: str) returns (out: Scanned)
    ensures out == Scan(addressString, |addressString| - 1)
  {
    hide *;
    var responses: seq<str> := [];
    var left, right: int := |addressString| - 1, |addressString|;
    ghost var goal := Scan(addressString, left);
    assert addressString[..right] == addressString;
    AndThenStart(goal);
    if left < 0 { ScanOver(addressString, left); }
    while left >= 0
      invariant left < |addressString| && (left >= 0 ==> left < right <= |addressString|)
      invariant goal == AndThen(if left < 0 then Done([]) else Scan(addressString[..right], left), Reversed(responses))
      decreases right, left
    {
      ghost var t := addressString[..right];
      assert addressString[left..right] == t[left..];
      ScanStep(t, left);
      var ip := ParseIP(addressString[left..right]);
      if ip.Some? {
        AndThenStep(if left == 0 then Done([]) else Scan(t[..left - 1], left - 2), responses, ip.value);
        if left > 0 { assert t[..left - 1] == addressString[..left - 1]; ScanOver(t[..left - 1], left - 2); }
        responses := responses + [ip.value];
        right := left - 1;
        left := right - 1;
      } else {
        assert addressString[..right - 1] == t[..|t| - 1];
        if left > 0 { assert addressString[..left - 1] == t[..left - 1]; }
        var dot := LastIndexByte(addressString[..right - 1], DOT);
        if dot < 0 && left == 0 {
          AndThenOther(SlicePanic, Reversed(responses));
          return SlicePanic;
        }
        if dot < 0 && LastIndexByte(addressString[..left - 1], COLON) < 0 {
          break;
        }
        if left <= 0 {
          if right > 2 {
            assert t[..dot] == addressString[..dot];
            ScanOver(t[..dot], dot - 1);
            right := dot;
            left := right - 1;
          } else {
            AndThenOther(Diverges, Reversed(responses));
            return Diverges;
          }
        } else {
          left := LastIndexByte(addressString[..left - 1], DOT);
          if left < 0 {
            left := 0;
          } else {
            left := left + 1;
          }
        }
      }
    }
    var ips := new str[|responses|](i requires 0 <= i < |responses| => responses[i]);
    assert ips[..] == responses;
    if |responses| > 0 {
      Reverse(ips);
    }
    AndThenEnd(responses);
    return Done(ips[..]);
  }

  // One step of the loop, by cases.

  lemma ScanOver(t: str, left: int)
    requires left < |t|
    ensures left < 0 ==> Scan(t, left) == Done([])
  {
  }

  lemma ScanStep(t: str, left: nat)
    requires left < |t|
    ensures var ip := ParseIP(t[left..]);
            var dot := LastIndexByte(t[..|t| - 1], DOT);
            && (ip.Some? && left == 0 ==> Scan(t, left) == Done([]).Then(ip.value))
            && (ip.Some? && left > 0 ==> Scan(t, left) == Scan(t[..left - 1], left - 2).Then(ip.value))
            && (ip.None? && dot < 0 && left == 0 ==> Scan(t, left) == SlicePanic)
            && (ip.None? && dot < 0 && left > 0 && LastIndexByte(t[..left - 1], COLON) < 0 ==>
                 Scan(t, left) == Done([]))
            && (ip.None? && left > 0 && (dot >= 0 || LastIndexByte(t[..left - 1], COLON) >= 0) ==>
                  Scan(t, left) == Scan(t, LastIndexByte(t[..left - 1], DOT) + 1))
            && (ip.None? && left == 0 && dot >= 0 ==>
                  Scan(t, left) == if |t| > 2 then Scan(t[..dot], dot - 1) else Diverges)
  {
    hide ParseIP, LastIndexByte;
  }

  /** What is found further left, followed by what was found already. */
  ghost function AndThen(rest: Scanned, found: seq<str>): Scanned {
    match rest
    case Done(ips) => Done(ips + found)
    case _ => rest
  }

  lemma AndThenStart(rest: Scanned)
    ensures AndThen(rest, Reversed([])) == rest
  {
    if rest.Done? {
      assert rest.ips + [] == rest.ips;
    }
  }

  lemma AndThenEnd(responses: seq<str>)
    ensures AndThen(Done([]), Reversed(responses)) == Done(Reversed(responses))
    ensures responses == [] ==> Reversed(responses) == responses
  {
  }

  lemma AndThenOther(rest: Scanned, found: seq<str>)
    requires !rest.Done?
    ensures AndThen(rest, found) == rest
  {
  }

  lemma AndThenStep(rest: Scanned, responses: seq<str>, ip: str)
    ensures AndThen(rest.Then(ip), Reversed(responses)) == AndThen(rest, Reversed(responses + [ip]))
  {
    ReversedSnoc(responses, ip);
    if rest.Done? {
      assert rest.ips + [ip] + Reversed(responses) == rest.ips + ([ip] + Reversed(responses));
    }
  }

  lemma ReversedSnoc<T>(s: seq<T>, x: T)
    ensures Reversed(s + [x]) == [x] + Reversed(s)
  {
    if s != [] {
      assert (s + [x])[1..] == s[1..] + [x];
      ReversedSnoc(s[1..], x);
    }
  }
}
