/** Recovering a MAC address from the text of a link-local IPv6 address (services/matter_discovery.py). The
    text is the canonical one of section 4 of RFC 5952 and the interface identifier the modified EUI-64 of
    appendix A of RFC 4291; both are written out here as reference definitions. */
module Eui64 {
  import opened Prelude

  // ----- Text -----

  function Digit(n: nat): char
    requires n < 16
  {
    if n < 10 then ('0' as int + n) as char else ('a' as int + n - 10) as char
  }

  function DigitValue(c: char): Option<nat> {
    if '0' <= c <= '9' then Some(c as int - '0' as int)
    else if 'a' <= c <= 'f' then Some(c as int - 'a' as int + 10)
    else if 'A' <= c <= 'F' then Some(c as int - 'A' as int + 10)
    else None
  }

  /** The text before the first double colon. */
  function BeforeDoubleColon(s: string): string {
    if |s| < 2 then s
    else if s[0] == ':' && s[1] == ':' then ""
    else [s[0]] + BeforeDoubleColon(s[1..])
  }

  /** The pieces between single colons; one more than there are colons. */
  function Split(s: string): (parts: seq<string>)
    ensures |parts| > 0
  {
    if s == "" then [""]
    else if s[0] == ':' then [""] + Split(s[1..])
    else [[s[0]] + Split(s[1..])[0]] + Split(s[1..])[1..]
  }

  function Join(parts: seq<string>): string {
    if |parts| == 0 then "" else if |parts| == 1 then parts[0] else parts[0] + ":" + Join(parts[1..])
  }

  /** Zeros in front up to the width; longer text stays as it is. */
  function ZFill(s: string, width: nat): string
    decreases width - |s|
  {
    if |s| >= width then s else ZFill("0" + s, width)
  }

  /** Two digits a byte, from the front; an odd digit at the end is a byte of its own. */
  function Bytes(s: string): Option<seq<nat>> {
    if s == "" then Some([])
    else if DigitValue(s[0]).None? then None
    else if |s| == 1 then Some([DigitValue(s[0]).value])
    else if DigitValue(s[1]).None? || Bytes(s[2..]).None? then None
    else Some([16 * DigitValue(s[0]).value + DigitValue(s[1]).value] + Bytes(s[2..]).value)
  }

  /** Bitwise exclusive or. */
  function Xor(a: nat, b: nat): nat {
    if a == 0 && b == 0 then 0 else 2 * Xor(a / 2, b / 2) + (a + b) % 2
  }

  function TwoDigits(b: nat): string {
    [Digit(b / 16 % 16), Digit(b % 16)]
  }

  function FormatMac(mac: seq<nat>): string {
    if |mac| == 0 then "" else if |mac| == 1 then TwoDigits(mac[0]) else TwoDigits(mac[0]) + ":" + FormatMac(mac[1..])
  }

  const LINK_LOCAL: string := ['f', 'e', '8', '0', ':', ':']

  // ----- The parser -----

  function Padded(parts: seq<string>): string {
    if parts == [] then "" else ZFill(parts[0], 4) + Padded(parts[1..])
  }

  lemma {:induction false} ZFillLength(s: string, width: nat)
    ensures |ZFill(s, width)| == if |s| < width then width else |s|
    decreases width - |s|
  {
    if |s| < width {
      ZFillLength("0" + s, width);
    }
  }

  lemma {:induction false} BytesLength(s: string)
    requires Bytes(s).Some?
    ensures |Bytes(s).value| == (|s| + 1) / 2
    decreases |s|
  {
    if |s| >= 2 {
      BytesLength(s[2..]);
    }
  }

  lemma {:induction false} PaddedLength(parts: seq<string>)
    ensures |Padded(parts)| >= 4 * |parts|
  {
    if parts != [] {
      ZFillLength(parts[0], 4);
      PaddedLength(parts[1..]);
    }
  }

  /** The MAC behind the padded interface identifier, when the identifier carries the EUI-64 marker. */
  function MacOfEui(eui: string): Option<string>
    requires |eui| >= 16
  {
    var b := Bytes(eui);
    if b.None? then None
    else
      BytesLength(eui);
      if b.value[3] != 0xff || b.value[4] != 0xfe then None
      else Some(FormatMac([Xor(b.value[0], 0x02)] + b.value[1..3] + b.value[5..]))
  }

  function MacFromIpv6(s: string): Option<string> {
    if !(LINK_LOCAL <= s) then None
    else
      var parts := Split(BeforeDoubleColon(s[6..]));
      if |parts| != 4 then None
      else
        PaddedLength(parts);
        MacOfEui(Padded(parts))
  }

  // ----- Canonical text of an address (RFC 5952, section 4) -----

  type Group = g: nat | g < 0x1_0000

  function FourDigits(g: Group): string {
    [Digit(g / 4096), Digit(g / 256 % 16), Digit(g / 16 % 16), Digit(g % 16)]
  }

  function WithoutLeadingZeros(s: string): string {
    if |s| > 1 && s[0] == '0' then WithoutLeadingZeros(s[1..]) else s
  }

  /** A 16-bit field in lower case without leading zeros. */
  function Field(g: Group): string {
    WithoutLeadingZeros(FourDigits(g))
  }

  function Fields(gs: seq<Group>): seq<string> {
    if gs == [] then [] else [Field(gs[0])] + Fields(gs[1..])
  }

  /** The length of the run of zero fields that starts at i. */
  function ZeroRun(gs: seq<Group>, i: nat): (n: nat)
    requires i <= |gs|
    ensures i + n <= |gs|
    decreases |gs| - i
  {
    if i < |gs| && gs[i] == 0 then 1 + ZeroRun(gs, i + 1) else 0
  }

  /** The start of the longest of the runs that start before n, the first of them among equals. */
  function LongestRun(gs: seq<Group>, n: nat): (i: nat)
    requires n <= |gs|
    ensures i <= n
  {
    if n == 0 then 0
    else if ZeroRun(gs, n - 1) > ZeroRun(gs, LongestRun(gs, n - 1)) then n - 1
    else LongestRun(gs, n - 1)
  }

  /** The longest run of two or more zero fields is written as a double colon. */
  function Canonical(gs: seq<Group>): string {
    var i := LongestRun(gs, |gs|);
    var n := ZeroRun(gs, i);
    if n < 2 then Join(Fields(gs)) else Join(Fields(gs[..i])) + "::" + Join(Fields(gs[i + n..]))
  }

  // ----- Modified EUI-64 (RFC 4291, appendix A) -----

  ghost predicate IsMac(mac: seq<nat>) {
    |mac| == 6 && forall i :: 0 <= i < 6 ==> mac[i] < 256
  }

  /** The universal/local bit, the second lowest of the first byte, inverted. */
  function FlipLocalBit(b: nat): nat {
    if b / 2 % 2 == 1 then b - 2 else b + 2
  }

  lemma {:induction false} XorZero(a: nat)
    ensures Xor(a, 0) == a
  {
    if a > 0 {
      XorZero(a / 2);
    }
  }

  /** Exclusive or with 2 inverts that bit and no other. */
  lemma XorTwoFlips(b: nat)
    ensures Xor(b, 0x02) == FlipLocalBit(b)
  {
    XorZero(b / 2 / 2);
    assert Xor(b / 2, 1) == 2 * Xor(b / 2 / 2, 0) + (b / 2 + 1) % 2;
    assert Xor(b, 2) == 2 * Xor(b / 2, 1) + (b + 2) % 2;
  }

  function InterfaceId(mac: seq<nat>): seq<nat>
    requires |mac| == 6
  {
    [FlipLocalBit(mac[0]), mac[1], mac[2], 0xff, 0xfe, mac[3], mac[4], mac[5]]
  }

  function GroupsOf(id: seq<nat>): seq<Group>
    requires |id| == 8 && forall i :: 0 <= i < 8 ==> id[i] < 256
  {
    [256 * id[0] + id[1], 256 * id[2] + id[3], 256 * id[4] + id[5], 256 * id[6] + id[7]]
  }

  lemma FlipIsInvolution(b: nat)
    requires b < 256
    ensures FlipLocalBit(b) < 256 && FlipLocalBit(FlipLocalBit(b)) == b
  {
  }

  /** The four interface fields of a link-local address. */
  function Identifier(mac: seq<nat>): seq<Group>
    requires IsMac(mac)
  {
    FlipIsInvolution(mac[0]);
    GroupsOf(InterfaceId(mac))
  }

  function LinkLocalOf(mac: seq<nat>): seq<Group>
    requires IsMac(mac)
  {
    [0xfe80, 0, 0, 0] + Identifier(mac)
  }

  // ----- Cutting and joining -----

  /** A piece of an address: not empty and without colons. */
  ghost predicate Piece(s: string) {
    s != "" && forall i :: 0 <= i < |s| ==> s[i] != ':'
  }

  ghost predicate Pieces(parts: seq<string>) {
    |parts| > 0 && forall i :: 0 <= i < |parts| ==> Piece(parts[i])
  }

  lemma {:induction false} SplitPiece(p: string, rest: string)
    requires forall i :: 0 <= i < |p| ==> p[i] != ':'
    ensures Split(p) == [p] && Split(p + ":" + rest) == [p] + Split(rest)
  {
    if p == "" {
      assert p + ":" + rest == ":" + rest && (":" + rest)[1..] == rest;
    } else {
      SplitPiece(p[1..], rest);
      assert (p + ":" + rest)[1..] == p[1..] + ":" + rest;
      assert [p[0]] + p[1..] == p;
    }
  }

  lemma {:induction false} SplitUndoesJoin(parts: seq<string>)
    requires Pieces(parts)
    ensures Split(Join(parts)) == parts
  {
    if |parts| == 1 {
      SplitPiece(parts[0], "");
    } else {
      SplitUndoesJoin(parts[1..]);
      SplitPiece(parts[0], Join(parts[1..]));
    }
  }

  lemma ConsStays(c: char, t: string)
    requires BeforeDoubleColon(t) == t && (t == "" || c != ':' || t[0] != ':')
    ensures BeforeDoubleColon([c] + t) == [c] + t
  {
    assert ([c] + t)[1..] == t;
  }

  lemma HeadFirst(p: string, rest: string)
    requires p != ""
    ensures p + rest == [p[0]] + (p[1..] + rest)
  {
  }

  lemma {:induction false} NoDoubleColonIn(p: string, rest: string)
    requires forall i :: 0 <= i < |p| ==> p[i] != ':'
    requires BeforeDoubleColon(rest) == rest
    ensures BeforeDoubleColon(p + rest) == p + rest
  {
    if p == "" {
      assert p + rest == rest;
    } else {
      var t := p[1..] + rest;
      NoDoubleColonIn(p[1..], rest);
      ConsStays(p[0], t);
      HeadFirst(p, rest);
    }
  }

  lemma {:induction false} JoinHasNoDoubleColon(parts: seq<string>)
    requires Pieces(parts)
    ensures Join(parts) != "" && Join(parts)[0] != ':' && BeforeDoubleColon(Join(parts)) == Join(parts)
  {
    assert Piece(parts[0]);
    if |parts| == 1 {
      NoDoubleColonIn(parts[0], "");
      assert parts[0] + "" == parts[0];
    } else {
      var rest := Join(parts[1..]);
      JoinHasNoDoubleColon(parts[1..]);
      ConsStays(':', rest);
      NoDoubleColonIn(parts[0], ":" + rest);
      assert parts[0] + (":" + rest) == Join(parts);
    }
  }

  lemma ParserSeesPieces(parts: seq<string>)
    requires Pieces(parts)
    ensures MacFromIpv6(LINK_LOCAL + Join(parts)) ==
            if |parts| == 4 then PaddedLength(parts); MacOfEui(Padded(parts)) else None
  {
    JoinHasNoDoubleColon(parts);
    SplitUndoesJoin(parts);
    assert (LINK_LOCAL + Join(parts))[6..] == Join(parts);
  }

  // ----- Digits -----

  ghost predicate HexDigits(s: string) {
    forall i :: 0 <= i < |s| ==> DigitValue(s[i]).Some?
  }

  function HexValue(s: string): nat
    requires HexDigits(s)
  {
    if s == "" then 0 else 16 * HexValue(Init(s)) + DigitValue(Last(s)).value
  }

  lemma {:induction false} LeadingZeroIsWorthless(s: string)
    requires HexDigits(s)
    ensures HexDigits("0" + s) && HexValue("0" + s) == HexValue(s)
  {
    assert HexDigits("0" + s);
    if s != "" {
      LeadingZeroIsWorthless(Init(s));
      assert Init("0" + s) == "0" + Init(s);
    } else {
      assert "0" + s == "0" && Init("0") == "";
    }
  }

  lemma {:induction false} ZFillKeepsValue(s: string, width: nat)
    requires HexDigits(s)
    ensures HexDigits(ZFill(s, width)) && HexValue(ZFill(s, width)) == HexValue(s)
    decreases width - |s|
  {
    if |s| < width {
      LeadingZeroIsWorthless(s);
      ZFillKeepsValue("0" + s, width);
    }
  }

  function At(q: string, i: nat): (v: nat)
    requires HexDigits(q) && i < |q|
    ensures v < 16
  {
    DigitValue(q[i]).value
  }

  lemma ValueOfFour(q: string)
    requires HexDigits(q) && |q| == 4
    ensures HexValue(q) == 16 * (16 * (16 * At(q, 0) + At(q, 1)) + At(q, 2)) + At(q, 3)
  {
    var one, two, three := q[..1], q[..2], q[..3];
    assert Init(q) == three && Init(three) == two && Init(two) == one && Init(one) == "";
    assert HexValue(one) == At(q, 0);
    assert HexValue(two) == 16 * HexValue(one) + At(q, 1);
    assert HexValue(three) == 16 * HexValue(two) + At(q, 2);
  }

  lemma BytesOfFour(q: string)
    requires HexDigits(q) && |q| == 4
    ensures Bytes(q) == Some([16 * At(q, 0) + At(q, 1), 16 * At(q, 2) + At(q, 3)])
  {
    var tail := q[2..];
    assert tail[0] == q[2] && tail[1] == q[3] && tail[2..] == "";
    var last: seq<nat> := [16 * At(q, 2) + At(q, 3)];
    assert last + [] == last && Bytes(tail) == Some(last);
    var first: seq<nat> := [16 * At(q, 0) + At(q, 1)];
    assert Bytes(q) == Some(first + last) && first + last == [first[0], last[0]];
  }

  lemma TwoBytesOf(v: nat, high: nat, low: nat)
    requires v == 256 * high + low && high < 256 && low < 256
    ensures v < 0x1_0000 && v / 256 == high && v % 256 == low
  {
  }

  lemma FourDigitsAreTwoBytes(q: string)
    requires HexDigits(q) && |q| == 4
    ensures HexValue(q) < 0x1_0000 && Bytes(q) == Some([HexValue(q) / 256, HexValue(q) % 256])
  {
    ValueOfFour(q);
    BytesOfFour(q);
    TwoBytesOf(HexValue(q), 16 * At(q, 0) + At(q, 1), 16 * At(q, 2) + At(q, 3));
  }

  lemma {:induction false} BytesConcat(a: string, b: string)
    requires |a| % 2 == 0 && Bytes(a).Some? && Bytes(b).Some?
    ensures Bytes(a + b) == Some(Bytes(a).value + Bytes(b).value)
    decreases |a|
  {
    if a == "" {
      assert a + b == b && Bytes(a).value + Bytes(b).value == Bytes(b).value;
    } else {
      BytesConcat(a[2..], b);
      assert (a + b)[2..] == a[2..] + b && (a + b)[0] == a[0] && (a + b)[1] == a[1];
      var first := [16 * DigitValue(a[0]).value + DigitValue(a[1]).value];
      assert Bytes(a + b) == Some(first + (Bytes(a[2..]).value + Bytes(b).value));
      assert first + (Bytes(a[2..]).value + Bytes(b).value) == Bytes(a).value + Bytes(b).value;
    }
  }

  // ----- Four groups of one to four digits -----

  ghost predicate FourGroups(parts: seq<string>) {
    |parts| == 4 && forall i :: 0 <= i < 4 ==> 1 <= |parts[i]| <= 4 && HexDigits(parts[i])
  }

  lemma GroupBytes(p: string)
    requires 1 <= |p| <= 4 && HexDigits(p)
    ensures Piece(p) && HexValue(p) < 0x1_0000 && |ZFill(p, 4)| == 4
    ensures Bytes(ZFill(p, 4)) == Some([HexValue(p) / 256, HexValue(p) % 256])
  {
    ZFillLength(p, 4);
    ZFillKeepsValue(p, 4);
    FourDigitsAreTwoBytes(ZFill(p, 4));
  }

  /** The identifier bytes of padded groups, group by group. */
  function BytesOfGroups(parts: seq<string>): seq<nat>
    requires forall i :: 0 <= i < |parts| ==> HexDigits(parts[i])
  {
    if parts == [] then [] else [HexValue(parts[0]) / 256, HexValue(parts[0]) % 256] + BytesOfGroups(parts[1..])
  }

  lemma {:induction false} PaddedBytes(parts: seq<string>)
    requires forall i :: 0 <= i < |parts| ==> 1 <= |parts[i]| <= 4 && HexDigits(parts[i])
    ensures Bytes(Padded(parts)) == Some(BytesOfGroups(parts)) && |BytesOfGroups(parts)| == 2 * |parts|
  {
    if parts != [] {
      PaddedBytes(parts[1..]);
      GroupBytes(parts[0]);
      BytesConcat(ZFill(parts[0], 4), Padded(parts[1..]));
    }
  }

  lemma BytesOfFourGroups(parts: seq<string>)
    requires FourGroups(parts)
    ensures forall i :: 0 <= i < 4 ==> HexValue(parts[i]) < 0x1_0000
    ensures var g0, g1, g2, g3 := HexValue(parts[0]), HexValue(parts[1]), HexValue(parts[2]), HexValue(parts[3]);
            BytesOfGroups(parts) == [g0 / 256, g0 % 256, g1 / 256, g1 % 256, g2 / 256, g2 % 256, g3 / 256, g3 % 256]
  {
    forall i | 0 <= i < 4
      ensures HexValue(parts[i]) < 0x1_0000
    {
      GroupBytes(parts[i]);
    }
    var t1 := parts[1..];
    var t2 := t1[1..];
    var t3 := t2[1..];
    assert t1[0] == parts[1] && t2[0] == parts[2] && t3[0] == parts[3] && t3[1..] == [];
    assert BytesOfGroups(t3) == [HexValue(parts[3]) / 256, HexValue(parts[3]) % 256];
    assert BytesOfGroups(t2) == [HexValue(parts[2]) / 256, HexValue(parts[2]) % 256] + BytesOfGroups(t3);
    assert BytesOfGroups(t1) == [HexValue(parts[1]) / 256, HexValue(parts[1]) % 256] + BytesOfGroups(t2);
  }

  /** The groups are the modified EUI-64 of this MAC. */
  ghost predicate Encodes(parts: seq<string>, mac: seq<nat>)
    requires FourGroups(parts)
  {
    IsMac(mac) && [HexValue(parts[0]), HexValue(parts[1]), HexValue(parts[2]), HexValue(parts[3])] == Identifier(mac)
  }

  lemma EncodedBytes(parts: seq<string>, mac: seq<nat>)
    requires FourGroups(parts)
    ensures Encodes(parts, mac) <==> IsMac(mac) && BytesOfGroups(parts) == InterfaceId(mac)
  {
    BytesOfFourGroups(parts);
    if IsMac(mac) {
      FlipIsInvolution(mac[0]);
    }
  }

  function MacOfBytes(b: seq<nat>): seq<nat>
    requires |b| == 8
  {
    [Xor(b[0], 0x02)] + b[1..3] + b[5..]
  }

  lemma ParsesGroups(parts: seq<string>)
    requires FourGroups(parts)
    ensures |BytesOfGroups(parts)| == 8
    ensures MacFromIpv6(LINK_LOCAL + Join(parts)) ==
            var b := BytesOfGroups(parts);
            if b[3] != 0xff || b[4] != 0xfe then None else Some(FormatMac(MacOfBytes(b)))
  {
    forall i | 0 <= i < 4
      ensures Piece(parts[i])
    {
      GroupBytes(parts[i]);
    }
    ParserSeesPieces(parts);
    PaddedBytes(parts);
    PaddedLength(parts);
  }

  lemma MacOfBytesInvertsInterfaceId(b: seq<nat>, mac: seq<nat>)
    requires |b| == 8 && forall i :: 0 <= i < 8 ==> b[i] < 256
    ensures IsMac(mac) && b == InterfaceId(mac) <==> b[3] == 0xff && b[4] == 0xfe && mac == MacOfBytes(b)
  {
    FlipIsInvolution(b[0]);
    XorTwoFlips(b[0]);
    if IsMac(mac) {
      FlipIsInvolution(mac[0]);
      if b == InterfaceId(mac) {
        assert mac == MacOfBytes(b);
      }
    }
    if b[3] == 0xff && b[4] == 0xfe && mac == MacOfBytes(b) {
      assert InterfaceId(mac) == b;
    }
  }

  /** Four groups of one to four hexadecimal digits are accepted exactly when they are the modified EUI-64
      of a MAC address, and then that address is the result. */
  lemma AcceptsExactlyEui64(parts: seq<string>)
    requires FourGroups(parts)
    ensures MacFromIpv6(LINK_LOCAL + Join(parts)).Some? <==> exists mac :: Encodes(parts, mac)
    ensures forall mac :: Encodes(parts, mac) ==> MacFromIpv6(LINK_LOCAL + Join(parts)) == Some(FormatMac(mac))
  {
    ParsesGroups(parts);
    BytesOfFourGroups(parts);
    var b := BytesOfGroups(parts);
    EncodedBytes(parts, MacOfBytes(b));
    MacOfBytesInvertsInterfaceId(b, MacOfBytes(b));
    forall mac | Encodes(parts, mac)
      ensures MacOfBytes(b) == mac && b[3] == 0xff && b[4] == 0xfe
    {
      EncodedBytes(parts, mac);
      MacOfBytesInvertsInterfaceId(b, mac);
    }
  }

  // ----- Round trip over canonical text -----

  lemma {:induction false} TrimKeepsValue(s: string)
    requires s != "" && HexDigits(s)
    ensures var t := WithoutLeadingZeros(s); 1 <= |t| <= |s| && HexDigits(t) && HexValue(t) == HexValue(s)
  {
    if |s| > 1 && s[0] == '0' {
      TrimKeepsValue(s[1..]);
      LeadingZeroIsWorthless(s[1..]);
      assert "0" + s[1..] == s;
    }
  }

  lemma DigitRoundTrip(n: nat)
    requires n < 16
    ensures DigitValue(Digit(n)) == Some(n)
  {
  }

  lemma OneDigit(n: nat)
    ensures 16 * (n / 16) + n % 16 == n
  {
  }

  lemma DigitsAddUp(g: Group)
    ensures 16 * (16 * (16 * (g / 4096) + g / 256 % 16) + g / 16 % 16) + g % 16 == g
  {
    var tens := g / 16;
    var hundreds := tens / 16;
    OneDigit(g);
    OneDigit(tens);
    OneDigit(hundreds);
    assert g / 256 == hundreds && g / 4096 == hundreds / 16;
  }

  lemma FourDigitsHaveValue(g: Group)
    ensures HexDigits(FourDigits(g)) && HexValue(FourDigits(g)) == g
  {
    var q := FourDigits(g);
    var a, b, c, d := g / 4096, g / 256 % 16, g / 16 % 16, g % 16;
    DigitRoundTrip(a);
    DigitRoundTrip(b);
    DigitRoundTrip(c);
    DigitRoundTrip(d);
    assert q[0] == Digit(a) && q[1] == Digit(b) && q[2] == Digit(c) && q[3] == Digit(d);
    ValueOfFour(q);
    DigitsAddUp(g);
  }

  lemma FieldHasValue(g: Group)
    ensures 1 <= |Field(g)| <= 4 && HexDigits(Field(g)) && HexValue(Field(g)) == g
  {
    FourDigitsHaveValue(g);
    TrimKeepsValue(FourDigits(g));
  }

  lemma {:induction false} FieldsAt(gs: seq<Group>)
    ensures |Fields(gs)| == |gs| && forall i :: 0 <= i < |gs| ==> Fields(gs)[i] == Field(gs[i])
  {
    if gs != [] {
      FieldsAt(gs[1..]);
    }
  }

  lemma {:induction false} FieldsArePieces(gs: seq<Group>)
    requires gs != []
    ensures Pieces(Fields(gs)) && |Fields(gs)| == |gs|
  {
    FieldsAt(gs);
    forall i | 0 <= i < |gs|
      ensures Piece(Fields(gs)[i])
    {
      FieldHasValue(gs[i]);
      GroupBytes(Field(gs[i]));
    }
  }

  lemma ZeroRuns(a: Group, b: Group, c: Group, d: Group, gs: seq<Group>)
    requires b != 0 && c != 0 && gs == [0xfe80, 0, 0, 0, a, b, c, d]
    ensures ZeroRun(gs, 0) == 0 && ZeroRun(gs, 1) == if a == 0 then 4 else 3
    ensures forall i :: 2 <= i <= 8 ==> ZeroRun(gs, i) < ZeroRun(gs, 1)
  {
    assert ZeroRun(gs, 8) == 0 && ZeroRun(gs, 7) <= 1 && ZeroRun(gs, 6) == 0 && ZeroRun(gs, 5) == 0;
    assert ZeroRun(gs, 4) == if a == 0 then 1 else 0;
    assert ZeroRun(gs, 3) == 1 + ZeroRun(gs, 4);
    assert ZeroRun(gs, 2) == 1 + ZeroRun(gs, 3);
    assert ZeroRun(gs, 1) == 1 + ZeroRun(gs, 2);
  }

  lemma {:induction false} FirstRunStaysLongest(gs: seq<Group>, n: nat)
    requires 2 <= n <= |gs| && ZeroRun(gs, 1) > ZeroRun(gs, 0)
    requires forall i :: 2 <= i <= |gs| ==> ZeroRun(gs, i) < ZeroRun(gs, 1)
    ensures LongestRun(gs, n) == 1
  {
    if n > 2 {
      FirstRunStaysLongest(gs, n - 1);
    } else {
      assert LongestRun(gs, 1) == 0;
    }
  }

  lemma PrefixText()
    ensures Join(Fields([0xfe80])) + "::" == LINK_LOCAL
  {
    var head: seq<Group> := [0xfe80];
    assert head[1..] == [] && Fields(head) == [Field(0xfe80)];
    assert FourDigits(0xfe80) == ['f', 'e', '8', '0'];
  }

  /** The canonical text of a link-local address: the zero fields after the prefix are one double colon, and
      so is a zero field that follows them. */
  lemma CanonicalLinkLocal(a: Group, b: Group, c: Group, d: Group)
    requires b != 0 && c != 0
    ensures Canonical([0xfe80, 0, 0, 0, a, b, c, d]) ==
            LINK_LOCAL + Join(Fields(if a == 0 then [b, c, d] else [a, b, c, d]))
  {
    var gs: seq<Group> := [0xfe80, 0, 0, 0, a, b, c, d];
    ZeroRuns(a, b, c, d, gs);
    FirstRunStaysLongest(gs, 8);
    PrefixText();
    assert gs[..1] == [0xfe80] && gs[4..] == [a, b, c, d] && gs[5..] == [b, c, d];
  }

  lemma IdentifierShape(mac: seq<nat>) returns (a: Group, b: Group, c: Group, d: Group)
    requires IsMac(mac)
    ensures Identifier(mac) == [a, b, c, d] && LinkLocalOf(mac) == [0xfe80, 0, 0, 0, a, b, c, d]
    ensures b != 0 && c != 0 && (a == 0 <==> mac[0] == 0x02 && mac[1] == 0)
  {
    FlipIsInvolution(mac[0]);
    a, b := 256 * FlipLocalBit(mac[0]) + mac[1], 256 * mac[2] + 0xff;
    c, d := 256 * 0xfe + mac[3], 256 * mac[4] + mac[5];
    assert FlipLocalBit(mac[0]) == 0 <==> mac[0] == 0x02;
  }

  lemma FourFieldsParse(gs: seq<Group>, mac: seq<nat>)
    requires IsMac(mac) && |gs| == 4 && Identifier(mac) == gs
    ensures MacFromIpv6(LINK_LOCAL + Join(Fields(gs))) == Some(FormatMac(mac))
  {
    var parts := Fields(gs);
    FieldsAt(gs);
    forall i | 0 <= i < 4
      ensures 1 <= |parts[i]| <= 4 && HexDigits(parts[i]) && HexValue(parts[i]) == gs[i]
    {
      FieldHasValue(gs[i]);
    }
    assert [HexValue(parts[0]), HexValue(parts[1]), HexValue(parts[2]), HexValue(parts[3])] == gs;
    assert Encodes(parts, mac);
    AcceptsExactlyEui64(parts);
  }

  lemma ThreeFieldsAreRefused(gs: seq<Group>)
    requires |gs| == 3
    ensures MacFromIpv6(LINK_LOCAL + Join(Fields(gs))) == None
  {
    FieldsArePieces(gs);
    ParserSeesPieces(Fields(gs));
  }

  /** Parsing the canonical text of the link-local address made from a MAC gives that MAC back, exactly when
      the first field of its interface identifier is not zero; otherwise the text is refused. */
  lemma RoundTripsExactlyWhenFirstFieldIsNonzero(mac: seq<nat>)
    requires IsMac(mac)
    ensures MacFromIpv6(Canonical(LinkLocalOf(mac))) ==
            if mac[0] == 0x02 && mac[1] == 0 then None else Some(FormatMac(mac))
  {
    var a, b, c, d := IdentifierShape(mac);
    CanonicalLinkLocal(a, b, c, d);
    if a == 0 {
      ThreeFieldsAreRefused([b, c, d]);
    } else {
      FourFieldsParse([a, b, c, d], mac);
    }
  }

  // ----- The result as text -----

  function Glued(parts: seq<string>): string {
    if parts == [] then "" else parts[0] + Glued(parts[1..])
  }

  lemma TwoDigitsReadBack(b: nat)
    requires b < 256
    ensures Piece(TwoDigits(b)) && Bytes(TwoDigits(b)) == Some([b])
  {
    var t := TwoDigits(b);
    DigitRoundTrip(b / 16);
    DigitRoundTrip(b % 16);
    assert t[2..] == "" && t[0] == Digit(b / 16) && t[1] == Digit(b % 16);
    var byte: seq<nat> := [b];
    assert byte + [] == byte && 16 * (b / 16) + b % 16 == b;
    assert Bytes(t) == Some(byte + []);
  }

  /** The result reads back as the address: its pieces between colons are two digits a byte. */
  lemma {:induction false} MacTextReadsBack(mac: seq<nat>)
    requires |mac| > 0 && forall i :: 0 <= i < |mac| ==> mac[i] < 256
    ensures |Split(FormatMac(mac))| == |mac| && Bytes(Glued(Split(FormatMac(mac)))) == Some(mac)
  {
    var first := TwoDigits(mac[0]);
    TwoDigitsReadBack(mac[0]);
    if |mac| == 1 {
      SplitPiece(first, "");
      var alone := [first];
      assert alone[1..] == [] && Glued(alone) == first && mac == [mac[0]];
    } else {
      var rest := FormatMac(mac[1..]);
      MacTextReadsBack(mac[1..]);
      SplitPiece(first, rest);
      assert ([first] + Split(rest))[1..] == Split(rest);
      BytesConcat(first, Glued(Split(rest)));
      assert [mac[0]] + mac[1..] == mac;
    }
  }

  const HEX_DIGITS := "0123456789abcdef"
  const HEX_CAPITALS := "0123456789ABCDEF"

  lemma DigitsInOrder(n: nat)
    requires n < 16
    ensures HEX_DIGITS[n] as int == n + if n < 10 then '0' as int else 'a' as int - 10
    ensures HEX_CAPITALS[n] as int == n + if n < 10 then '0' as int else 'A' as int - 10
  {
  }

  /** A digit is read in either case, and nothing else is a digit. */
  lemma DigitsInEitherCase(c: char, n: nat)
    requires n < 16
    ensures DigitValue(c) == Some(n) <==> c == HEX_DIGITS[n] || c == HEX_CAPITALS[n]
    ensures DigitValue(c).Some? ==> DigitValue(c).value < 16
  {
    DigitsInOrder(n);
  }

  lemma DigitIsLowerCase(n: nat)
    requires n < 16
    ensures Digit(n) == HEX_DIGITS[n]
  {
  }

  /** The result byte by byte: two lower-case digits each, high half first, with a colon before the next. */
  lemma {:induction false} MacTextIsLowerCase(mac: seq<nat>, i: nat)
    requires i < |mac| && forall j :: 0 <= j < |mac| ==> mac[j] < 256
    ensures var text := FormatMac(mac);
            && |text| == 3 * |mac| - 1
            && text[3 * i] == HEX_DIGITS[mac[i] / 16] && text[3 * i + 1] == HEX_DIGITS[mac[i] % 16]
            && (i + 1 < |mac| ==> text[3 * i + 2] == ':')
  {
    var first := TwoDigits(mac[0]);
    DigitIsLowerCase(mac[0] / 16);
    DigitIsLowerCase(mac[0] % 16);
    assert |first| == 2 && first[0] == HEX_DIGITS[mac[0] / 16] && first[1] == HEX_DIGITS[mac[0] % 16];
    if |mac| > 1 {
      var rest := mac[1..];
      MacTextIsLowerCase(rest, if i == 0 then 0 else i - 1);
      var text := first + ":" + FormatMac(rest);
      assert FormatMac(mac) == text && text[2] == ':';
      if i > 0 {
        assert text[3 * i] == FormatMac(rest)[3 * (i - 1)] && text[3 * i + 1] == FormatMac(rest)[3 * (i - 1) + 1];
        assert i + 1 < |mac| ==> text[3 * i + 2] == FormatMac(rest)[3 * (i - 1) + 2];
      }
    }
  }

  /** Only text with the prefix is accepted, and what follows another double colon does not matter. */
  lemma PrefixAndFurtherDoubleColon(s: string, parts: seq<string>, rest: string)
    requires Pieces(parts)
    ensures MacFromIpv6(s).Some? ==> |s| >= 6 && s[..6] == "fe80::"
    ensures MacFromIpv6(LINK_LOCAL + Join(parts) + "::" + rest) == MacFromIpv6(LINK_LOCAL + Join(parts))
  {
    CutAtDoubleColon(parts, rest);
    JoinHasNoDoubleColon(parts);
    assert (LINK_LOCAL + Join(parts) + "::" + rest)[6..] == Join(parts) + ("::" + rest);
    assert (LINK_LOCAL + Join(parts))[6..] == Join(parts);
  }

  lemma CutStays(c: char, t: string, rest: string)
    requires t != "" && (c != ':' || t[0] != ':') && BeforeDoubleColon(t + "::" + rest) == t
    ensures BeforeDoubleColon([c] + t + "::" + rest) == [c] + t
  {
    var whole := [c] + t + "::" + rest;
    assert whole[1..] == t + "::" + rest && whole[0] == c && whole[1] == t[0];
  }

  lemma {:induction false} CutAfterPiece(p: string, t: string, rest: string)
    requires p != "" && forall i :: 0 <= i < |p| ==> p[i] != ':'
    requires t == "" || BeforeDoubleColon(t + "::" + rest) == t
    ensures BeforeDoubleColon(p + t + "::" + rest) == p + t
  {
    if |p| == 1 {
      if t == "" {
        var whole := p + "::" + rest;
        assert p + t + "::" + rest == whole && whole[1..] == "::" + rest;
        assert BeforeDoubleColon("::" + rest) == "";
        assert [p[0]] + "" == p;
      } else {
        CutStays(p[0], t, rest);
        assert [p[0]] == p;
      }
    } else {
      CutAfterPiece(p[1..], t, rest);
      CutStays(p[0], p[1..] + t, rest);
      assert [p[0]] + (p[1..] + t) == p + t;
    }
  }

  lemma {:induction false} CutAtDoubleColon(parts: seq<string>, rest: string)
    requires Pieces(parts)
    ensures BeforeDoubleColon(Join(parts) + "::" + rest) == Join(parts)
    ensures BeforeDoubleColon(Join(parts) + ("::" + rest)) == Join(parts)
  {
    assert Piece(parts[0]);
    assert Join(parts) + "::" + rest == Join(parts) + ("::" + rest);
    if |parts| == 1 {
      CutAfterPiece(parts[0], "", rest);
      assert parts[0] + "" == parts[0];
    } else {
      var later := Join(parts[1..]);
      CutAtDoubleColon(parts[1..], rest);
      JoinHasNoDoubleColon(parts[1..]);
      CutStays(':', later, rest);
      assert [':'] + later == ":" + later;
      CutAfterPiece(parts[0], ":" + later, rest);
      assert parts[0] + (":" + later) == Join(parts);
    }
  }
}
