/**
 Classifying the text of an IP address: IPv4 in dotted form, IPv6 in the text forms of
 section 2.2 of RFC 4291, and the IPv4 addresses that some IPv6 addresses embed.
 */
module PrivateAddress {
  import opened Options
  import opened Strings

  // ----- Text -----

  predicate DoubleAt(s: string, i: int) {
    0 <= i < |s| - 1 && s[i] == ':' && s[i + 1] == ':'
  }

  function FindDouble(s: string, from: nat): (i: int)
    ensures i >= 0 ==> DoubleAt(s, i) && i >= from
    ensures forall k :: from <= k < (if i >= 0 then i else |s|) ==> !DoubleAt(s, k)
    decreases |s| - from
  {
    if from >= |s| then -1 else if DoubleAt(s, from) then from else FindDouble(s, from + 1)
  }

  /** Split at "::", left to right. */
  function SplitDouble(s: string): (parts: seq<string>)
    ensures |parts| >= 1
    decreases |s|
  {
    var i := FindDouble(s, 0);
    if i < 0 then [s] else [s[..i]] + SplitDouble(s[i + 2..])
  }

  function LastColon(s: string): (i: int)
    ensures -1 <= i < |s|
    ensures i >= 0 ==> s[i] == ':'
    ensures forall k :: i < k < |s| ==> s[k] != ':'
  {
    if s == [] then -1 else if s[|s| - 1] == ':' then |s| - 1 else LastColon(s[..|s| - 1])
  }

  function Lower(c: char): char {
    if 'A' <= c <= 'Z' then (c as int + 32) as char else c
  }

  function LowerCase(s: string): (r: string)
    ensures |r| == |s|
  {
    seq(|s|, i requires 0 <= i < |s| => Lower(s[i]))
  }

  function StripBrackets(s: string): string {
    if |s| >= 2 && s[0] == '[' && s[|s| - 1] == ']' then s[1..|s| - 1] else s
  }

  // ----- Numbers -----

  predicate IsHex(c: char) {
    IsDigit(c) || 'a' <= c <= 'f' || 'A' <= c <= 'F'
  }

  function HexDigit(c: char): (v: nat)
    requires IsHex(c)
    ensures v < 16
  {
    if IsDigit(c) then c as int - '0' as int
    else if 'a' <= c <= 'f' then c as int - 'a' as int + 10
    else c as int - 'A' as int + 10
  }

  predicate AllHex(s: string) {
    forall i :: 0 <= i < |s| ==> IsHex(s[i])
  }

  function HexValue(s: string): nat
    requires AllHex(s)
  {
    if s == [] then 0 else 16 * HexValue(s[..|s| - 1]) + HexDigit(s[|s| - 1])
  }

  function HexChar(d: nat): char
    requires d < 16
  {
    if d < 10 then ('0' as int + d) as char else ('a' as int + d - 10) as char
  }

  /** The shortest hexadecimal text. */
  function ToHex(n: nat): string {
    if n < 16 then [HexChar(n)] else ToHex(n / 16) + [HexChar(n % 16)]
  }

  // ----- IPv4 -----

  /** Four runs of digits between dots. */
  predicate IsDotted(s: string) {
    var parts := Split(s, '.');
    |parts| == 4 && forall i :: 0 <= i < 4 ==> parts[i] != [] && AllDigits(parts[i])
  }

  function Ipv4Parts(s: string): (parts: seq<nat>)
    requires IsDotted(s)
    ensures |parts| == 4
  {
    seq(4, i requires 0 <= i < 4 => DecimalValue(Split(s, '.')[i]))
  }

  predicate IsIpv4Address(s: string) {
    IsDotted(s) && forall i :: 0 <= i < 4 ==> Ipv4Parts(s)[i] <= 255
  }

  datatype Interval = Interval(low: nat, high: nat)

  const NON_PUBLIC_IPV4_RANGES: seq<seq<Interval>> := [
    [Interval(0, 0), Interval(0, 255), Interval(0, 255), Interval(0, 255)],
    [Interval(10, 10), Interval(0, 255), Interval(0, 255), Interval(0, 255)],
    [Interval(127, 127), Interval(0, 255), Interval(0, 255), Interval(0, 255)],
    [Interval(169, 169), Interval(254, 254), Interval(0, 255), Interval(0, 255)],
    [Interval(172, 172), Interval(16, 31), Interval(0, 255), Interval(0, 255)],
    [Interval(192, 192), Interval(168, 168), Interval(0, 255), Interval(0, 255)],
    [Interval(100, 100), Interval(64, 127), Interval(0, 255), Interval(0, 255)],
    [Interval(192, 192), Interval(0, 0), Interval(0, 255), Interval(0, 255)],
    [Interval(198, 198), Interval(18, 19), Interval(0, 255), Interval(0, 255)],
    [Interval(198, 198), Interval(51, 51), Interval(100, 100), Interval(0, 255)],
    [Interval(203, 203), Interval(0, 0), Interval(113, 113), Interval(0, 255)],
    [Interval(224, 255), Interval(0, 255), Interval(0, 255), Interval(0, 255)]]

  predicate MatchesIpv4Range(parts: seq<nat>, range: seq<Interval>) {
    |parts| <= |range| && forall i :: 0 <= i < |parts| ==> range[i].low <= parts[i] <= range[i].high
  }

  predicate IsPrivateIpv4(parts: seq<nat>) {
    |parts| != 4 ||
    exists k :: 0 <= k < |NON_PUBLIC_IPV4_RANGES| && MatchesIpv4Range(parts, NON_PUBLIC_IPV4_RANGES[k])
  }

  // ----- IPv6 -----

  predicate IsField(s: string) {
    1 <= |s| <= 4 && AllHex(s)
  }

  function ParseHextets(section: string): Option<seq<nat>> {
    if section == [] then Some([])
    else
      var parts := Split(section, ':');
      if AreFields(parts) then Some(FieldValues(parts)) else None
  }

  predicate AreFields(parts: seq<string>) {
    forall i :: 0 <= i < |parts| ==> IsField(parts[i])
  }

  function FieldValues(fields: seq<string>): (values: seq<nat>)
    requires AreFields(fields)
    ensures |values| == |fields|
  {
    seq(|fields|, i requires 0 <= i < |fields| && IsField(fields[i]) => HexValue(fields[i]))
  }

  /** The two hextets of an IPv4 address, as text. */
  function HextetPair(p: seq<nat>): string
    requires |p| == 4
  {
    ToHex(256 * p[0] + p[1]) + [':'] + ToHex(256 * p[2] + p[3])
  }

  /** A dotted tail becomes its two hextets. */
  function ReplaceIpv4Tail(s: string): string {
    var tail := s[LastColon(s) + 1..];
    if !IsIpv4Address(tail) then s
    else s[..LastColon(s) + 1] + HextetPair(Ipv4Parts(tail))
  }

  function Zeros(n: nat): (r: seq<nat>)
    ensures |r| == n && forall i :: 0 <= i < n ==> r[i] == 0
  {
    seq(n, i => 0)
  }

  function ExpandIpv6(s: string): Option<seq<nat>> {
    ExpandPrepared(ReplaceIpv4Tail(Split(s, '%')[0]))
  }

  function ExpandPrepared(prepared: string): Option<seq<nat>> {
    var sections := SplitDouble(prepared);
    if |sections| > 2 then None
    else
      var head := ParseHextets(sections[0]);
      var tail := if |sections| == 2 then ParseHextets(sections[1]) else Some([]);
      if head.None? || tail.None? then None
      else
        var missing := 8 - |head.value| - |tail.value|;
        if missing < 0 || (|sections| == 1 && missing != 0) then None
        else Some(head.value + Zeros(missing) + tail.value)
  }

  predicate AllZero(parts: seq<nat>) {
    forall i :: 0 <= i < |parts| ==> parts[i] == 0
  }

  /** The 16-bit word `x` with only its leading bits kept; `low` is the weight of the last kept bit. */
  function Masked(x: nat, low: nat): nat
    requires low > 0
  {
    x - x % low
  }

  predicate IsPrivateIpv6Range(parts: seq<nat>) {
    |parts| != 8 || AllZero(parts) || (AllZero(parts[..7]) && parts[7] == 1) ||
    Masked(parts[0], 0x200) == 0xfc00 || Masked(parts[0], 0x40) == 0xfe80 || Masked(parts[0], 0x100) == 0xff00 ||
    (parts[0] == 0x2001 && parts[1] == 0x0db8)
  }

  function HextetsToIpv4(high: nat, low: nat): (parts: seq<nat>)
    ensures |parts| == 4
  {
    [high / 256, high % 256, low / 256, low % 256]
  }

  predicate IsMapped(parts: seq<nat>)
    requires |parts| == 8
  {
    AllZero(parts[..5]) && parts[5] == 0xffff
  }

  predicate IsNat64(parts: seq<nat>)
    requires |parts| == 8
  {
    parts[0] == 0x0064 && parts[1] == 0xff9b && AllZero(parts[2..6])
  }

  predicate IsIpv4Compatible(parts: seq<nat>)
    requires |parts| == 8
  {
    AllZero(parts[..6])
  }

  function EmbeddedTransitionIpv4(parts: seq<nat>): seq<seq<nat>>
    requires |parts| == 8
  {
    (if IsNat64(parts) then [HextetsToIpv4(parts[6], parts[7])] else []) +
    (if parts[0] == 0x2002 then [HextetsToIpv4(parts[1], parts[2])] else []) +
    (if IsIpv4Compatible(parts) then [HextetsToIpv4(parts[6], parts[7])] else [])
  }

  /** The class of the hextets; too few or too many are never public. */
  predicate IsPrivateIpv6(parts: seq<nat>) {
    if IsPrivateIpv6Range(parts) then true
    else if IsMapped(parts) then IsPrivateIpv4(HextetsToIpv4(parts[6], parts[7]))
    else exists ip :: ip in EmbeddedTransitionIpv4(parts) && IsPrivateIpv4(ip)
  }

  predicate IsPrivateAddress(address: string) {
    var normalized := LowerCase(StripBrackets(address));
    if IsIpv4Address(normalized) then IsPrivateIpv4(Ipv4Parts(normalized))
    else
      var parts := ExpandIpv6(normalized);
      parts.None? || IsPrivateIpv6(parts.value)
  }
}
