/**
 The private IPv6 addresses as blocks of 128-bit numbers, given by first address and prefix
 length, and those that an embedded IPv4 address makes private.
 */
module AddressBlocks {
  import opened Options
  import opened PrivateAddress
  import opened AddressSpellings
  import opened Strings

  predicate IsHextets(parts: seq<nat>) {
    |parts| == 8 && forall i :: 0 <= i < 8 ==> parts[i] < 0x10000
  }

  function Pow2(n: nat): (r: nat)
    ensures r > 0
  {
    if n == 0 then 1 else 2 * Pow2(n - 1)
  }

  function Ipv6Number(p: seq<nat>): nat
    requires |p| == 8
  {
    0x1_0000_0000_0000_0000_0000_0000_0000 * p[0] + 0x1_0000_0000_0000_0000_0000_0000 * p[1] +
    0x1_0000_0000_0000_0000_0000 * p[2] + 0x1_0000_0000_0000_0000 * p[3] +
    0x1_0000_0000_0000 * p[4] + 0x1_0000_0000 * p[5] + 0x1_0000 * p[6] + p[7]
  }

  /** An address block in prefix notation. */
  datatype Block6 = Block6(base: seq<nat>, prefix: nat)

  /** The numbers that agree with the base in the prefix, which ends the base's own bits. */
  predicate InBlock6(n: nat, b: Block6)
    requires |b.base| == 8 && b.prefix <= 128
  {
    Ipv6Number(b.base) <= n < Ipv6Number(b.base) + Pow2(128 - b.prefix)
  }

  const UNSPECIFIED := Block6([0, 0, 0, 0, 0, 0, 0, 0], 128)
  const LOOPBACK := Block6([0, 0, 0, 0, 0, 0, 0, 1], 128)
  const UNIQUE_LOCAL := Block6([0xfc00, 0, 0, 0, 0, 0, 0, 0], 7)
  const LINK_LOCAL := Block6([0xfe80, 0, 0, 0, 0, 0, 0, 0], 10)
  const MULTICAST := Block6([0xff00, 0, 0, 0, 0, 0, 0, 0], 8)
  const DOCUMENTATION := Block6([0x2001, 0x0db8, 0, 0, 0, 0, 0, 0], 32)

  predicate InPrivateBlock6(n: nat) {
    || InBlock6(n, UNSPECIFIED) || InBlock6(n, LOOPBACK) || InBlock6(n, UNIQUE_LOCAL) || InBlock6(n, LINK_LOCAL)
    || InBlock6(n, MULTICAST) || InBlock6(n, DOCUMENTATION)
  }

  const MAPPED := Block6([0, 0, 0, 0, 0, 0xffff, 0, 0], 96)
  const COMPATIBLE := Block6([0, 0, 0, 0, 0, 0, 0, 0], 96)
  const NAT64 := Block6([0x64, 0xff9b, 0, 0, 0, 0, 0, 0], 96)
  const SIX_TO_FOUR := Block6([0x2002, 0, 0, 0, 0, 0, 0, 0], 16)

  /** The number of an IPv4 address that the address embeds: its last 32 bits, or those after the 6to4 prefix. */
  predicate Embeds(n: nat, ipv4: nat) {
    || ((InBlock6(n, MAPPED) || InBlock6(n, COMPATIBLE) || InBlock6(n, NAT64)) && ipv4 == n % 0x1_0000_0000)
    || (InBlock6(n, SIX_TO_FOUR) && ipv4 == n / 0x1_0000_0000_0000_0000_0000 % 0x1_0000_0000)
  }

  predicate InPrivateBlock4(ipv4: nat) {
    exists k :: 0 <= k < |NON_PUBLIC_BLOCKS| && NumberInBlock(ipv4, NON_PUBLIC_BLOCKS[k])
  }

  predicate NumberInBlock(ipv4: nat, b: Block) {
    |b.base| == 4 && Ipv4Number(b.base) <= ipv4 < Ipv4Number(b.base) + b.size
  }

  // ----- Powers of two -----

  lemma {:induction false} Pow2Adds(m: nat, n: nat)
    ensures Pow2(m + n) == Pow2(m) * Pow2(n)
  {
    if m > 0 {
      Pow2Adds(m - 1, n);
      assert m + n - 1 == (m - 1) + n;
      assert Pow2(m) == 2 * Pow2(m - 1) && Pow2(m + n) == 2 * Pow2(m + n - 1);
    }
  }

  lemma Hextet()
    ensures Pow2(1) == 2 && Pow2(2) == 4 && Pow2(4) == 16 && Pow2(8) == 0x100 && Pow2(16) == 0x10000
  {
    Pow2Adds(1, 1);
    Pow2Adds(2, 2);
    Pow2Adds(4, 4);
    Pow2Adds(8, 8);
  }

  lemma NoBits()
    ensures Pow2(0) == 1
  {}

  lemma WordSizes()
    ensures Pow2(6) == 0x40 && Pow2(9) == 0x200
    ensures Pow2(32) == 0x1_0000_0000 && Pow2(64) == 0x1_0000_0000_0000_0000
    ensures Pow2(96) == 0x1_0000_0000_0000_0000_0000_0000
  {
    hide Pow2;
    Hextet();
    Pow2Adds(2, 4);
    Pow2Adds(1, 8);
    Pow2Adds(16, 16);
    Pow2Adds(32, 32);
    Pow2Adds(64, 32);
  }

  lemma BlockSizes()
    ensures Pow2(0) == 1 && Pow2(32) == 0x1_0000_0000
    ensures Pow2(96) == 0x1_0000_0000_0000_0000_0000_0000
    ensures Pow2(112) == 0x1_0000_0000_0000_0000_0000_0000_0000
    ensures Pow2(118) == 0x40_0000_0000_0000_0000_0000_0000_0000
    ensures Pow2(120) == 0x100_0000_0000_0000_0000_0000_0000_0000
    ensures Pow2(121) == 0x200_0000_0000_0000_0000_0000_0000_0000
  {
    hide Pow2;
    NoBits();
    Hextet();
    WordSizes();
    Pow2Adds(96, 16);
    Pow2Adds(112, 6);
    Pow2Adds(112, 8);
    Pow2Adds(112, 9);
  }

  // ----- The ranges -----

  /** All hextets after the first, as a number. */
  function Tail(p: seq<nat>): nat
    requires |p| == 8
  {
    0x1_0000_0000_0000_0000_0000_0000 * p[1] + 0x1_0000_0000_0000_0000_0000 * p[2] + 0x1_0000_0000_0000_0000 * p[3] +
    0x1_0000_0000_0000 * p[4] + 0x1_0000_0000 * p[5] + 0x1_0000 * p[6] + p[7]
  }

  lemma TailBelow(p: seq<nat>)
    requires IsHextets(p)
    ensures Tail(p) < 0x1_0000_0000_0000_0000_0000_0000_0000
    ensures Ipv6Number(p) == 0x1_0000_0000_0000_0000_0000_0000_0000 * p[0] + Tail(p)
  {}

  lemma ZeroIsNumber(p: seq<nat>)
    requires IsHextets(p)
    ensures AllZero(p) <==> Ipv6Number(p) == 0
    ensures AllZero(p[..7]) && p[7] == 1 <==> Ipv6Number(p) == 1
  {
    assert AllZero(p[..7]) <==> forall i :: 0 <= i < 7 ==> p[i] == 0;
  }

  lemma SingleAddresses(p: seq<nat>)
    requires IsHextets(p)
    ensures InBlock6(Ipv6Number(p), UNSPECIFIED) <==> AllZero(p)
    ensures InBlock6(Ipv6Number(p), LOOPBACK) <==> AllZero(p[..7]) && p[7] == 1
  {
    ZeroIsNumber(p);
    BlockSizes();
    hide Pow2, AllZero;
  }

  lemma MaskedRanges(x: nat)
    requires x < 0x10000
    ensures Masked(x, 0x200) == 0xfc00 <==> 0xfc00 <= x < 0xfe00
    ensures Masked(x, 0x40) == 0xfe80 <==> 0xfe80 <= x < 0xfec0
    ensures Masked(x, 0x100) == 0xff00 <==> 0xff00 <= x
  {}

  lemma FirstHextetBlocks(p: seq<nat>)
    requires IsHextets(p)
    ensures InBlock6(Ipv6Number(p), UNIQUE_LOCAL) <==> 0xfc00 <= p[0] < 0xfe00
    ensures InBlock6(Ipv6Number(p), LINK_LOCAL) <==> 0xfe80 <= p[0] < 0xfec0
    ensures InBlock6(Ipv6Number(p), MULTICAST) <==> 0xff00 <= p[0] < 0x10000
    ensures InBlock6(Ipv6Number(p), SIX_TO_FOUR) <==> p[0] == 0x2002
  {
    hide Pow2, Tail;
    TailBelow(p);
    BlockSizes();
    assert Ipv6Number(UNIQUE_LOCAL.base) == 0xfc00 * 0x1_0000_0000_0000_0000_0000_0000_0000;
    assert Ipv6Number(LINK_LOCAL.base) == 0xfe80 * 0x1_0000_0000_0000_0000_0000_0000_0000;
    assert Ipv6Number(MULTICAST.base) == 0xff00 * 0x1_0000_0000_0000_0000_0000_0000_0000;
    assert Ipv6Number(SIX_TO_FOUR.base) == 0x2002 * 0x1_0000_0000_0000_0000_0000_0000_0000;
    hide Ipv6Number;
  }

  lemma DocumentationBlock(p: seq<nat>)
    requires IsHextets(p)
    ensures InBlock6(Ipv6Number(p), DOCUMENTATION) <==> p[0] == 0x2001 && p[1] == 0x0db8
  {
    BlockSizes();
    hide Pow2;
    TwoLead(p);
  }

  /** The first two hextets are the leading 32 bits. */
  lemma TwoLead(p: seq<nat>)
    requires IsHextets(p)
    ensures var w := 0x1_0000_0000_0000_0000_0000_0000;
      w * (0x1_0000 * p[0] + p[1]) <= Ipv6Number(p) < w * (0x1_0000 * p[0] + p[1]) + w
  {}

  /** The range test holds exactly on six blocks. */
  lemma PrivateIpv6Blocks(p: seq<nat>)
    requires IsHextets(p)
    ensures IsPrivateIpv6Range(p) <==> InPrivateBlock6(Ipv6Number(p))
  {
    SingleAddresses(p);
    FirstHextetBlocks(p);
    DocumentationBlock(p);
    MaskedRanges(p[0]);
    hide InBlock6, Ipv6Number, AllZero, Masked;
  }

  // ----- The embedded addresses -----

  /** The last two hextets are the last 32 bits, and the rest the leading 96. */
  lemma LastBits(p: seq<nat>)
    requires IsHextets(p)
    ensures Ipv6Number(p) == 0x1_0000_0000 * Lead(p) + (0x1_0000 * p[6] + p[7])
    ensures Ipv6Number(p) % 0x1_0000_0000 == 0x1_0000 * p[6] + p[7]
  {
    Remainder(Lead(p), 0x1_0000 * p[6] + p[7]);
  }

  function Lead(p: seq<nat>): nat
    requires |p| == 8
  {
    0x1_0000_0000_0000_0000_0000 * p[0] + 0x1_0000_0000_0000_0000 * p[1] + 0x1_0000_0000_0000 * p[2] +
    0x1_0000_0000 * p[3] + 0x1_0000 * p[4] + p[5]
  }

  lemma Remainder(q: nat, r: nat)
    requires r < 0x1_0000_0000
    ensures (0x1_0000_0000 * q + r) % 0x1_0000_0000 == r && (0x1_0000_0000 * q + r) / 0x1_0000_0000 == q
  {}

  lemma LeadBlocks(p: seq<nat>)
    requires IsHextets(p)
    ensures InBlock6(Ipv6Number(p), MAPPED) <==> IsMapped(p)
    ensures InBlock6(Ipv6Number(p), COMPATIBLE) <==> IsIpv4Compatible(p)
    ensures InBlock6(Ipv6Number(p), NAT64) <==> IsNat64(p)
  {
    LastBits(p);
    BlockSizes();
    LeadDigits(p);
    hide Pow2, IsMapped, IsIpv4Compatible, IsNat64;
    assert Ipv6Number(MAPPED.base) == 0x1_0000_0000 * 0xffff;
    assert Ipv6Number(COMPATIBLE.base) == 0;
    assert Ipv6Number(NAT64.base) == 0x1_0000_0000 * 0x64_ff9b_0000_0000_0000_0000;
    hide Ipv6Number, Lead;
  }

  lemma LeadDigits(p: seq<nat>)
    requires IsHextets(p)
    ensures Lead(p) == 0xffff <==> IsMapped(p)
    ensures Lead(p) == 0 <==> IsIpv4Compatible(p)
    ensures Lead(p) == 0x64_ff9b_0000_0000_0000_0000 <==> IsNat64(p)
  {
    MappedDigits(p);
    CompatibleDigits(p);
    Nat64Digits(p);
    hide Lead, IsMapped, IsIpv4Compatible, IsNat64;
  }

  lemma MappedDigits(p: seq<nat>)
    requires IsHextets(p)
    ensures Lead(p) == 0xffff <==> IsMapped(p)
  {
    assert AllZero(p[..5]) <==> p[0] == p[1] == p[2] == p[3] == p[4] == 0 by {
      assert p[..5] == [p[0], p[1], p[2], p[3], p[4]];
    }
    hide AllZero;
  }

  lemma CompatibleDigits(p: seq<nat>)
    requires IsHextets(p)
    ensures Lead(p) == 0 <==> IsIpv4Compatible(p)
  {
    assert AllZero(p[..6]) <==> p[0] == p[1] == p[2] == p[3] == p[4] == p[5] == 0 by {
      assert p[..6] == [p[0], p[1], p[2], p[3], p[4], p[5]];
    }
    hide AllZero;
  }

  lemma Nat64Digits(p: seq<nat>)
    requires IsHextets(p)
    ensures Lead(p) == 0x64_ff9b_0000_0000_0000_0000 <==> IsNat64(p)
  {
    assert AllZero(p[2..6]) <==> p[2] == p[3] == p[4] == p[5] == 0 by {
      assert p[2..6] == [p[2], p[3], p[4], p[5]];
    }
    hide AllZero;
    if Lead(p) == 0x64_ff9b_0000_0000_0000_0000 {
      DigitsUnique(p[0], p[1], p[2], p[3], p[4], p[5]);
    }
  }

  lemma DigitsUnique(a: nat, b: nat, c: nat, d: nat, e: nat, f: nat)
    requires a < 0x10000 && b < 0x10000 && c < 0x10000 && d < 0x10000 && e < 0x10000 && f < 0x10000
    requires 0x1_0000_0000_0000_0000_0000 * a + 0x1_0000_0000_0000_0000 * b + 0x1_0000_0000_0000 * c +
      0x1_0000_0000 * d + 0x1_0000 * e + f == 0x64_ff9b_0000_0000_0000_0000
    ensures a == 0x64 && b == 0xff9b && c == d == e == f == 0
  {
    var tail := 0x1_0000_0000_0000_0000 * b + 0x1_0000_0000_0000 * c + 0x1_0000_0000 * d + 0x1_0000 * e + f;
    assert tail < 0x1_0000_0000_0000_0000_0000;
    assert a == 0x64;
    var tail2 := 0x1_0000_0000_0000 * c + 0x1_0000_0000 * d + 0x1_0000 * e + f;
    assert tail2 < 0x1_0000_0000_0000_0000;
    assert b == 0xff9b;
  }

  /** The 32 bits after the first hextet. */
  lemma MiddleBits(p: seq<nat>)
    requires IsHextets(p)
    ensures Ipv6Number(p) / 0x1_0000_0000_0000_0000_0000 % 0x1_0000_0000 == 0x1_0000 * p[1] + p[2]
  {
    var rest := 0x1_0000_0000_0000_0000 * p[3] + 0x1_0000_0000_0000 * p[4] + 0x1_0000_0000 * p[5] + 0x1_0000 * p[6] + p[7];
    var lead := 0x1_0000_0000 * p[0] + (0x1_0000 * p[1] + p[2]);
    assert Ipv6Number(p) == 0x1_0000_0000_0000_0000_0000 * lead + rest;
    assert Ipv6Number(p) / 0x1_0000_0000_0000_0000_0000 == lead;
    Remainder(p[0], 0x1_0000 * p[1] + p[2]);
  }

  /** The quad of two hextets is private exactly when their 32 bits lie in one of the twelve blocks. */
  lemma PairIsPrivate(high: nat, low: nat)
    requires high < 0x10000 && low < 0x10000
    ensures IsPrivateIpv4(HextetsToIpv4(high, low)) <==> InPrivateBlock4(0x1_0000 * high + low)
  {
    var p := HextetsToIpv4(high, low);
    assert IsQuad(p) && Ipv4Number(p) == 0x1_0000 * high + low;
    QuadIsPrivate(p);
  }

  lemma QuadIsPrivate(p: seq<nat>)
    requires IsQuad(p)
    ensures IsPrivateIpv4(p) <==> InPrivateBlock4(Ipv4Number(p))
  {
    PrivateIpv4Blocks(p);
    hide IsPrivateIpv4, Ipv4Number;
    forall k | 0 <= k < |NON_PUBLIC_BLOCKS|
      ensures NumberInBlock(Ipv4Number(p), NON_PUBLIC_BLOCKS[k]) <==> InBlock(p, NON_PUBLIC_BLOCKS[k])
    {}
    hide NumberInBlock, InBlock;
  }

  /** Where the code looks for an embedded address, in its terms. */
  predicate EmbedsLast(p: seq<nat>)
    requires |p| == 8
  {
    IsMapped(p) || IsNat64(p) || IsIpv4Compatible(p)
  }

  lemma EmbedsExactly(p: seq<nat>, ipv4: nat)
    requires IsHextets(p)
    ensures Embeds(Ipv6Number(p), ipv4) <==>
      (EmbedsLast(p) && ipv4 == 0x1_0000 * p[6] + p[7]) || (p[0] == 0x2002 && ipv4 == 0x1_0000 * p[1] + p[2])
  {
    LeadBlocks(p);
    FirstHextetBlocks(p);
    LastBits(p);
    MiddleBits(p);
    hide InBlock6, IsMapped, IsNat64, IsIpv4Compatible, Ipv6Number, Lead;
  }

  lemma JudgedExactly(p: seq<nat>)
    requires IsHextets(p)
    ensures IsPrivateIpv6(p) <==>
      || IsPrivateIpv6Range(p) || (EmbedsLast(p) && InPrivateBlock4(0x1_0000 * p[6] + p[7]))
      || (p[0] == 0x2002 && InPrivateBlock4(0x1_0000 * p[1] + p[2]))
  {
    PairIsPrivate(p[6], p[7]);
    PairIsPrivate(p[1], p[2]);
    EmbeddedExactly(p);
    hide InPrivateBlock4, IsPrivateIpv4, HextetsToIpv4, IsPrivateIpv6Range, IsMapped, IsNat64, IsIpv4Compatible,
      EmbeddedTransitionIpv4;
  }

  /**
   Main result: an IPv6 address is private exactly when its number lies in one of six blocks, or an IPv4 address that it
   embeds has a number in one of the twelve.
   */
  lemma PrivateIpv6Exactly(p: seq<nat>)
    requires IsHextets(p)
    ensures IsPrivateIpv6(p) <==>
      InPrivateBlock6(Ipv6Number(p)) || exists ipv4 :: Embeds(Ipv6Number(p), ipv4) && InPrivateBlock4(ipv4)
  {
    hide InPrivateBlock6, InPrivateBlock4, IsPrivateIpv6, IsPrivateIpv6Range, EmbedsLast, Embeds, Ipv6Number;
    PrivateIpv6Blocks(p);
    JudgedExactly(p);
    EmbedsExactly(p, 0x1_0000 * p[6] + p[7]);
    EmbedsExactly(p, 0x1_0000 * p[1] + p[2]);
    if ipv4: nat :| Embeds(Ipv6Number(p), ipv4) && InPrivateBlock4(ipv4) {
      EmbedsExactly(p, ipv4);
    }
  }

  /** Some embedded address is private; a mapped one embeds nothing else. */
  lemma EmbeddedExactly(p: seq<nat>)
    requires IsHextets(p)
    ensures (exists ip :: ip in EmbeddedTransitionIpv4(p) && IsPrivateIpv4(ip)) <==>
      ((IsNat64(p) || IsIpv4Compatible(p)) && IsPrivateIpv4(HextetsToIpv4(p[6], p[7]))) ||
      (p[0] == 0x2002 && IsPrivateIpv4(HextetsToIpv4(p[1], p[2])))
    ensures IsMapped(p) ==> !IsNat64(p) && !IsIpv4Compatible(p) && p[0] != 0x2002
  {
    if IsMapped(p) {
      assert p[..5][0] == 0;
      assert p[..6][5] == 0xffff;
    }
    hide IsPrivateIpv4, HextetsToIpv4, IsMapped;
    var last, middle := HextetsToIpv4(p[6], p[7]), HextetsToIpv4(p[1], p[2]);
    assert forall ip :: ip in EmbeddedTransitionIpv4(p) <==>
      (ip == last && (IsNat64(p) || IsIpv4Compatible(p))) || (ip == middle && p[0] == 0x2002);
  }

  // ----- Any text -----

  lemma FieldBelow(s: string)
    requires IsField(s)
    ensures HexValue(s) < 0x10000
  {
    HexBelow(s);
    Hextet();
    Pow2Adds(8, 4);
    assert 4 * |s| in {4, 8, 12, 16};
  }

  lemma {:induction false} HexBelow(s: string)
    requires AllHex(s)
    ensures HexValue(s) < Pow2(4 * |s|)
  {
    if s != [] {
      HexBelow(s[..|s| - 1]);
      Hextet();
      Pow2Adds(4, 4 * (|s| - 1));
      assert 4 + 4 * (|s| - 1) == 4 * |s|;
    }
  }

  lemma ParsedBelow(section: string)
    ensures var r := ParseHextets(section); r.Some? ==> Below(r.value)
  {
    if section != [] && AreFields(Split(section, ':')) {
      var parts := Split(section, ':');
      forall i | 0 <= i < |parts|
        ensures FieldValues(parts)[i] < 0x10000
      {
        FieldBelow(parts[i]);
      }
    }
  }

  predicate Below(values: seq<nat>) {
    forall i :: 0 <= i < |values| ==> values[i] < 0x10000
  }

  lemma JoinedBelow(head: seq<nat>, missing: nat, tail: seq<nat>)
    requires Below(head) && Below(tail)
    ensures Below(head + Zeros(missing) + tail)
  {}

  lemma PreparedBelow(prepared: string)
    ensures ExpandPrepared(prepared).Some? ==> IsHextets(ExpandPrepared(prepared).value)
  {
    var sections := SplitDouble(prepared);
    var head := ParseHextets(sections[0]);
    var tail := if |sections| == 2 then ParseHextets(sections[1]) else Some([]);
    ParsedBelow(sections[0]);
    if |sections| == 2 {
      ParsedBelow(sections[1]);
    }
    hide ParseHextets, SplitDouble, Zeros;
    if head.Some? && tail.Some? && 8 - |head.value| - |tail.value| >= 0 {
      JoinedBelow(head.value, 8 - |head.value| - |tail.value|, tail.value);
    }
  }

  lemma ExpandedBelow(s: string)
    ensures ExpandIpv6(s).Some? ==> IsHextets(ExpandIpv6(s).value)
  {
    hide ExpandPrepared, ReplaceIpv4Tail, Split;
    PreparedBelow(ReplaceIpv4Tail(Split(s, '%')[0]));
  }

  /** The number of the text's address lies in none of the private blocks, alone or embedded. */
  ghost predicate SpellsPublic(text: string) {
    if IsIpv4Address(text) then !InPrivateBlock4(Ipv4Number(Ipv4Parts(text)))
    else
      ExpandIpv6(text).Some? && |ExpandIpv6(text).value| == 8 &&
      IsPublicNumber(Ipv6Number(ExpandIpv6(text).value))
  }

  ghost predicate IsPublicNumber(n: nat) {
    !InPrivateBlock6(n) && forall ipv4 :: Embeds(n, ipv4) ==> !InPrivateBlock4(ipv4)
  }

  /** A text is public exactly when it is an address, of either kind, that lies in no private block; what cannot be read is private. */
  lemma PublicExactly(address: string)
    ensures !IsPrivateAddress(address) <==> SpellsPublic(LowerCase(StripBrackets(address)))
  {
    var text := LowerCase(StripBrackets(address));
    ExpandedBelow(text);
    hide LowerCase, StripBrackets, ExpandIpv6, IsPrivateIpv4, IsPrivateIpv6, InPrivateBlock4, InPrivateBlock6, Embeds,
      Ipv6Number, Ipv4Number;
    if IsIpv4Address(text) {
      QuadIsPrivate(Ipv4Parts(text));
    } else if ExpandIpv6(text).Some? {
      PrivateIpv6Exactly(ExpandIpv6(text).value);
    }
  }
}
