/**
 The spellings of an IPv6 address that the parser accepts, and what the classifier makes of
 them. They are those of section 2.2 of RFC 4291 and a little more (see `AddressLiberties`).
 */
module AddressSpellings {
  import opened Options
  import opened PrivateAddress
  import opened Strings

  // ----- The spellings -----

  /** Groups between single colons; the last one may be a dotted IPv4 address, with any number of leading zeros. */
  predicate GroupsOk(groups: seq<string>) {
    groups != [] ==>
      AreFields(groups[..|groups| - 1]) && (IsField(groups[|groups| - 1]) || IsIpv4Address(groups[|groups| - 1]))
  }

  predicate EndsInIpv4(groups: seq<string>) {
    groups != [] && IsIpv4Address(groups[|groups| - 1])
  }

  /** The two hextets of a dotted address. */
  function DottedHextets(q: string): (r: seq<nat>)
    requires IsIpv4Address(q)
  {
    var p := Ipv4Parts(q);
    [256 * p[0] + p[1], 256 * p[2] + p[3]]
  }

  function GroupValues(groups: seq<string>): seq<nat>
    requires GroupsOk(groups)
  {
    if EndsInIpv4(groups) then FieldValues(groups[..|groups| - 1]) + DottedHextets(groups[|groups| - 1])
    else
      GroupsAreFields(groups);
      FieldValues(groups)
  }

  lemma GroupsAreFields(groups: seq<string>)
    requires GroupsOk(groups) && !EndsInIpv4(groups)
    ensures AreFields(groups)
  {
    if groups != [] {
      assert groups == groups[..|groups| - 1] + [groups[|groups| - 1]];
      assert forall i :: 0 <= i < |groups| - 1 ==> groups[i] == groups[..|groups| - 1][i];
    }
  }

  /** All groups, or those before and after "::". */
  datatype Address = Full(groups: seq<string>) | Compressed(head: seq<string>, tail: seq<string>)

  /** `gap` is the least number of zero groups that "::" stands for. */
  predicate Spells(a: Address, gap: nat) {
    match a
    case Full(groups) => GroupsOk(groups) && |GroupValues(groups)| == 8
    case Compressed(head, tail) => AreFields(head) && GroupsOk(tail) && |head| + |GroupValues(tail)| + gap <= 8
  }

  function Text(a: Address): string {
    match a
    case Full(groups) => Join(groups, ':')
    case Compressed(head, tail) => Join(head, ':') + [':', ':'] + Join(tail, ':')
  }

  function Hextets(a: Address): seq<nat>
    requires Spells(a, 0)
  {
    match a
    case Full(groups) => GroupValues(groups)
    case Compressed(head, tail) =>
      FieldValues(head) + Zeros(8 - |head| - |GroupValues(tail)|) + GroupValues(tail)
  }

  /** Nothing, or a zone identifier. */
  predicate IsZone(zone: string) {
    zone != [] ==> zone[0] == '%'
  }

  // ----- Joined fields -----

  lemma FieldChars(f: string)
    requires IsField(f)
    ensures ':' !in f && '.' !in f && '%' !in f && '[' !in f
  {}

  lemma ParseJoined(fields: seq<string>)
    requires AreFields(fields)
    ensures ParseHextets(Join(fields, ':')) == Some(FieldValues(fields))
  {
    if fields != [] {
      forall i | 0 <= i < |fields|
        ensures ':' !in fields[i]
      {
        FieldChars(fields[i]);
      }
      JoinSplit(fields, ':');
      Isolated(fields);
    }
  }

  /** No two colons meet in joined fields, and none is at an end. */
  lemma {:induction false} Isolated(fields: seq<string>)
    requires AreFields(fields)
    ensures var s := Join(fields, ':');
      && (fields != [] ==> s != [] && s[0] != ':' && s[|s| - 1] != ':')
      && forall k :: !DoubleAt(s, k)
  {
    if fields != [] {
      FieldChars(fields[0]);
      if |fields| > 1 {
        Isolated(fields[1..]);
        var rest, s := Join(fields[1..], ':'), Join(fields, ':');
        assert s == fields[0] + [':'] + rest;
        forall k
          ensures !DoubleAt(s, k)
        {
          if |fields[0]| < k < |s| - 1 {
            assert !DoubleAt(rest, k - |fields[0]| - 1);
          }
        }
      }
    }
  }

  lemma SectionsOfFull(fields: seq<string>)
    requires AreFields(fields)
    ensures SplitDouble(Join(fields, ':')) == [Join(fields, ':')]
  {
    Isolated(fields);
  }

  lemma SectionsOfCompressed(head: seq<string>, tail: seq<string>)
    requires AreFields(head) && AreFields(tail)
    ensures SplitDouble(Text(Compressed(head, tail))) == [Join(head, ':'), Join(tail, ':')]
  {
    var h, t := Join(head, ':'), Join(tail, ':');
    var s := h + [':', ':'] + t;
    Isolated(head);
    assert DoubleAt(s, |h|);
    forall k | 0 <= k < |h|
      ensures !DoubleAt(s, k)
    {
      assert !DoubleAt(h, k);
    }
    assert FindDouble(s, 0) == |h|;
    assert s[..|h|] == h && s[|h| + 2..] == t;
    SectionsOfFull(tail);
  }

  // ----- Spellings without a dotted tail -----

  predicate FieldsOnly(a: Address) {
    match a
    case Full(groups) => AreFields(groups)
    case Compressed(head, tail) => AreFields(head) && AreFields(tail)
  }

  function FieldHextets(a: Address): Option<seq<nat>>
    requires FieldsOnly(a)
  {
    match a
    case Full(groups) => if |groups| == 8 then Some(FieldValues(groups)) else None
    case Compressed(head, tail) =>
      if |head| + |tail| <= 8 then Some(FieldValues(head) + Zeros(8 - |head| - |tail|) + FieldValues(tail)) else None
  }

  lemma ExpandFields(a: Address)
    requires FieldsOnly(a)
    ensures ExpandPrepared(Text(a)) == FieldHextets(a)
  {
    match a
    case Full(groups) =>
      SectionsOfFull(groups);
      ParseJoined(groups);
      assert FieldValues(groups) + Zeros(0) + [] == FieldValues(groups);
    case Compressed(head, tail) =>
      SectionsOfCompressed(head, tail);
      ParseJoined(head);
      ParseJoined(tail);
  }

  // ----- The dotted tail -----

  lemma {:induction false} ToHexSpells(n: nat, digits: nat)
    requires digits >= 1 && n < Power16(digits)
    ensures 1 <= |ToHex(n)| <= digits && AllHex(ToHex(n)) && HexValue(ToHex(n)) == n
    decreases digits
  {
    if n < 16 {
      assert ToHex(n)[..0] == [];
    } else {
      assert digits > 1;
      ToHexSpells(n / 16, digits - 1);
      assert ToHex(n)[..|ToHex(n)| - 1] == ToHex(n / 16);
    }
  }

  function Power16(k: nat): nat {
    if k == 0 then 1 else 16 * Power16(k - 1)
  }

  lemma HextetText(a: nat, b: nat)
    requires a <= 255 && b <= 255
    ensures IsField(ToHex(256 * a + b)) && HexValue(ToHex(256 * a + b)) == 256 * a + b
  {
    assert Power16(4) == 65536;
    ToHexSpells(256 * a + b, 4);
  }

  /** The groups with a dotted tail replaced by its two fields. */
  function Undotted(groups: seq<string>): seq<string> {
    if EndsInIpv4(groups) then
      var p := Ipv4Parts(groups[|groups| - 1]);
      groups[..|groups| - 1] + [ToHex(256 * p[0] + p[1]), ToHex(256 * p[2] + p[3])]
    else groups
  }

  lemma UndottedFields(groups: seq<string>)
    requires GroupsOk(groups)
    ensures AreFields(Undotted(groups)) && FieldValues(Undotted(groups)) == GroupValues(groups)
  {
    hide ToHex, HexValue, AllHex, IsDotted, Ipv4Parts;
    if EndsInIpv4(groups) {
      var p := Ipv4Parts(groups[|groups| - 1]);
      HextetText(p[0], p[1]);
      HextetText(p[2], p[3]);
    } else {
      GroupsAreFields(groups);
    }
  }

  lemma DottedChars(q: string)
    requires IsDotted(q)
    ensures forall i :: 0 <= i < |q| ==> IsDigit(q[i]) || q[i] == '.'
  {
    forall i | 0 <= i < |q| && q[i] != '.'
      ensures IsDigit(q[i])
    {
      SplitCovers(q, '.', i);
    }
  }

  lemma FieldIsNotDotted(f: string)
    requires '.' !in f
    ensures !IsDotted(f)
  {
    SplitFirst(f, [], '.');
  }

  lemma LastColonOf(x: string, last: string)
    requires (x != [] ==> x[|x| - 1] == ':') && ':' !in last
    ensures LastColon(x + last) == |x| - 1
  {
    var s := x + last;
    assert forall k :: |x| <= k < |s| ==> s[k] == last[k - |x|];
    assert x != [] ==> s[|x| - 1] == ':';
  }

  /** Replacing the tail of a text that ends in a group after a colon. */
  lemma ReplaceLast(x: string, last: string)
    requires (x != [] ==> x[|x| - 1] == ':') && ':' !in last
    ensures ReplaceIpv4Tail(x + last) == if IsIpv4Address(last) then x + HextetPair(Ipv4Parts(last)) else x + last
  {
    LastColonOf(x, last);
    assert (x + last)[|x|..] == last && (x + last)[..|x|] == x;
  }

  lemma LastGroupHasNoColon(groups: seq<string>)
    requires GroupsOk(groups) && groups != []
    ensures ':' !in groups[|groups| - 1]
  {
    var last := groups[|groups| - 1];
    if IsIpv4Address(last) {
      DottedChars(last);
    } else {
      FieldChars(last);
    }
  }

  /** What comes before the last group. */
  function Lead(groups: seq<string>): string
    requires groups != []
  {
    if |groups| == 1 then [] else Join(groups[..|groups| - 1], ':') + [':']
  }

  lemma LeadAndLast(groups: seq<string>)
    requires groups != []
    ensures Join(groups, ':') == Lead(groups) + groups[|groups| - 1]
  {
    var init, last := groups[..|groups| - 1], groups[|groups| - 1];
    assert groups == init + [last];
    if init != [] {
      JoinAppend(init, [last], ':');
    }
  }

  lemma LeadAndPair(groups: seq<string>)
    requires EndsInIpv4(groups)
    ensures Join(Undotted(groups), ':') == Lead(groups) + HextetPair(Ipv4Parts(groups[|groups| - 1]))
  {
    hide ToHex, IsDotted, Ipv4Parts;
    var init, p := groups[..|groups| - 1], Ipv4Parts(groups[|groups| - 1]);
    var pair := [ToHex(256 * p[0] + p[1]), ToHex(256 * p[2] + p[3])];
    assert Join(pair, ':') == HextetPair(p) by {
      assert pair[1..] == [pair[1]];
    }
    if init == [] {
      assert Undotted(groups) == pair;
    } else {
      JoinAppend(init, pair, ':');
    }
  }

  /** Behind a text that ends in a colon, a dotted last group becomes two fields and other groups stay. */
  lemma ReplaceGroups(x: string, groups: seq<string>)
    requires (x != [] ==> x[|x| - 1] == ':') && GroupsOk(groups)
    requires groups == [] ==> x != []
    ensures ReplaceIpv4Tail(x + Join(groups, ':')) == x + Join(Undotted(groups), ':')
  {
    hide ReplaceIpv4Tail, Join, IsIpv4Address, HextetPair, Ipv4Parts, GroupsOk, Lead, ToHex;
    if groups == [] {
      EmptyTail(x);
    } else {
      LastGroupHasNoColon(groups);
      LeadAndLast(groups);
      LeadEndsInColon(x, groups);
      ReplaceLast(x + Lead(groups), groups[|groups| - 1]);
      Regrouped(x, groups);
    }
  }

  lemma EmptyTail(x: string)
    requires x != [] && x[|x| - 1] == ':'
    ensures ReplaceIpv4Tail(x + Join([], ':')) == x + Join(Undotted([]), ':')
  {
    FieldIsNotDotted([]);
    ReplaceLast(x, []);
    assert x + [] == x;
  }

  lemma LeadEndsInColon(x: string, groups: seq<string>)
    requires groups != [] && (x != [] ==> x[|x| - 1] == ':')
    ensures var lead := x + Lead(groups); lead != [] ==> lead[|lead| - 1] == ':'
  {}

  lemma Regrouped(x: string, groups: seq<string>)
    requires groups != []
    requires Join(groups, ':') == Lead(groups) + groups[|groups| - 1]
    ensures x + Join(groups, ':') == x + Lead(groups) + groups[|groups| - 1]
    ensures x + Join(Undotted(groups), ':') == x + Lead(groups) +
      if EndsInIpv4(groups) then HextetPair(Ipv4Parts(groups[|groups| - 1])) else groups[|groups| - 1]
  {
    hide Lead, Join, HextetPair, Ipv4Parts, ToHex, IsDotted;
    if EndsInIpv4(groups) {
      LeadAndPair(groups);
      Associates(x, Lead(groups), HextetPair(Ipv4Parts(groups[|groups| - 1])));
    } else {
      Associates(x, Lead(groups), groups[|groups| - 1]);
    }
  }

  lemma Associates(a: string, b: string, c: string)
    ensures a + (b + c) == a + b + c
  {}

  function UndottedAddress(a: Address): Address {
    match a
    case Full(groups) => Full(Undotted(groups))
    case Compressed(head, tail) => Compressed(head, Undotted(tail))
  }

  lemma ReplaceText(a: Address)
    requires Spells(a, 0)
    ensures ReplaceIpv4Tail(Text(a)) == Text(UndottedAddress(a))
    ensures FieldsOnly(UndottedAddress(a)) && FieldHextets(UndottedAddress(a)) == Some(Hextets(a))
  {
    match a
    case Full(groups) =>
      assert groups != [];
      ReplaceGroups([], groups);
      assert [] + Join(groups, ':') == Join(groups, ':');
      assert [] + Join(Undotted(groups), ':') == Join(Undotted(groups), ':');
      UndottedFields(groups);
    case Compressed(head, tail) =>
      ReplaceGroups(Join(head, ':') + [':', ':'], tail);
      UndottedFields(tail);
  }

  // ----- Zones, brackets and case -----

  /** Hexadecimal digits, colons and dots. */
  predicate Plain(s: string) {
    forall i :: 0 <= i < |s| ==> IsHex(s[i]) || s[i] == ':' || s[i] == '.'
  }

  lemma {:induction false} JoinPlain(groups: seq<string>)
    requires forall i :: 0 <= i < |groups| ==> Plain(groups[i])
    ensures Plain(Join(groups, ':'))
  {
    if |groups| > 1 {
      JoinPlain(groups[1..]);
    }
  }

  lemma GroupsPlain(groups: seq<string>)
    requires GroupsOk(groups)
    ensures Plain(Join(groups, ':'))
  {
    forall i | 0 <= i < |groups|
      ensures Plain(groups[i])
    {
      if i < |groups| - 1 {
        assert groups[i] == groups[..|groups| - 1][i];
      } else if IsIpv4Address(groups[i]) {
        DottedChars(groups[i]);
      }
    }
    JoinPlain(groups);
  }

  lemma FieldsOk(fields: seq<string>)
    requires AreFields(fields)
    ensures GroupsOk(fields)
  {}

  lemma TextPlain(a: Address)
    requires Spells(a, 0)
    ensures Plain(Text(a)) && Text(a) != [] && exists i :: 0 <= i < |Text(a)| && Text(a)[i] == ':'
  {
    match a
    case Full(groups) =>
      GroupsPlain(groups);
      LeadAndLast(groups);
      assert |groups| > 1;
      assert Text(a)[|Lead(groups)| - 1] == ':';
    case Compressed(head, tail) =>
      FieldsOk(head);
      GroupsPlain(head);
      GroupsPlain(tail);
      assert Text(a)[|Join(head, ':')|] == ':';
  }

  lemma WithoutZone(text: string, zone: string)
    requires Plain(text) && IsZone(zone)
    ensures Split(text + zone, '%')[0] == text
  {
    if zone == [] {
      SplitFirst(text, [], '%');
      assert text + zone == text;
    } else {
      SplitFirst(text, zone[1..], '%');
      assert text + zone == text + ['%'] + zone[1..];
    }
  }

  /** Every spelling expands to its eight hextets. */
  lemma ExpandSpelling(a: Address, zone: string)
    requires Spells(a, 0) && IsZone(zone)
    ensures ExpandIpv6(Text(a) + zone) == Some(Hextets(a))
  {
    TextPlain(a);
    WithoutZone(Text(a), zone);
    ReplaceText(a);
    ExpandFields(UndottedAddress(a));
  }

  function LowerGroups(groups: seq<string>): (r: seq<string>)
    ensures |r| == |groups|
  {
    seq(|groups|, i requires 0 <= i < |groups| => LowerCase(groups[i]))
  }

  function LowerAddress(a: Address): Address {
    match a
    case Full(groups) => Full(LowerGroups(groups))
    case Compressed(head, tail) => Compressed(LowerGroups(head), LowerGroups(tail))
  }

  lemma {:induction false} LowerJoin(groups: seq<string>)
    ensures LowerCase(Join(groups, ':')) == Join(LowerGroups(groups), ':')
  {
    if |groups| > 1 {
      LowerJoin(groups[1..]);
      assert LowerGroups(groups)[1..] == LowerGroups(groups[1..]);
    }
  }

  lemma {:induction false} LowerValue(f: string)
    requires AllHex(f)
    ensures AllHex(LowerCase(f)) && HexValue(LowerCase(f)) == HexValue(f)
  {
    if f != [] {
      LowerValue(f[..|f| - 1]);
      assert LowerCase(f)[..|f| - 1] == LowerCase(f[..|f| - 1]);
    }
  }

  lemma LowerFields(fields: seq<string>)
    requires AreFields(fields)
    ensures AreFields(LowerGroups(fields)) && FieldValues(LowerGroups(fields)) == FieldValues(fields)
  {
    forall i | 0 <= i < |fields|
      ensures IsField(LowerGroups(fields)[i]) && HexValue(LowerGroups(fields)[i]) == HexValue(fields[i])
    {
      LowerValue(fields[i]);
    }
  }

  lemma DottedIsLower(q: string)
    requires IsDotted(q)
    ensures LowerCase(q) == q
  {
    DottedChars(q);
  }

  lemma LowerGroupsOk(groups: seq<string>)
    requires GroupsOk(groups)
    ensures GroupsOk(LowerGroups(groups)) && GroupValues(LowerGroups(groups)) == GroupValues(groups)
  {
    if groups != [] {
      var init, last := groups[..|groups| - 1], groups[|groups| - 1];
      assert LowerGroups(groups)[..|groups| - 1] == LowerGroups(init);
      LowerFields(init);
      if IsIpv4Address(last) {
        DottedIsLower(last);
      } else {
        GroupsAreFields(groups);
        LowerFields(groups);
        FieldChars(LowerCase(last));
        FieldIsNotDotted(LowerCase(last));
      }
    }
  }

  lemma LowerSpells(a: Address)
    requires Spells(a, 0)
    ensures Spells(LowerAddress(a), 0) && Hextets(LowerAddress(a)) == Hextets(a)
    ensures LowerCase(Text(a)) == Text(LowerAddress(a))
  {
    hide Join, LowerCase, GroupsOk, GroupValues, FieldValues, LowerGroups, AreFields, Zeros;
    match a
    case Full(groups) =>
      LowerGroupsOk(groups);
      LowerJoin(groups);
    case Compressed(head, tail) =>
      LowerFields(head);
      LowerGroupsOk(tail);
      LowerJoin(head);
      LowerJoin(tail);
      LowerConcat(Join(head, ':'), [':', ':']);
      LowerConcat(Join(head, ':') + [':', ':'], Join(tail, ':'));
      LowerColons();
  }

  lemma LowerConcat(a: string, b: string)
    ensures LowerCase(a + b) == LowerCase(a) + LowerCase(b)
  {}

  lemma LowerColons()
    ensures LowerCase([':', ':']) == [':', ':']
  {}

  /** The text in brackets or without. */
  function Written(text: string, bracketed: bool): string {
    if bracketed then ['['] + text + [']'] else text
  }

  lemma StripWritten(text: string, bracketed: bool)
    requires text != [] && text[0] != '['
    ensures StripBrackets(Written(text, bracketed)) == text
  {}

  lemma ColonIsNotIpv4(s: string, i: nat)
    requires i < |s| && s[i] == ':'
    ensures !IsIpv4Address(s)
  {
    if IsDotted(s) {
      DottedChars(s);
    }
  }

  /** Every spelling of an address, in either case, with or without zone and brackets, gets the class of its hextets. */
  lemma SpellingsAgree(a: Address, zone: string, bracketed: bool)
    requires Spells(a, 0) && IsZone(zone)
    ensures IsPrivateAddress(Written(Text(a) + zone, bracketed)) == IsPrivateIpv6(Hextets(a))
  {
    hide Spells, Text, Hextets, LowerAddress, IsPrivateIpv6, IsIpv4Address, ExpandIpv6, LowerCase, StripBrackets;
    TextPlain(a);
    StripWritten(Text(a) + zone, bracketed);
    LowerSpells(a);
    LowerConcat(Text(a), zone);
    LowerZone(zone);
    TextPlain(LowerAddress(a));
    ExpandSpelling(LowerAddress(a), LowerCase(zone));
    var i :| 0 <= i < |Text(LowerAddress(a))| && Text(LowerAddress(a))[i] == ':';
    ColonIsNotIpv4(Text(LowerAddress(a)) + LowerCase(zone), i);
  }

  lemma LowerZone(zone: string)
    requires IsZone(zone)
    ensures IsZone(LowerCase(zone))
  {}

  // ----- Embedded IPv4 addresses -----

  predicate IsQuad(p: seq<nat>) {
    |p| == 4 && forall i :: 0 <= i < 4 ==> p[i] <= 255
  }

  lemma QuadOfHextets(p: seq<nat>)
    requires IsQuad(p)
    ensures HextetsToIpv4(256 * p[0] + p[1], 256 * p[2] + p[3]) == p
  {}

  /** 0.0.0.0/8 is private, which covers "::" and "::1" seen as compatible addresses. */
  lemma ThisNetworkIsPrivate(p: seq<nat>)
    requires IsQuad(p) && p[0] == 0
    ensures IsPrivateIpv4(p)
  {
    assert MatchesIpv4Range(p, NON_PUBLIC_IPV4_RANGES[0]);
  }

  function MappedAddress(p: seq<nat>): seq<nat>
    requires IsQuad(p)
  {
    [0, 0, 0, 0, 0, 0xffff, 256 * p[0] + p[1], 256 * p[2] + p[3]]
  }

  function CompatibleAddress(p: seq<nat>): seq<nat>
    requires IsQuad(p)
  {
    [0, 0, 0, 0, 0, 0, 256 * p[0] + p[1], 256 * p[2] + p[3]]
  }

  function Nat64Address(p: seq<nat>): seq<nat>
    requires IsQuad(p)
  {
    [0x64, 0xff9b, 0, 0, 0, 0, 256 * p[0] + p[1], 256 * p[2] + p[3]]
  }

  function SixToFourAddress(p: seq<nat>, rest: seq<nat>): seq<nat>
    requires IsQuad(p) && |rest| == 5
  {
    [0x2002, 256 * p[0] + p[1], 256 * p[2] + p[3]] + rest
  }

  /** The transition forms lie outside the IPv6 ranges, but for the two addresses that are all zero up to a last 1. */
  lemma TransitionRange(parts: seq<nat>)
    requires |parts| == 8 && parts[0] in [0, 0x64, 0x2002]
    ensures IsPrivateIpv6Range(parts) <==> AllZero(parts) || (AllZero(parts[..7]) && parts[7] == 1)
  {}

  lemma NonZero(parts: seq<nat>, n: nat, i: nat)
    requires i < n <= |parts| && parts[i] != 0
    ensures !AllZero(parts[..n]) && !AllZero(parts)
  {
    assert parts[..n][i] != 0;
  }

  lemma ZeroPrefix(parts: seq<nat>, n: nat)
    requires n <= |parts| && forall i :: 0 <= i < n ==> parts[i] == 0
    ensures AllZero(parts[..n])
  {}

  lemma JudgedByMapped(parts: seq<nat>, p: seq<nat>)
    requires |parts| == 8 && !IsPrivateIpv6Range(parts) && IsMapped(parts) && HextetsToIpv4(parts[6], parts[7]) == p
    ensures IsPrivateIpv6(parts) == IsPrivateIpv4(p)
  {}

  lemma JudgedByTransition(parts: seq<nat>, p: seq<nat>)
    requires |parts| == 8 && !IsMapped(parts) && EmbeddedTransitionIpv4(parts) == [p]
    requires IsPrivateIpv6Range(parts) ==> IsPrivateIpv4(p)
    ensures IsPrivateIpv6(parts) == IsPrivateIpv4(p)
  {
    hide IsPrivateIpv4, IsPrivateIpv6Range, EmbeddedTransitionIpv4, IsMapped;
    assert p in [p];
  }

  lemma MappedIsJudgedByIpv4(p: seq<nat>)
    requires IsQuad(p)
    ensures IsPrivateIpv6(MappedAddress(p)) == IsPrivateIpv4(p)
  {
    hide IsPrivateIpv4, IsPrivateIpv6, IsPrivateIpv6Range, HextetsToIpv4;
    var a := MappedAddress(p);
    QuadOfHextets(p);
    TransitionRange(a);
    NonZero(a, 7, 5);
    ZeroPrefix(a, 5);
    JudgedByMapped(a, p);
  }

  lemma CompatibleIsJudgedByIpv4(p: seq<nat>)
    requires IsQuad(p)
    ensures IsPrivateIpv6(CompatibleAddress(p)) == IsPrivateIpv4(p)
  {
    hide IsPrivateIpv4, IsPrivateIpv6, IsPrivateIpv6Range, HextetsToIpv4;
    var a := CompatibleAddress(p);
    QuadOfHextets(p);
    TransitionRange(a);
    if p[0] == 0 {
      ThisNetworkIsPrivate(p);
    } else {
      NonZero(a, 7, 6);
    }
    ZeroPrefix(a, 6);
    JudgedByTransition(a, p);
  }

  lemma Nat64IsJudgedByIpv4(p: seq<nat>)
    requires IsQuad(p)
    ensures IsPrivateIpv6(Nat64Address(p)) == IsPrivateIpv4(p)
  {
    hide IsPrivateIpv4, IsPrivateIpv6, IsPrivateIpv6Range, HextetsToIpv4;
    var a := Nat64Address(p);
    QuadOfHextets(p);
    TransitionRange(a);
    NonZero(a, 7, 0);
    NonZero(a, 6, 0);
    NonZero(a, 5, 0);
    assert a[2..6] == [0, 0, 0, 0];
    JudgedByTransition(a, p);
  }

  lemma SixToFourIsJudgedByIpv4(p: seq<nat>, rest: seq<nat>)
    requires IsQuad(p) && |rest| == 5
    ensures IsPrivateIpv6(SixToFourAddress(p, rest)) == IsPrivateIpv4(p)
  {
    hide IsPrivateIpv4, IsPrivateIpv6, IsPrivateIpv6Range, HextetsToIpv4;
    var a := SixToFourAddress(p, rest);
    QuadOfHextets(p);
    TransitionRange(a);
    NonZero(a, 7, 0);
    NonZero(a, 6, 0);
    NonZero(a, 5, 0);
    JudgedByTransition(a, p);
  }

  /** A dotted address is judged the same alone and in every spelling of an IPv6 address that embeds it. */
  lemma EmbeddedIpv4JudgedAlike(q: string, a: Address, zone: string, bracketed: bool, rest: seq<nat>)
    requires IsIpv4Address(q) && Spells(a, 0) && IsZone(zone) && |rest| == 5
    requires Hextets(a) in [MappedAddress(Ipv4Parts(q)), CompatibleAddress(Ipv4Parts(q)), Nat64Address(Ipv4Parts(q)),
                            SixToFourAddress(Ipv4Parts(q), rest)]
    ensures IsPrivateAddress(Written(Text(a) + zone, bracketed)) == IsPrivateAddress(q)
  {
    hide IsPrivateIpv4, IsPrivateIpv6, Text, Spells, Hextets, Written;
    var p := Ipv4Parts(q);
    SpellingsAgree(a, zone, bracketed);
    MappedIsJudgedByIpv4(p);
    CompatibleIsJudgedByIpv4(p);
    Nat64IsJudgedByIpv4(p);
    SixToFourIsJudgedByIpv4(p, rest);
    PlainIpv4(q);
  }

  lemma PlainIpv4(q: string)
    requires IsIpv4Address(q)
    ensures IsPrivateAddress(q) == IsPrivateIpv4(Ipv4Parts(q))
  {
    hide IsPrivateIpv4;
    DottedIsLower(q);
    DottedChars(q);
    assert StripBrackets(q) == q;
  }

  // ----- The table against address blocks -----

  /** An address block: its first address and the number of addresses, a power of two. */
  datatype Block = Block(base: seq<nat>, size: nat)

  function Ipv4Number(p: seq<nat>): nat
    requires |p| == 4
  {
    0x1000000 * p[0] + 0x10000 * p[1] + 0x100 * p[2] + p[3]
  }

  predicate InBlock(p: seq<nat>, b: Block)
    requires |p| == 4 && |b.base| == 4
  {
    Ipv4Number(b.base) <= Ipv4Number(p) < Ipv4Number(b.base) + b.size
  }

  const NON_PUBLIC_BLOCKS: seq<Block> := [
    Block([0, 0, 0, 0], 0x1000000),
    Block([10, 0, 0, 0], 0x1000000),
    Block([127, 0, 0, 0], 0x1000000),
    Block([169, 254, 0, 0], 0x10000),
    Block([172, 16, 0, 0], 0x100000),
    Block([192, 168, 0, 0], 0x10000),
    Block([100, 64, 0, 0], 0x400000),
    Block([192, 0, 0, 0], 0x10000),
    Block([198, 18, 0, 0], 0x20000),
    Block([198, 51, 100, 0], 0x100),
    Block([203, 0, 113, 0], 0x100),
    Block([224, 0, 0, 0], 0x20000000)]

  lemma RangeIsBlock(p: seq<nat>, k: nat)
    requires IsQuad(p) && k < 12
    ensures |NON_PUBLIC_IPV4_RANGES| == |NON_PUBLIC_BLOCKS| == 12
    ensures |NON_PUBLIC_BLOCKS[k].base| == 4
    ensures MatchesIpv4Range(p, NON_PUBLIC_IPV4_RANGES[k]) <==> InBlock(p, NON_PUBLIC_BLOCKS[k])
  {}

  /** An IPv4 address is private exactly when its number lies in one of twelve blocks. */
  lemma PrivateIpv4Blocks(p: seq<nat>)
    requires IsQuad(p)
    ensures forall k :: 0 <= k < |NON_PUBLIC_BLOCKS| ==> |NON_PUBLIC_BLOCKS[k].base| == 4
    ensures IsPrivateIpv4(p) <==> exists k :: 0 <= k < |NON_PUBLIC_BLOCKS| && InBlock(p, NON_PUBLIC_BLOCKS[k])
  {
    hide InBlock, MatchesIpv4Range;
    forall k: nat | k < 12
      ensures |NON_PUBLIC_IPV4_RANGES| == |NON_PUBLIC_BLOCKS| == 12
      ensures |NON_PUBLIC_BLOCKS[k].base| == 4
      ensures MatchesIpv4Range(p, NON_PUBLIC_IPV4_RANGES[k]) <==> InBlock(p, NON_PUBLIC_BLOCKS[k])
    {
      RangeIsBlock(p, k);
    }
  }
}
