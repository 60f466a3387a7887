/**
 What the parser's grammar adds to section 2.2 of RFC 4291: "::" for no group at all, and
 leading zeros in the octets of a dotted tail. It adds nothing else.
 */
module AddressLiberties {
  import opened AddressParsing
  import opened AddressSpellings
  import opened Options
  import opened PrivateAddress
  import opened Strings

  // ----- Spellings of the RFC -----

  /** Each octet is the decimal text of its value, without leading zeros. */
  predicate CanonicalQuad(q: string)
    requires IsIpv4Address(q)
  {
    forall i :: 0 <= i < 4 ==> Split(q, '.')[i] == ToDecimal(Ipv4Parts(q)[i])
  }

  /** The groups at the end of the address. */
  function LastGroups(a: Address): seq<string> {
    match a
    case Full(groups) => groups
    case Compressed(_, tail) => tail
  }

  /** A dotted tail with leading zeros in some octet. */
  predicate Padded(a: Address) {
    var groups := LastGroups(a);
    EndsInIpv4(groups) && !CanonicalQuad(groups[|groups| - 1])
  }

  /** "::" between or beside eight groups. */
  predicate ForNoGroup(a: Address) {
    a.Compressed? && Spells(a, 0) && !Spells(a, 1)
  }

  /** Section 2.2 of RFC 4291: "::" stands for one group at least, and a dotted tail is in standard form. */
  predicate IsRfcSpelling(a: Address) {
    Spells(a, 1) && !Padded(a)
  }

  lemma WithoutLiberties(a: Address)
    ensures Spells(a, 0) <==> IsRfcSpelling(a) || ForNoGroup(a) || (Spells(a, 0) && Padded(a))
    ensures ForNoGroup(a) || Padded(a) ==> !IsRfcSpelling(a)
  {
    hide IsIpv4Address, CanonicalQuad, GroupValues, AreFields;
  }

  // ----- A text has one reading -----

  /** Not empty and without a colon, each of them. */
  predicate Unbroken(groups: seq<string>) {
    forall i :: 0 <= i < |groups| ==> groups[i] != [] && ':' !in groups[i]
  }

  lemma {:induction false} UnbrokenJoin(groups: seq<string>)
    requires Unbroken(groups)
    ensures var s := Join(groups, ':');
      && (groups != [] ==> s != [] && s[0] != ':' && s[|s| - 1] != ':')
      && forall k :: !DoubleAt(s, k)
  {
    if |groups| > 1 {
      UnbrokenJoin(groups[1..]);
      var first, rest, s := groups[0], Join(groups[1..], ':'), Join(groups, ':');
      assert s == first + [':'] + rest;
      forall k
        ensures !DoubleAt(s, k)
      {
        if |first| < k < |s| - 1 {
          assert !DoubleAt(rest, k - |first| - 1);
        }
      }
    }
  }

  lemma GroupsUnbroken(groups: seq<string>)
    requires GroupsOk(groups)
    ensures Unbroken(groups)
  {
    hide IsDotted;
    forall i | 0 <= i < |groups|
      ensures groups[i] != [] && ':' !in groups[i]
    {
      if i == |groups| - 1 {
        LastGroupHasNoColon(groups);
        LastGroupNotEmpty(groups[i]);
      } else {
        assert groups[i] == groups[..|groups| - 1][i];
        FieldChars(groups[i]);
      }
    }
  }

  lemma LastGroupNotEmpty(group: string)
    requires IsField(group) || IsIpv4Address(group)
    ensures group != []
  {
    if group == [] {
      FieldIsNotDotted(group);
    }
  }

  /** Joined groups are what they were before. */
  lemma JoinIsUnique(a: seq<string>, b: seq<string>)
    requires Unbroken(a) && Unbroken(b) && Join(a, ':') == Join(b, ':')
    ensures a == b
  {
    UnbrokenJoin(a);
    UnbrokenJoin(b);
    if a != [] {
      JoinSplit(a, ':');
      JoinSplit(b, ':');
    }
  }

  lemma DoubleOfText(head: seq<string>, tail: seq<string>)
    requires Unbroken(head)
    ensures var h, s := Join(head, ':'), Text(Compressed(head, tail));
      DoubleAt(s, |h|) && forall k :: 0 <= k < |h| ==> !DoubleAt(s, k)
  {
    var h, s := Join(head, ':'), Text(Compressed(head, tail));
    UnbrokenJoin(head);
    assert s[|h|] == ':' && s[|h| + 1] == ':';
    forall k | 0 <= k < |h|
      ensures !DoubleAt(s, k)
    {
      assert !DoubleAt(h, k);
    }
  }

  lemma CompressedIsUnique(head: seq<string>, tail: seq<string>, head': seq<string>, tail': seq<string>)
    requires Unbroken(head) && Unbroken(tail) && Unbroken(head') && Unbroken(tail')
    requires Text(Compressed(head, tail)) == Text(Compressed(head', tail'))
    ensures head == head' && tail == tail'
  {
    var h, h', t, t' := Join(head, ':'), Join(head', ':'), Join(tail, ':'), Join(tail', ':');
    var s := Text(Compressed(head, tail));
    DoubleOfText(head, tail);
    DoubleOfText(head', tail');
    assert |h| == |h'|;
    assert h == s[..|h|] && h' == s[..|h'|] && t == s[|h| + 2..] && t' == s[|h'| + 2..];
    JoinIsUnique(head, head');
    JoinIsUnique(tail, tail');
  }

  /** Two addresses with one text are the same. */
  lemma TextIsUnique(a: Address, b: Address)
    requires Spells(a, 0) && Spells(b, 0) && Text(a) == Text(b)
    ensures a == b
  {
    hide GroupValues, GroupsOk, Join, IsIpv4Address;
    SpelledGroups(a);
    SpelledGroups(b);
    match (a, b) {
      case (Full(groups), Full(groups')) => JoinIsUnique(groups, groups');
      case (Compressed(head, tail), Compressed(head', tail')) => CompressedIsUnique(head, tail, head', tail');
      case (Full(groups), Compressed(head, tail)) => FullIsNotCompressed(groups, head, tail);
      case (Compressed(head, tail), Full(groups)) => FullIsNotCompressed(groups, head, tail);
    }
  }

  lemma SpelledGroups(a: Address)
    requires Spells(a, 0)
    ensures Unbroken(LastGroups(a)) && (a.Compressed? ==> Unbroken(a.head))
  {
    hide IsIpv4Address;
    GroupsUnbroken(LastGroups(a));
    if a.Compressed? {
      FieldsOk(a.head);
      GroupsUnbroken(a.head);
    }
  }

  lemma FullIsNotCompressed(groups: seq<string>, head: seq<string>, tail: seq<string>)
    requires Unbroken(groups) && Unbroken(head)
    ensures Text(Full(groups)) != Text(Compressed(head, tail))
  {
    UnbrokenJoin(groups);
    DoubleOfText(head, tail);
  }

  /** So are two readings of one text with zones. */
  lemma ReadingIsUnique(a: Address, zone: string, b: Address, zone': string)
    requires Spells(a, 0) && Spells(b, 0) && IsZone(zone) && IsZone(zone') && Text(a) + zone == Text(b) + zone'
    ensures a == b && zone == zone'
  {
    hide Spells, Text;
    TextPlain(a);
    TextPlain(b);
    WithoutZone(Text(a), zone);
    WithoutZone(Text(b), zone');
    assert zone == (Text(a) + zone)[|Text(a)|..] && zone' == (Text(b) + zone')[|Text(b)|..];
    TextIsUnique(a, b);
  }

  // ----- The liberties -----

  /** The text spells an address as the RFC has it. */
  ghost predicate IsRfcText(s: string) {
    exists a: Address, zone: string :: IsRfcSpelling(a) && IsZone(zone) && s == Text(a) + zone
  }

  /**
   Main result: a text expands to eight hextets exactly when it is a spelling of section 2.2 of RFC 4291 that has
   these values, or takes one of the two liberties. What takes one is no spelling of the RFC in any reading.
   */
  lemma ExpandsRfcAndLiberties(s: string, hextets: seq<nat>)
    ensures ExpandIpv6(s) == Some(hextets) <==> exists a: Address, zone: string ::
      IsSpellingOf(s, a, zone, hextets) && (IsRfcSpelling(a) || ForNoGroup(a) || Padded(a))
    ensures forall a: Address, zone: string ::
      IsSpellingOf(s, a, zone, hextets) && (ForNoGroup(a) || Padded(a)) ==> !IsRfcText(s)
  {
    hide ExpandIpv6, Spells, Text, Hextets, Padded, ForNoGroup, IsRfcSpelling;
    ExpandsExactly(s, hextets);
    forall a: Address, zone: string | IsSpellingOf(s, a, zone, hextets)
      ensures IsRfcSpelling(a) || ForNoGroup(a) || Padded(a)
      ensures ForNoGroup(a) || Padded(a) ==> !IsRfcText(s)
    {
      WithoutLiberties(a);
      if IsRfcText(s) {
        OnlyRfcReading(s, a, zone);
      }
    }
  }

  lemma OnlyRfcReading(s: string, a: Address, zone: string)
    requires IsRfcText(s) && Spells(a, 0) && IsZone(zone) && s == Text(a) + zone
    ensures IsRfcSpelling(a)
  {
    hide Spells, Text, IsRfcSpelling, IsZone;
    var b: Address, zone': string :| IsRfcSpelling(b) && IsZone(zone') && s == Text(b) + zone';
    WithoutLiberties(b);
    ReadingIsUnique(a, zone, b, zone');
  }

  /** The first liberty: eight fields with a "::" among them or at an end expand to their values. */
  lemma DoubleColonForNoGroup(head: seq<string>, tail: seq<string>)
    requires AreFields(head) && AreFields(tail) && |head| + |tail| == 8
    ensures !IsRfcText(Text(Compressed(head, tail)))
    ensures ExpandIpv6(Text(Compressed(head, tail))) == Some(FieldValues(head) + FieldValues(tail))
  {
    hide ExpandIpv6, Text, IsRfcSpelling;
    var a := Compressed(head, tail);
    FieldsAreGroups(tail);
    ExpandSpelling(a, []);
    assert Text(a) + [] == Text(a);
    assert FieldValues(head) + Zeros(0) + FieldValues(tail) == FieldValues(head) + FieldValues(tail);
    assert !Spells(a, 1);
    WithoutLiberties(a);
    if IsRfcText(Text(a)) {
      OnlyRfcReading(Text(a), a, []);
    }
  }

  /** The standard form of a quad. */
  function DottedQuad(p: seq<nat>): string
    requires |p| == 4
  {
    Join([ToDecimal(p[0]), ToDecimal(p[1]), ToDecimal(p[2]), ToDecimal(p[3])], '.')
  }

  lemma DottedQuadReads(p: seq<nat>)
    requires IsQuad(p)
    ensures IsIpv4Address(DottedQuad(p)) && Ipv4Parts(DottedQuad(p)) == p && CanonicalQuad(DottedQuad(p))
  {
    hide Split, Join, ToDecimal, DecimalValue;
    var octets := [ToDecimal(p[0]), ToDecimal(p[1]), ToDecimal(p[2]), ToDecimal(p[3])];
    forall i | 0 <= i < 4
      ensures octets[i] != [] && AllDigits(octets[i]) && DecimalValue(octets[i]) == p[i] && '.' !in octets[i]
    {
      ToDecimalReads(p[i]);
    }
    JoinSplit(octets, '.');
  }

  /** The groups with the octets of a dotted tail in standard form. */
  function TrimmedGroups(groups: seq<string>): seq<string> {
    if EndsInIpv4(groups) then groups[..|groups| - 1] + [DottedQuad(Ipv4Parts(groups[|groups| - 1]))] else groups
  }

  function Trimmed(a: Address): Address {
    match a
    case Full(groups) => Full(TrimmedGroups(groups))
    case Compressed(head, tail) => Compressed(head, TrimmedGroups(tail))
  }

  lemma PartsOfQuad(q: string)
    requires IsIpv4Address(q)
    ensures IsQuad(Ipv4Parts(q))
  {
    hide IsDotted, Ipv4Parts;
  }

  lemma TrimmedGroupsRead(groups: seq<string>)
    requires GroupsOk(groups)
    ensures var trimmed := TrimmedGroups(groups);
      && GroupsOk(trimmed) && GroupValues(trimmed) == GroupValues(groups)
      && (EndsInIpv4(trimmed) ==> CanonicalQuad(trimmed[|trimmed| - 1]))
  {
    hide IsDotted, DottedQuad, Ipv4Parts, CanonicalQuad, IsField;
    if EndsInIpv4(groups) {
      PartsOfQuad(groups[|groups| - 1]);
      DottedQuadReads(Ipv4Parts(groups[|groups| - 1]));
      assert TrimmedGroups(groups)[..|groups| - 1] == groups[..|groups| - 1];
    }
  }

  /** The second liberty: leading zeros in the octets of a dotted tail do not change what the text expands to. */
  lemma LeadingZerosInOctets(a: Address, zone: string)
    requires Spells(a, 0) && Padded(a) && IsZone(zone)
    ensures !IsRfcText(Text(a) + zone)
    ensures Spells(Trimmed(a), 0) && !Padded(Trimmed(a)) && (Spells(a, 1) ==> IsRfcSpelling(Trimmed(a)))
    ensures ExpandIpv6(Text(a) + zone) == ExpandIpv6(Text(Trimmed(a)) + zone) == Some(Hextets(a))
  {
    TrimmedGroupsRead(LastGroups(a));
    hide ExpandIpv6, Text, IsDotted, DottedQuad, Ipv4Parts, CanonicalQuad, GroupValues, TrimmedGroups;
    ExpandSpelling(a, zone);
    ExpandSpelling(Trimmed(a), zone);
    if IsRfcText(Text(a) + zone) {
      OnlyRfcReading(Text(a) + zone, a, zone);
    }
  }

  /** And so they can be added: a zero before a dotted address leaves its parts, but not its standard form. */
  lemma ZeroBeforeQuad(q: string)
    requires IsIpv4Address(q)
    ensures IsIpv4Address(['0'] + q) && Ipv4Parts(['0'] + q) == Ipv4Parts(q) && !CanonicalQuad(['0'] + q)
  {
    var octets, padded := Split(q, '.'), Split(['0'] + q, '.');
    ZeroFirst(q);
    hide Split, DecimalValue, ToDecimal;
    ZeroBefore(octets[0]);
    assert IsDotted(['0'] + q) by {
      assert padded[1] == octets[1] && padded[2] == octets[2] && padded[3] == octets[3];
    }
    forall i | 0 <= i < 4
      ensures Ipv4Parts(['0'] + q)[i] == Ipv4Parts(q)[i]
    {
      assert i == 0 || padded[i] == octets[i];
    }
    NoLeadingZero(DecimalValue(octets[0]));
    assert padded[0] != ToDecimal(Ipv4Parts(q)[0]);
  }

  lemma ZeroFirst(q: string)
    ensures var octets, padded := Split(q, '.'), Split(['0'] + q, '.');
      && |padded| == |octets| && padded[0] == ['0'] + octets[0]
      && forall i :: 0 < i < |octets| ==> padded[i] == octets[i]
  {
    SplitCons(['0'] + q, '.');
    assert (['0'] + q)[1..] == q;
    hide Split;
  }

  lemma {:induction false} ZeroBefore(digits: string)
    requires AllDigits(digits)
    ensures AllDigits(['0'] + digits) && DecimalValue(['0'] + digits) == DecimalValue(digits)
  {
    var s := ['0'] + digits;
    if digits == [] {
      assert s[..0] == [];
    } else {
      ZeroBefore(digits[..|digits| - 1]);
      assert s[..|s| - 1] == ['0'] + digits[..|digits| - 1];
    }
  }

  lemma {:induction false} NoLeadingZero(n: nat)
    ensures ToDecimal(n)[0] == '0' ==> |ToDecimal(n)| == 1
    ensures n > 0 ==> ToDecimal(n)[0] != '0'
    decreases n
  {
    if n >= 10 {
      NoLeadingZero(n / 10);
    }
  }
}
