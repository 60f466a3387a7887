/**
 The converse: the parser accepts nothing but spellings, in a grammar slightly wider than
 that of the RFC (see `AddressLiberties`).
 */
module AddressParsing {
  import opened AddressSpellings
  import opened Options
  import opened PrivateAddress
  import opened Strings

  /** The fields of a section; an empty section has none. */
  function FieldsOf(section: string): seq<string> {
    if section == [] then [] else Split(section, ':')
  }

  lemma ParsedSection(section: string)
    requires ParseHextets(section).Some?
    ensures AreFields(FieldsOf(section)) && Join(FieldsOf(section), ':') == section
    ensures ParseHextets(section).value == FieldValues(FieldsOf(section))
  {
    SplitJoin(section, ':');
  }

  /** The address whose fields a prepared text lists. */
  function Parsed(prepared: string): Address {
    var i := FindDouble(prepared, 0);
    if i < 0 then Full(FieldsOf(prepared)) else Compressed(FieldsOf(prepared[..i]), FieldsOf(prepared[i + 2..]))
  }

  lemma PreparedIsFields(prepared: string)
    requires ExpandPrepared(prepared).Some?
    ensures FieldsOnly(Parsed(prepared)) && Text(Parsed(prepared)) == prepared
    ensures FieldHextets(Parsed(prepared)) == ExpandPrepared(prepared)
  {
    hide ExpandPrepared, FieldsOnly, Text, FieldHextets;
    PreparedText(prepared);
    ExpandFields(Parsed(prepared));
  }

  lemma PreparedText(prepared: string)
    requires ExpandPrepared(prepared).Some?
    ensures FieldsOnly(Parsed(prepared)) && Text(Parsed(prepared)) == prepared
  {
    hide ExpandPrepared, ParseHextets, FieldsOf, FindDouble, Join, FieldValues;
    var i := FindDouble(prepared, 0);
    if i < 0 {
      OneSection(prepared);
      ParsedSection(prepared);
    } else {
      TwoSections(prepared, i);
      ParsedSection(prepared[..i]);
      ParsedSection(prepared[i + 2..]);
      assert prepared == prepared[..i] + [':', ':'] + prepared[i + 2..];
    }
  }

  lemma OneSection(prepared: string)
    requires ExpandPrepared(prepared).Some? && FindDouble(prepared, 0) < 0
    ensures ParseHextets(prepared).Some?
  {
    hide ParseHextets;
  }

  lemma TwoSections(prepared: string, i: nat)
    requires ExpandPrepared(prepared).Some? && FindDouble(prepared, 0) == i
    ensures i + 2 <= |prepared| && prepared[i] == ':' && prepared[i + 1] == ':'
    ensures ParseHextets(prepared[..i]).Some? && ParseHextets(prepared[i + 2..]).Some?
  {
    hide ParseHextets;
    var rest := prepared[i + 2..];
    assert SplitDouble(prepared) == [prepared[..i]] + SplitDouble(rest);
    assert FindDouble(rest, 0) < 0;
  }

  lemma PairSplits(p: seq<nat>)
    requires |p| == 4 && p[0] <= 255 && p[1] <= 255 && p[2] <= 255 && p[3] <= 255
    ensures Split(HextetPair(p), ':') == [ToHex(256 * p[0] + p[1]), ToHex(256 * p[2] + p[3])]
  {
    var f, g := ToHex(256 * p[0] + p[1]), ToHex(256 * p[2] + p[3]);
    HextetText(p[0], p[1]);
    HextetText(p[2], p[3]);
    FieldChars(f);
    FieldChars(g);
    SplitFirst(f, g, ':');
    SplitFirst(g, [], ':');
  }

  /** Fields followed by a dotted address are groups, and undotting them appends its two fields. */
  lemma FieldsThenDotted(fields: seq<string>, q: string)
    requires IsIpv4Address(q) && AreFields(fields)
    ensures GroupsOk(fields + [q])
    ensures Undotted(fields + [q]) == fields + Split(HextetPair(Ipv4Parts(q)), ':')
  {
    PairSplits(Ipv4Parts(q));
    hide HextetPair, ToHex, IsDotted, Ipv4Parts, AreFields, Split;
    assert (fields + [q])[..|fields|] == fields;
  }

  /** A section whose last two fields came from a dotted tail is a list of groups with that tail. */
  lemma Redotted(lead: string, q: string) returns (groups: seq<string>)
    requires IsIpv4Address(q) && (lead != [] ==> lead[|lead| - 1] == ':')
    requires AreFields(Split(lead + HextetPair(Ipv4Parts(q)), ':'))
    ensures GroupsOk(groups) && Join(groups, ':') == lead + q
    ensures Undotted(groups) == Split(lead + HextetPair(Ipv4Parts(q)), ':')
  {
    hide HextetPair, ToHex, IsDotted, Ipv4Parts, AreFields, Split, Undotted, GroupsOk;
    var pair := HextetPair(Ipv4Parts(q));
    if lead == [] {
      assert lead + pair == pair && lead + q == q;
      NoFields();
      FieldsThenDotted([], q);
      groups := [q];
      assert [] + [q] == [q] && [] + Split(pair, ':') == Split(pair, ':');
    } else {
      var init := lead[..|lead| - 1];
      ColonLead(lead, pair);
      ColonLead(lead, q);
      SplitConcat(init, pair, ':');
      SplitJoin(init, ':');
      JoinAppend(Split(init, ':'), [q], ':');
      SomeFields(Split(init, ':'), Split(pair, ':'));
      FieldsThenDotted(Split(init, ':'), q);
      groups := Split(init, ':') + [q];
    }
  }

  lemma ColonLead(lead: string, s: string)
    requires lead != [] && lead[|lead| - 1] == ':'
    ensures lead + s == lead[..|lead| - 1] + [':'] + s
  {}

  lemma NoFields()
    ensures AreFields([])
  {}

  lemma SomeFields(a: seq<string>, b: seq<string>)
    requires AreFields(a + b)
    ensures AreFields(a)
  {
    assert forall i :: 0 <= i < |a| ==> a[i] == (a + b)[i];
  }

  lemma FieldsAreGroups(fields: seq<string>)
    requires AreFields(fields)
    ensures GroupsOk(fields) && !EndsInIpv4(fields) && GroupValues(fields) == FieldValues(fields)
  {
    if fields != [] {
      FieldChars(fields[|fields| - 1]);
      FieldIsNotDotted(fields[|fields| - 1]);
    }
  }

  lemma FieldsSpell(a: Address)
    requires FieldsOnly(a) && FieldHextets(a).Some?
    ensures Spells(a, 0) && Hextets(a) == FieldHextets(a).value
  {
    match a
    case Full(groups) => FieldsAreGroups(groups);
    case Compressed(head, tail) => FieldsAreGroups(tail);
  }

  /** A "::" in a prepared text lies before the fields of the dotted tail. */
  lemma DoubleInLead(x: string, p: seq<nat>, i: nat)
    requires IsQuad(p) && (x != [] ==> x[|x| - 1] == ':')
    requires DoubleAt(x + HextetPair(p), i)
    ensures i + 2 <= |x|
  {
    var f, g := ToHex(256 * p[0] + p[1]), ToHex(256 * p[2] + p[3]);
    HextetText(p[0], p[1]);
    HextetText(p[2], p[3]);
    Isolated([f, g]);
    assert [f, g][1..] == [g];
    assert Join([f, g], ':') == HextetPair(p);
    assert i >= |x| ==> DoubleAt(HextetPair(p), i - |x|);
    assert HextetPair(p)[0] != ':';
  }

  lemma FullDotted(x: string, q: string) returns (a: Address)
    requires IsIpv4Address(q) && (x != [] ==> x[|x| - 1] == ':')
    requires var fields := Split(x + HextetPair(Ipv4Parts(q)), ':'); AreFields(fields) && |fields| == 8
    ensures Spells(a, 0) && Text(a) == x + q
    ensures Hextets(a) == FieldValues(Split(x + HextetPair(Ipv4Parts(q)), ':'))
  {
    hide HextetPair, IsDotted, Ipv4Parts, AreFields, Split;
    var groups := Redotted(x, q);
    a := Full(groups);
    UndottedFields(groups);
  }

  lemma CompressedDotted(x: string, q: string, head: seq<string>, i: nat) returns (a: Address)
    requires IsIpv4Address(q) && i + 2 <= |x| && x[|x| - 1] == ':' && x[i] == ':' && x[i + 1] == ':'
    requires AreFields(head) && Join(head, ':') == x[..i]
    requires var fields := Split(x[i + 2..] + HextetPair(Ipv4Parts(q)), ':');
      AreFields(fields) && |head| + |fields| <= 8
    ensures Spells(a, 0) && Text(a) == x + q
    ensures Some(Hextets(a)) == FieldHextets(Compressed(head, Split(x[i + 2..] + HextetPair(Ipv4Parts(q)), ':')))
  {
    hide HextetPair, IsDotted, Ipv4Parts, AreFields, Split;
    var groups := Redotted(x[i + 2..], q);
    a := Compressed(head, groups);
    UndottedFields(groups);
    assert x + q == x[..i] + [':', ':'] + (x[i + 2..] + q);
  }

  /** The spelling with the dotted tail put back. */
  lemma DottedSpelling(x: string, q: string) returns (a: Address)
    requires IsIpv4Address(q) && (x != [] ==> x[|x| - 1] == ':')
    requires ExpandPrepared(x + HextetPair(Ipv4Parts(q))).Some?
    ensures Spells(a, 0) && Text(a) == x + q
    ensures Some(Hextets(a)) == ExpandPrepared(x + HextetPair(Ipv4Parts(q)))
  {
    var pair := HextetPair(Ipv4Parts(q));
    PreparedIsFields(x + pair);
    PairNotEmpty(Ipv4Parts(q));
    hide HextetPair, IsDotted, Ipv4Parts, ExpandPrepared, Split, AreFields, Text, Hextets, Spells;
    var i := FindDouble(x + pair, 0);
    if i < 0 {
      a := FullDotted(x, q);
    } else {
      DoubleInLead(x, Ipv4Parts(q), i);
      DottedAfterDouble(x, q, i);
      a := CompressedDotted(x, q, FieldsOf(x[..i]), i);
    }
  }

  lemma PairNotEmpty(p: seq<nat>)
    requires |p| == 4
    ensures HextetPair(p) != []
  {}

  lemma DottedAfterDouble(x: string, q: string, i: nat)
    requires IsIpv4Address(q)
    requires i + 2 <= |x| && FindDouble(x + HextetPair(Ipv4Parts(q)), 0) == i
    requires FieldsOnly(Parsed(x + HextetPair(Ipv4Parts(q))))
    ensures var pair := HextetPair(Ipv4Parts(q));
      && Parsed(x + pair) == Compressed(FieldsOf(x[..i]), Split(x[i + 2..] + pair, ':'))
      && AreFields(FieldsOf(x[..i])) && AreFields(Split(x[i + 2..] + pair, ':'))
      && x[i] == ':' && x[i + 1] == ':'
      && Join(FieldsOf(x[..i]), ':') == x[..i]
  {
    var pair := HextetPair(Ipv4Parts(q));
    PairNotEmpty(Ipv4Parts(q));
    hide HextetPair, IsDotted, Ipv4Parts, Split, AreFields, Join, FieldsOf, FindDouble;
    SlicesOfConcat(x, pair, i);
    FieldsOfText(x[..i]);
    FieldsOfText(x[i + 2..] + pair);
  }

  lemma SlicesOfConcat(x: string, y: string, i: nat)
    requires i + 2 <= |x|
    ensures (x + y)[..i] == x[..i] && (x + y)[i + 2..] == x[i + 2..] + y
    ensures (x + y)[i] == x[i] && (x + y)[i + 1] == x[i + 1]
  {}

  lemma FieldsOfText(section: string)
    ensures Join(FieldsOf(section), ':') == section
    ensures section != [] ==> FieldsOf(section) == Split(section, ':')
  {
    SplitJoin(section, ':');
  }

  ghost predicate IsSpelling(s: string, hextets: seq<nat>) {
    exists a: Address, zone: string :: IsSpellingOf(s, a, zone, hextets)
  }

  predicate IsSpellingOf(s: string, a: Address, zone: string, hextets: seq<nat>) {
    Spells(a, 0) && IsZone(zone) && s == Text(a) + zone && Hextets(a) == hextets
  }

  /** A text expands to eight hextets exactly when it spells them in the parser's grammar. */
  lemma ExpandsExactly(s: string, hextets: seq<nat>)
    ensures ExpandIpv6(s) == Some(hextets) <==> IsSpelling(s, hextets)
  {
    hide ExpandPrepared, IsDotted, Ipv4Parts, HextetPair, Text, Spells, Hextets, Split;
    if ExpandIpv6(s) == Some(hextets) {
      var zone := SplitHead(s, '%');
      var text := Split(s, '%')[0];
      var lead, tail := text[..LastColon(text) + 1], text[LastColon(text) + 1..];
      assert text == lead + tail;
      var a;
      if IsIpv4Address(tail) {
        a := DottedSpelling(lead, tail);
      } else {
        a := Parsed(text);
        PreparedIsFields(text);
        FieldsSpell(a);
      }
      assert IsSpellingOf(s, a, zone, hextets);
    }
    if IsSpelling(s, hextets) {
      var a: Address, zone: string :| IsSpellingOf(s, a, zone, hextets);
      ExpandSpelling(a, zone);
    }
  }
}
