/**
 Splitting and joining text, and decimal numbers.
 */
module Strings {
  function Split(s: string, c: char): (parts: seq<string>)
    ensures |parts| >= 1
  {
    if s == [] then [[]]
    else
      var rest := Split(s[1..], c);
      if s[0] == c then [[]] + rest else [[s[0]] + rest[0]] + rest[1..]
  }

  function Join(parts: seq<string>, c: char): string {
    if parts == [] then []
    else if |parts| == 1 then parts[0]
    else parts[0] + [c] + Join(parts[1..], c)
  }

  lemma {:induction false} SplitFirst(p: string, rest: string, c: char)
    requires c !in p
    ensures Split(p, c) == [p]
    ensures Split(p + [c] + rest, c) == [p] + Split(rest, c)
  {
    var s := p + [c] + rest;
    if p == [] {
      assert s == [c] + rest;
      assert s[1..] == rest;
    } else {
      SplitFirst(p[1..], rest, c);
      assert s[1..] == p[1..] + [c] + rest;
      assert p == [p[0]] + p[1..];
    }
  }

  lemma {:induction false} JoinSplit(parts: seq<string>, c: char)
    requires parts != [] && forall i :: 0 <= i < |parts| ==> c !in parts[i]
    ensures Split(Join(parts, c), c) == parts
  {
    hide Split;
    SplitFirst(parts[0], if |parts| > 1 then Join(parts[1..], c) else [], c);
    if |parts| > 1 {
      JoinSplit(parts[1..], c);
      assert parts == [parts[0]] + parts[1..];
    }
  }

  lemma {:induction false} SplitJoin(s: string, c: char)
    ensures Join(Split(s, c), c) == s
    ensures forall i :: 0 <= i < |Split(s, c)| ==> c !in Split(s, c)[i]
  {
    if s != [] {
      SplitJoin(s[1..], c);
      var rest := Split(s[1..], c);
      if s[0] == c {
        assert Split(s, c)[1..] == rest;
      } else {
        assert Split(s, c)[1..] == rest[1..];
        assert s == [s[0]] + s[1..];
      }
    }
  }

  lemma {:induction false} JoinAppend(init: seq<string>, last: seq<string>, c: char)
    requires init != [] && last != []
    ensures Join(init + last, c) == Join(init, c) + [c] + Join(last, c)
  {
    assert (init + last)[0] == init[0];
    if |init| == 1 {
      assert (init + last)[1..] == last;
    } else {
      assert (init + last)[1..] == init[1..] + last;
      JoinAppend(init[1..], last, c);
    }
  }

  lemma {:induction false} SplitCovers(s: string, c: char, i: nat)
    requires i < |s| && s[i] != c
    ensures exists k :: 0 <= k < |Split(s, c)| && s[i] in Split(s, c)[k]
  {
    var rest := Split(s[1..], c);
    if i > 0 {
      SplitCovers(s[1..], c, i - 1);
      var k :| 0 <= k < |rest| && s[1..][i - 1] in rest[k];
      if s[0] == c {
        assert Split(s, c)[k + 1] == rest[k];
      } else if k > 0 {
        assert Split(s, c)[k] == rest[k];
      } else {
        assert s[i] in Split(s, c)[0];
      }
    } else {
      assert s[0] in Split(s, c)[0];
    }
  }

  lemma SplitCons(s: string, c: char)
    requires s != []
    ensures var rest := Split(s[1..], c);
      Split(s, c) == if s[0] == c then [[]] + rest else [[s[0]] + rest[0]] + rest[1..]
  {}

  lemma {:induction false} SplitHead(s: string, c: char) returns (rest: string)
    ensures s == Split(s, c)[0] + rest && (rest != [] ==> rest[0] == c)
  {
    if s == [] {
      rest := [];
    } else {
      SplitCons(s, c);
      hide Split;
      if s[0] == c {
        rest := s;
      } else {
        rest := SplitHead(s[1..], c);
        assert s == [s[0]] + s[1..];
      }
    }
  }

  lemma {:induction false} SplitConcat(a: string, b: string, c: char)
    ensures Split(a + [c] + b, c) == Split(a, c) + Split(b, c)
  {
    var s := a + [c] + b;
    SplitCons(s, c);
    if a == [] {
      assert s[1..] == b && Split(a, c) == [[]];
    } else {
      SplitCons(a, c);
      SplitConcat(a[1..], b, c);
      assert s[1..] == a[1..] + [c] + b;
      PrependHead(Split(a[1..], c), Split(b, c), a[0]);
      hide Split;
    }
  }

  lemma PrependHead(parts: seq<string>, more: seq<string>, c: char)
    requires parts != []
    ensures [[]] + (parts + more) == [[]] + parts + more
    ensures [[c] + (parts + more)[0]] + (parts + more)[1..] == [[c] + parts[0]] + parts[1..] + more
  {}

  // ----- Characters -----

  /** White space of a regular expression's `\s`. */
  predicate IsWhiteSpace(c: char) {
    var n := c as int;
    || 0x09 <= n <= 0x0d || n == 0x20 || n == 0xa0 || n == 0x1680 || 0x2000 <= n <= 0x200a
    || n == 0x2028 || n == 0x2029 || n == 0x202f || n == 0x205f || n == 0x3000 || n == 0xfeff
  }

  // ----- Decimal numbers -----

  predicate IsDigit(c: char) {
    '0' <= c <= '9'
  }

  predicate AllDigits(s: string) {
    forall i :: 0 <= i < |s| ==> IsDigit(s[i])
  }

  function DecimalValue(s: string): nat
    requires AllDigits(s)
  {
    if s == [] then 0 else 10 * DecimalValue(s[..|s| - 1]) + (s[|s| - 1] as int - '0' as int)
  }

  /** The decimal text of a number. */
  function ToDecimal(n: nat): (r: string)
    ensures r != []
  {
    if n < 10 then [('0' as int + n) as char] else ToDecimal(n / 10) + [('0' as int + n % 10) as char]
  }

  lemma {:induction false} ToDecimalReads(n: nat)
    ensures AllDigits(ToDecimal(n)) && DecimalValue(ToDecimal(n)) == n
    decreases n
  {
    var s := ToDecimal(n);
    if n < 10 {
      assert s[..|s| - 1] == [];
    } else {
      ToDecimalReads(n / 10);
      assert s[..|s| - 1] == ToDecimal(n / 10);
    }
  }
}
