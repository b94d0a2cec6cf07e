/** Splitting and joining at a separator, and plain decimal numbers, with their inverses. */
module TextCodec {
  import opened Wrappers
  import opened TextOrder

  const DOT: Unit := 0x2E

  // ----- split and join -----

  function Split<U(==)>(s: seq<U>, separator: U): (parts: seq<seq<U>>)
    ensures |parts| >= 1
  {
    if s == [] then [[]]
    else if s[0] == separator then [[]] + Split(s[1..], separator)
    else
      var rest := Split(s[1..], separator);
      [[s[0]] + rest[0]] + rest[1..]
  }

  function Join<U>(parts: seq<seq<U>>, separator: U): seq<U>
    requires parts != []
  {
    if |parts| == 1 then parts[0] else parts[0] + [separator] + Join(parts[1..], separator)
  }

  lemma {:induction false} JoinUndoesSplit<U>(s: seq<U>, separator: U)
    ensures Join(Split(s, separator), separator) == s
  {
    if s != [] {
      JoinUndoesSplit(s[1..], separator);
      var rest := Split(s[1..], separator);
      if s[0] == separator {
        assert Split(s, separator)[1..] == rest;
      } else {
        assert Split(s, separator)[1..] == rest[1..];
      }
    }
  }

  lemma {:induction false} SplitPart<U>(part: seq<U>, separator: U)
    requires separator !in part
    ensures Split(part, separator) == [part]
  {
    if part != [] {
      SplitPart(part[1..], separator);
      assert part == [part[0]] + part[1..];
    }
  }

  lemma {:induction false} SplitFirst<U>(part: seq<U>, rest: seq<U>, separator: U)
    requires separator !in part
    ensures Split(part + [separator] + rest, separator) == [part] + Split(rest, separator)
  {
    var s := part + [separator] + rest;
    if part == [] {
      assert s[1..] == rest;
    } else {
      SplitFirst(part[1..], rest, separator);
      assert s[1..] == part[1..] + [separator] + rest;
      assert part == [part[0]] + part[1..];
    }
  }

  lemma {:induction false} SplitUndoesJoin(parts: seq<Text>, separator: Unit)
    requires parts != [] && forall i :: 0 <= i < |parts| ==> separator !in parts[i]
    ensures Split(Join(parts, separator), separator) == parts
  {
    if |parts| == 1 {
      SplitPart(parts[0], separator);
    } else {
      SplitUndoesJoin(parts[1..], separator);
      SplitFirst(parts[0], Join(parts[1..], separator), separator);
    }
  }

  lemma {:induction false} SplitPartsAvoid<U>(s: seq<U>, separator: U)
    ensures forall i :: 0 <= i < |Split(s, separator)| ==> separator !in Split(s, separator)[i]
  {
    if s != [] {
      var rest := Split(s[1..], separator);
      SplitPartsAvoid(s[1..], separator);
      forall i | 0 <= i < |Split(s, separator)| ensures separator !in Split(s, separator)[i] {
        if s[0] == separator {
          assert i > 0 ==> Split(s, separator)[i] == rest[i - 1];
        } else {
          assert Split(s, separator)[i] == if i == 0 then [s[0]] + rest[0] else rest[i];
        }
      }
    }
  }

  lemma JoinTwo(a: Text, b: Text, separator: Unit)
    ensures Join([a, b], separator) == a + [separator] + b
  {
    assert [a, b][1..] == [b];
  }

  lemma JoinThree(a: Text, b: Text, c: Text, separator: Unit)
    ensures Join([a, b, c], separator) == a + [separator] + b + [separator] + c
  {
    JoinTwo(b, c, separator);
    assert [a, b, c][1..] == [b, c];
  }

  lemma JoinFour(a: Text, b: Text, c: Text, d: Text, separator: Unit)
    ensures Join([a, b, c, d], separator) == Join([a, b, c], separator) + [separator] + d
  {
    JoinThree(a, b, c, separator);
    JoinThree(b, c, d, separator);
    assert [a, b, c, d][1..] == [b, c, d];
  }

  // Each separator adds a part.
  function Count(s: Text, u: Unit): nat {
    if s == [] then 0 else (if s[0] == u then 1 else 0) + Count(s[1..], u)
  }

  lemma {:induction false} SplitCounts(s: Text, separator: Unit)
    ensures |Split(s, separator)| == Count(s, separator) + 1
  {
    if s != [] {
      SplitCounts(s[1..], separator);
    }
  }

  lemma {:induction false} CountConcat(a: Text, b: Text, u: Unit)
    ensures Count(a + b, u) == Count(a, u) + Count(b, u)
  {
    if a == [] {
      assert a + b == b;
    } else {
      assert (a + b)[1..] == a[1..] + b;
      CountConcat(a[1..], b, u);
    }
  }

  lemma {:induction false} CountIsZero(s: Text, u: Unit)
    ensures Count(s, u) == 0 <==> u !in s
  {
    if s != [] {
      CountIsZero(s[1..], u);
      assert s == [s[0]] + s[1..];
    }
  }

  // ----- decimal numbers -----

  predicate Digit(u: Unit) {
    '0' as int <= u <= '9' as int
  }

  predicate AlphaNumeric(u: Unit) {
    'A' as int <= u <= 'Z' as int || 'a' as int <= u <= 'z' as int || Digit(u)
  }

  // String(n) for a non-negative safe integer.
  function Decimal(n: nat): (t: Text) {
    if n < 10 then ['0' as int + n] else Decimal(n / 10) + ['0' as int + n % 10]
  }

  function DigitsValue(t: Text): nat
    requires forall i :: 0 <= i < |t| ==> Digit(t[i])
  {
    if t == [] then 0
    else
      assert Digit(t[|t| - 1]);
      DigitsValue(t[..|t| - 1]) * 10 + (t[|t| - 1] - '0' as int)
  }

  // The number a text is the decimal form of, if any.
  function ReadDecimal(t: Text): Option<nat> {
    if t != [] && (forall i :: 0 <= i < |t| ==> Digit(t[i])) && (|t| > 1 ==> t[0] != '0' as int)
    then Some(DigitsValue(t)) else None
  }

  lemma {:induction false} DecimalIsDigits(n: nat)
    ensures Decimal(n) != [] && forall i :: 0 <= i < |Decimal(n)| ==> Digit(Decimal(n)[i])
    ensures n > 0 ==> Decimal(n)[0] != '0' as int
    ensures DigitsValue(Decimal(n)) == n
  {
    if n < 10 {
      assert Decimal(n)[..0] == [];
    } else {
      DecimalIsDigits(n / 10);
      assert Decimal(n)[..|Decimal(n)| - 1] == Decimal(n / 10);
    }
  }

  lemma ReadUndoesDecimal(n: nat)
    ensures ReadDecimal(Decimal(n)) == Some(n)
  {
    DecimalIsDigits(n);
  }

  lemma {:induction false} DecimalUndoesRead(t: Text)
    requires ReadDecimal(t).Some?
    ensures Decimal(ReadDecimal(t).value) == t
  {
    var n := |t| - 1;
    if n == 0 {
      OneDigit(t);
    } else {
      var front := t[..n];
      FrontReads(t);
      DecimalUndoesRead(front);
      LeadingDigit(front);
      hide Decimal, DigitsValue;
      NextDigit(DigitsValue(front), t[n]);
      assert t == front + [t[n]];
    }
  }

  lemma OneDigit(t: Text)
    requires |t| == 1 && Digit(t[0])
    ensures ReadDecimal(t).Some? && ReadDecimal(t).value == t[0] - '0' as int
    ensures Decimal(t[0] - '0' as int) == t
  {
    assert forall i :: 0 <= i < |t| ==> Digit(t[i]);
    assert t[..|t| - 1] == [];
    assert DigitsValue(t) == t[0] - '0' as int;
    assert t == [t[0]];
  }

  lemma FrontReads(t: Text)
    requires ReadDecimal(t).Some? && |t| > 1
    ensures Digit(t[|t| - 1]) && ReadDecimal(t[..|t| - 1]).Some?
    ensures ReadDecimal(t).value == ReadDecimal(t[..|t| - 1]).value * 10 + (t[|t| - 1] - '0' as int)
  {
    var front := t[..|t| - 1];
    assert forall i :: 0 <= i < |front| ==> front[i] == t[i];
  }

  lemma NextDigit(n: nat, u: Unit)
    requires n > 0 && Digit(u)
    ensures Decimal(n * 10 + (u - '0' as int)) == Decimal(n) + [u]
  {
    assert (n * 10 + (u - '0' as int)) / 10 == n && (n * 10 + (u - '0' as int)) % 10 == u - '0' as int;
  }

  lemma {:induction false} LeadingDigit(t: Text)
    requires t != [] && (forall i :: 0 <= i < |t| ==> Digit(t[i])) && t[0] != '0' as int
    ensures DigitsValue(t) > 0
  {
    if |t| == 1 {
      assert t[..0] == [];
    } else {
      LeadingDigit(t[..|t| - 1]);
    }
  }

  // A number below a power of ten has no more digits than the power has zeros.
  lemma {:induction false} DecimalLength(n: nat, digits: nat, bound: nat)
    requires digits > 0 && bound == Power10(digits) && n < bound
    ensures |Decimal(n)| <= digits
    decreases digits
  {
    if n >= 10 {
      assert digits > 1;
      DecimalLength(n / 10, digits - 1, Power10(digits - 1));
    }
  }

  function Power10(digits: nat): nat {
    if digits == 0 then 1 else 10 * Power10(digits - 1)
  }
}
