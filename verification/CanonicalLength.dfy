/** How long canonical text can get, and which units it is made of. */
module CanonicalLength {
  import opened Wrappers
  import opened TextCodec
  import opened TextOrder
  import opened CanonicalJson

  predicate AsciiText(t: Text) {
    forall i :: 0 <= i < |t| ==> t[i] < 0x80
  }

  // What JSON writes as it is.
  predicate PlainUnit(u: Unit) {
    0x20 <= u < 0x7F && u != QUOTE && u != BACKSLASH
  }

  predicate PlainText(t: Text) {
    forall i :: 0 <= i < |t| ==> PlainUnit(t[i])
  }

  // ASCII text of at most n units.
  predicate Fits(t: Text, n: nat) {
    |t| <= n && AsciiText(t)
  }

  // Room for a number of parts of at most n units each, in brackets, with commas between them.
  function Room(count: nat, n: nat): nat {
    count * (n + 1) + 2
  }

  lemma {:induction false} PlainIsWritten(s: Text)
    requires PlainText(s)
    ensures Escape(s) == s
  {
    if s != [] {
      assert EscapeUnit(s[0]) == [s[0]];
      assert PlainUnit(s[0]);
      PlainIsWritten(s[1..]);
      assert s == [s[0]] + s[1..];
    }
  }

  lemma QuoteFits(s: Text, n: nat)
    requires PlainText(s) && |s| <= n
    ensures Fits(Quote(s), n + 2)
  {
    PlainIsWritten(s);
    forall i | 0 <= i < |s| ensures s[i] < 0x80 {
      assert PlainUnit(s[i]);
    }
  }

  lemma MemberFits(key: Text, text: Text, k: nat, n: nat)
    requires PlainText(key) && |key| <= k && Fits(text, n)
    ensures Fits(Member(key, text), k + n + 3)
  {
    QuoteFits(key, k);
  }

  lemma {:induction false} CommasFit(parts: seq<Text>, n: nat)
    requires forall i :: 0 <= i < |parts| ==> Fits(parts[i], n)
    ensures Fits(Commas(parts), |parts| * (n + 1))
  {
    if parts != [] {
      assert Fits(parts[0], n);
      CommasFit(parts[1..], n);
      assert |parts| * (n + 1) == |parts[1..]| * (n + 1) + n + 1;
    }
  }

  lemma {:induction false} CanonicalItem(items: seq<Value>, i: nat)
    requires i < |items|
    ensures |CanonicalItems(items)| == |items| && CanonicalItems(items)[i] == Canonical(items[i])
  {
    hide Canonical;
    if i > 0 {
      CanonicalItem(items[1..], i - 1);
    } else if |items| > 1 {
      CanonicalItem(items[1..], 0);
    }
  }

  lemma {:induction false} CanonicalEntry(entries: seq<Entry<Value>>, i: nat)
    requires i < |entries|
    ensures |CanonicalEntries(entries)| == |entries|
    ensures CanonicalEntries(entries)[i] == Entry(entries[i].key, Canonical(entries[i].value))
  {
    hide Canonical;
    if i > 0 {
      CanonicalEntry(entries[1..], i - 1);
    } else if |entries| > 1 {
      CanonicalEntry(entries[1..], 0);
    }
  }

  lemma {:induction false} MemberAt(entries: seq<Entry<Text>>, i: nat)
    requires i < |entries|
    ensures |Members(entries)| == |entries| && Members(entries)[i] == Member(entries[i].key, entries[i].value)
  {
    hide Member;
    if i > 0 {
      MemberAt(entries[1..], i - 1);
    } else if |entries| > 1 {
      MemberAt(entries[1..], 0);
    }
  }

  lemma MembersLength(entries: seq<Entry<Text>>)
    ensures |Members(entries)| == |entries|
  {
    if entries != [] { MemberAt(entries, 0); }
  }

  lemma ArrayFits(items: seq<Value>, n: nat)
    requires forall i :: 0 <= i < |items| ==> Fits(Canonical(items[i]), n)
    ensures Fits(Canonical(Arr(items)), Room(|items|, n))
  {
    hide Fits;
    var parts := CanonicalItems(items);
    if items != [] { CanonicalItem(items, 0); }
    forall i | 0 <= i < |parts| ensures Fits(parts[i], n) {
      CanonicalItem(items, i);
    }
    CommasFit(parts, n);
    BracketsFit(Commas(parts), |items| * (n + 1), OPEN_BRACKET, CLOSE_BRACKET);
  }

  lemma BracketsFit(t: Text, n: nat, open: Unit, close: Unit)
    requires Fits(t, n) && open < 0x80 && close < 0x80
    ensures Fits([open] + t + [close], n + 2)
  {
  }

  lemma ObjectFits(entries: seq<Entry<Value>>, n: nat)
    requires forall i :: 0 <= i < |entries| ==> Fits(Member(entries[i].key, Canonical(entries[i].value)), n)
    ensures Fits(Canonical(Obj(entries)), Room(|entries|, n))
  {
    hide Fits, Member, SortEntries;
    var printed := CanonicalEntries(entries);
    if entries != [] { CanonicalEntry(entries, 0); }
    var sorted := SortEntries(printed);
    SortMembers(printed);
    var parts := Members(sorted);
    MembersLength(sorted);
    forall i | 0 <= i < |parts| ensures Fits(parts[i], n) {
      MemberAt(sorted, i);
      assert sorted[i] in printed;
      var j :| 0 <= j < |printed| && printed[j] == sorted[i];
      CanonicalEntry(entries, j);
    }
    CommasFit(parts, n);
    BracketsFit(Commas(parts), |entries| * (n + 1), OPEN_BRACE, CLOSE_BRACE);
  }

  // ----- nothing shorter would do -----

  predicate Surrogate(u: Unit) {
    HighSurrogate(u) || LowSurrogate(u)
  }

  const LOWER_HEX := T("0123456789abcdef")
  const NUMBERED := T("\\u")

  // The fewest units that stand for this one between quotes.
  function Least(u: Unit): nat {
    if u == QUOTE || u == BACKSLASH || 0x08 <= u <= 0x0A || u == 0x0C || u == 0x0D then 2
    else if u <= 0x1F then 6
    else 1
  }

  lemma ReadsAtLeast(t: Text)
    requires t != [] && ParseUnit(t).Some?
    ensures Least(ParseUnit(t).value.value) <= |t| - |ParseUnit(t).value.rest|
  {
    hide ParseHex4;
  }

  lemma LowerCaseHex(u: Unit)
    ensures |Hex4(u)| == 4
    ensures forall c :: c in Hex4(u) ==> c in LOWER_HEX
  {
    HexDigits(u);
    HexIsLowerCase(u / 0x1000);
    HexIsLowerCase(u / 0x100 % 16);
    HexIsLowerCase(u / 0x10 % 16);
    HexIsLowerCase(u % 16);
    hide HexDigit, T;
  }

  lemma HexIsLowerCase(d: nat)
    requires d < 16
    ensures HexDigit(d) in LOWER_HEX
  {
    assert LOWER_HEX[d] == HexDigit(d);
  }

  /**
   * A unit is written in the shortest way that reads back as it, a surrogate that stands alone always
   * with its number; hexadecimal digits are in lower case, and what is as short reads the same only by
   * the case of such digits.
   */
  lemma UnitIsShortest(u: Unit, t: Text, rest: Text)
    requires t != [] && ParseUnit(t + rest) == Some(Parsed(u, rest))
    ensures !Surrogate(u) ==> |EscapeUnit(u)| == Least(u) <= |t|
    ensures !Surrogate(u) && |t| == |EscapeUnit(u)| && |t| < 6 ==> t == EscapeUnit(u)
    ensures Surrogate(u) || |EscapeUnit(u)| == 6 ==>
              EscapeUnit(u) == NUMBERED + Hex4(u) && |Hex4(u)| == 4 && forall c :: c in Hex4(u) ==> c in LOWER_HEX
  {
    ReadsAtLeast(t + rest);
    LowerCaseHex(u);
    if Surrogate(u) || |EscapeUnit(u)| == 6 {
      assert EscapeUnit(u) == NUMBERED + Hex4(u);
    }
    hide Hex4;
  }

  function LeastText(s: Text): nat {
    if s == [] then 0 else Least(s[0]) + LeastText(s[1..])
  }

  lemma {:induction false} StringReadsAtLeast(t: Text)
    requires ParseString(t).Some?
    ensures LeastText(ParseString(t).value.value) + 1 <= |t| - |ParseString(t).value.rest|
    decreases |t|
  {
    if t[0] != QUOTE {
      ReadsAtLeast(t);
      var u := ParseUnit(t).value;
      var rest := ParseString(u.rest).value;
      StringReadsAtLeast(u.rest);
      assert ([u.value] + rest.value)[1..] == rest.value;
    }
  }

  lemma UnitIsLeast(u: Unit)
    requires !Surrogate(u)
    ensures |EscapeUnit(u)| == Least(u)
  {
  }

  lemma PairIsLeast(s: Text)
    requires |s| > 1 && Surrogate(s[0]) && Surrogate(s[1])
    ensures LeastText(s) == 2 + LeastText(s[2..])
  {
    assert s[1..][0] == s[1] && s[1..][1..] == s[2..];
    assert LeastText(s) == 1 + LeastText(s[1..]);
  }

  lemma {:induction false} WritesLeast(s: Text)
    requires Paired(s)
    ensures |Escape(s)| == LeastText(s)
    decreases |s|
  {
    hide EscapeUnit, Least, Paired, PairedAt;
    if s == [] {
    } else if |s| > 1 && HighSurrogate(s[0]) && LowSurrogate(s[1]) {
      RestIsPaired(s, 2);
      PairIsLeast(s);
      WritesLeast(s[2..]);
    } else {
      FirstIsNoSurrogate(s);
      RestIsPaired(s, 1);
      UnitIsLeast(s[0]);
      WritesLeast(s[1..]);
    }
  }

  lemma FirstIsNoSurrogate(s: Text)
    requires Paired(s) && s != [] && !(|s| > 1 && HighSurrogate(s[0]) && LowSurrogate(s[1]))
    ensures !Surrogate(s[0])
  {
    assert PairedAt(s, 0);
  }

  /** No text in quotes that reads back as a well-formed string is shorter than the one that is printed. */
  lemma {:induction false} StringIsShortest(s: Text, t: Text, rest: Text)
    requires Paired(s) && ParseString(t + rest) == Some(Parsed(s, rest))
    ensures |Quote(s)| <= 1 + |t|
  {
    StringReadsAtLeast(t + rest);
    WritesLeast(s);
  }

  lemma PairedTogether(a: Text, b: Text)
    requires Paired(a) && Paired(b)
    ensures Paired(a + b)
  {
    forall i | 0 <= i < |a + b| ensures PairedAt(a + b, i) {
      if i < |a| {
        assert PairedAt(a, i);
      } else {
        assert PairedAt(b, i - |a|);
      }
    }
  }

  lemma UnitIsWrittenPaired(u: Unit)
    ensures Paired(EscapeUnit(u))
  {
    var t := EscapeUnit(u);
    if |t| == 6 { HexIsAscii(u); }
    forall i | 0 <= i < |t| ensures !Surrogate(t[i]) {
    }
    hide EscapeUnit;
    forall i | 0 <= i < |t| ensures PairedAt(t, i) {
    }
  }

  lemma HexIsAscii(u: Unit)
    ensures forall i :: 0 <= i < 4 ==> Hex4(u)[i] < 0x80
  {
  }

  /** Whatever a string holds, what is printed for it has no lone surrogate, so UTF-8 carries it whole. */
  lemma {:induction false} EscapedIsPaired(s: Text)
    ensures Paired(Escape(s))
    decreases |s|
  {
    hide EscapeUnit;
    if s == [] {
    } else if |s| > 1 && HighSurrogate(s[0]) && LowSurrogate(s[1]) {
      EscapedIsPaired(s[2..]);
      assert Paired(s[..2]);
      PairedTogether(s[..2], Escape(s[2..]));
    } else {
      EscapedIsPaired(s[1..]);
      UnitIsWrittenPaired(s[0]);
      PairedTogether(EscapeUnit(s[0]), Escape(s[1..]));
    }
  }
}
