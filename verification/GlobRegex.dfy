/**
 * globPatternToRegex (packages/core/src/publication.ts): an index loop writes the text of a
 * regular expression, which the engine reads back and matches case-insensitively. The text,
 * its reading and its matching are all modelled here, against a direct matcher of globs.
 */
module GlobRegex {
  import opened Wrappers

  // ----- regular expressions: the part of ECMAScript's that the loop can write -----

  datatype Regex =
    | Empty
    | Literal(c: char)
    | Dot
    | NotSlash                     // the class [^/]
    | Star(r: Regex)
    | Optional(r: Regex)
    | Concat(first: Regex, rest: Regex)

  predicate SyntaxCharacter(c: char) {
    c in "^$\\.*+?()[]{}|"
  }

  // What the source's replace escapes; `*` never reaches it.
  predicate Escaped(c: char) {
    c in "|\\{}()[]^$+?."
  }

  predicate LineTerminator(c: char) {
    c == '\n' || c == '\r' || c == '\U{2028}' || c == '\U{2029}'
  }

  predicate Printable(c: char) {
    ' ' <= c <= '~'
  }

  // Case-insensitive matching compares case-folded characters. Folding is left open, except
  // that nothing but a slash folds to what a slash folds to.
  ghost predicate FoldsSlashAlone(fold: char -> char) {
    forall c :: fold(c) == fold('/') <==> c == '/'
  }

  ghost predicate Matches(r: Regex, s: string, fold: char -> char)
    decreases r, |s|
  {
    match r
    case Empty => s == ""
    case Literal(c) => |s| == 1 && fold(s[0]) == fold(c)
    case Dot => |s| == 1 && !LineTerminator(s[0])
    case NotSlash => |s| == 1 && fold(s[0]) != fold('/')
    case Star(body) => s == "" || exists i :: 0 < i <= |s| && Matches(body, s[..i], fold) && Matches(r, s[i..], fold)
    case Optional(body) => s == "" || Matches(body, s, fold)
    case Concat(a, b) => exists i :: 0 <= i <= |s| && Matches(a, s[..i], fold) && Matches(b, s[i..], fold)
  }

  // ----- reading the text of an expression -----

  // One atom with its quantifier, and where the rest begins.
  datatype Parsed = Parsed(regex: Regex, length: nat)

  function ParseAtom(s: string): (p: Option<Parsed>)
    ensures p.Some? ==> 0 < p.value.length <= |s|
    decreases |s|, 0
  {
    if s == "" then None
    else if s[0] == '\\' then
      if |s| >= 2 && (SyntaxCharacter(s[1]) || s[1] == '/') then Some(Parsed(Literal(s[1]), 2)) else None
    else if s[0] == '.' then Some(Parsed(Dot, 1))
    else if "[^/]" <= s then Some(Parsed(NotSlash, 4))
    else if "(?:" <= s then
      var body := ParseTerms(s[3..]);
      if body.Some? && 3 + body.value.length < |s| && s[3 + body.value.length] == ')'
      then Some(Parsed(body.value.regex, body.value.length + 4)) else None
    else if SyntaxCharacter(s[0]) then None
    else Some(Parsed(Literal(s[0]), 1))
  }

  // An atom at the start of a text, with the star or question mark that may follow it.
  function Quantified(atom: Parsed, s: string): (p: Parsed)
    ensures atom.length <= p.length && (atom.length <= |s| ==> p.length <= |s|)
  {
    var n := atom.length;
    if n < |s| && s[n] == '*' then Parsed(Star(atom.regex), n + 1)
    else if n < |s| && s[n] == '?' then Parsed(Optional(atom.regex), n + 1)
    else atom
  }

  // Terms up to the end, a closing parenthesis, or the final anchor.
  function ParseTerms(s: string): (p: Option<Parsed>)
    ensures p.Some? ==> p.value.length <= |s|
    decreases |s|, 1
  {
    if s == "" || s[0] == ')' || s[0] == '$' then Some(Parsed(Empty, 0))
    else
      var atom := ParseAtom(s);
      if atom.None? then None
      else
        var quantified := Quantified(atom.value, s);
        var rest := ParseTerms(s[quantified.length..]);
        if rest.None? then None
        else Some(Parsed(Concat(quantified.regex, rest.value.regex), quantified.length + rest.value.length))
  }

  // An expression anchored at both ends.
  function ParseAnchored(s: string): Option<Regex> {
    if s == "" || s[0] != '^' then None
    else
      var body := ParseTerms(s[1..]);
      if body.Some? && s[1 + body.value.length..] == "$" then Some(body.value.regex) else None
  }

  // ----- globs -----

  /**
   * A direct matcher: two stars and a slash stand for nothing or any text ending in a slash,
   * two stars for any text, one star for any text without a slash, anything else for itself.
   */
  predicate GlobMatches(pattern: string, path: string, fold: char -> char)
    decreases |pattern|
  {
    if pattern == "" then path == ""
    else if "**/" <= pattern then
      GlobMatches(pattern[3..], path, fold)
      || exists i :: 0 <= i < |path| && path[i] == '/' && GlobMatches(pattern[3..], path[i + 1..], fold)
    else if "**" <= pattern then exists i :: 0 <= i <= |path| && GlobMatches(pattern[2..], path[i..], fold)
    else if pattern[0] == '*' then
      exists i :: 0 <= i <= |path| && '/' !in path[..i] && GlobMatches(pattern[1..], path[i..], fold)
    else path != "" && fold(path[0]) == fold(pattern[0]) && GlobMatches(pattern[1..], path[1..], fold)
  }

  // ----- the loop -----

  // What one turn of the loop reads: two stars and a slash, two stars, one star, or a character.
  datatype Piece = Directories | AnyText | AnySegmentText | Character(c: char) {
    function Width(): (n: nat)
      ensures 0 < n
    {
      match this
      case Directories => 3
      case AnyText => 2
      case _ => 1
    }

    // The text it writes.
    function Text(): string {
      match this
      case Directories => "(?:.*/)?"
      case AnyText => ".*"
      case AnySegmentText => "[^/]*"
      case Character(c) => if Escaped(c) then ['\\', c] else [c]
    }

    // The term that text denotes.
    function Term(): Regex {
      match this
      case Directories => Optional(Concat(Star(Dot), Concat(Literal('/'), Empty)))
      case AnyText => Star(Dot)
      case AnySegmentText => Star(NotSlash)
      case Character(c) => Literal(c)
    }
  }

  function FirstPiece(pattern: string): (piece: Piece)
    requires pattern != ""
    ensures piece.Width() <= |pattern|
    ensures piece.Character? ==> piece.c != '*'
  {
    if pattern[0] == '*' && |pattern| > 1 && pattern[1] == '*' then
      if |pattern| > 2 && pattern[2] == '/' then Directories else AnyText
    else if pattern[0] == '*' then AnySegmentText
    else Character(pattern[0])
  }

  function Pieces(pattern: string): seq<Piece> {
    if pattern == "" then [] else [FirstPiece(pattern)] + Pieces(pattern[FirstPiece(pattern).Width()..])
  }

  function Text(pieces: seq<Piece>): string {
    if pieces == [] then "" else pieces[0].Text() + Text(pieces[1..])
  }

  function Expression(pieces: seq<Piece>): Regex {
    if pieces == [] then Empty else Concat(pieces[0].Term(), Expression(pieces[1..]))
  }

  method GlobPatternToRegex(pattern: string) returns (source: string)
    ensures source == "^" + Text(Pieces(pattern)) + "$"
  {
    source := "^";
    var index := 0;
    while index < |pattern|
      invariant 0 <= index <= |pattern|
      invariant source + Text(Pieces(pattern[index..])) == "^" + Text(Pieces(pattern))
    {
      ghost var left, written := pattern[index..], source;
      var character := pattern[index];
      if character == '*' && index + 1 < |pattern| && pattern[index + 1] == '*' {
        if index + 2 < |pattern| && pattern[index + 2] == '/' {
          source := source + "(?:.*/)?";
          index := index + 2;
        } else {
          source := source + ".*";
          index := index + 1;
        }
      } else if character == '*' {
        source := source + "[^/]*";
      } else {
        source := source + if Escaped(character) then ['\\', character] else [character];
      }
      index := index + 1;
      OneTurn(left, written, source, pattern[index..]);
    }
    source := source + "$";
  }

  lemma OneTurn(left: string, written: string, source: string, rest: string)
    requires left != "" && source == written + FirstPiece(left).Text() && rest == left[FirstPiece(left).Width()..]
    ensures source + Text(Pieces(rest)) == written + Text(Pieces(left))
  {
    hide FirstPiece, Piece.Text, Piece.Width;
    assert Pieces(left) == [FirstPiece(left)] + Pieces(rest);
    assert Pieces(left)[1..] == Pieces(rest);
  }

  // ----- the text reads back as the expression one would expect -----

  // No piece begins with a quantifier, so an atom is never quantified by its neighbour.
  predicate Unquantified(s: string) {
    s != "" && s[0] != '*' && s[0] != '?'
  }

  ghost predicate FromPattern(pieces: seq<Piece>) {
    forall i :: 0 <= i < |pieces| && pieces[i].Character? ==> pieces[i].c != '*'
  }

  lemma {:induction false} PiecesFromPattern(pattern: string)
    ensures FromPattern(Pieces(pattern))
    decreases |pattern|
  {
    if pattern != "" {
      PiecesFromPattern(pattern[FirstPiece(pattern).Width()..]);
    }
  }

  lemma TextUnquantified(pieces: seq<Piece>)
    requires FromPattern(pieces)
    ensures Unquantified(Text(pieces) + "$")
  {
    if pieces != [] {
      assert (Text(pieces) + "$")[0] == pieces[0].Text()[0];
    }
  }

  lemma ReadTerm(s: string, term: Parsed, tail: Option<Parsed>)
    requires s != "" && s[0] != ')' && s[0] != '$'
    requires ParseAtom(s).Some? && Quantified(ParseAtom(s).value, s) == term
    requires tail == ParseTerms(s[term.length..]) && tail.Some?
    ensures ParseTerms(s) == Some(Parsed(Concat(term.regex, tail.value.regex), term.length + tail.value.length))
  {
    hide ParseAtom, Quantified;
  }

  lemma ReadAtom(piece: Piece, rest: string)
    requires piece.Character? ==> piece.c != '*'
    requires Unquantified(rest)
    ensures var s := piece.Text() + rest;
            && s[0] != ')' && s[0] != '$'
            && ParseAtom(s).Some? && Quantified(ParseAtom(s).value, s) == Parsed(piece.Term(), |piece.Text()|)
  {
    hide ParseTerms;
    var s := piece.Text() + rest;
    match piece
    case Directories => ReadDirectories(rest);
    case AnyText => assert ParseAtom(s) == Some(Parsed(Dot, 1));
    case AnySegmentText =>
      assert s[..4] == "[^/]";
      assert ParseAtom(s) == Some(Parsed(NotSlash, 4));
    case Character(c) =>
      assert s[|piece.Text()|] == rest[0];
      if Escaped(c) {
        assert ParseAtom(s) == Some(Parsed(Literal(c), 2));
      } else {
        assert s[0] == c;
        assert ParseAtom(s) == Some(Parsed(Literal(c), 1));
      }
  }

  // Reading one piece, whatever follows it.
  lemma ReadPiece(piece: Piece, rest: string, tail: Option<Parsed>)
    requires piece.Character? ==> piece.c != '*'
    requires Unquantified(rest) && tail == ParseTerms(rest) && tail.Some?
    ensures ParseTerms(piece.Text() + rest)
        == Some(Parsed(Concat(piece.Term(), tail.value.regex), |piece.Text()| + tail.value.length))
  {
    hide ParseAtom, ParseTerms, Quantified;
    var s := piece.Text() + rest;
    ReadAtom(piece, rest);
    assert s[|piece.Text()|..] == rest;
    ReadTerm(s, Parsed(piece.Term(), |piece.Text()|), tail);
  }

  lemma ReadDirectories(rest: string)
    ensures ParseAtom("(?:.*/)?" + rest) == Some(Parsed(Optional(Concat(Star(Dot), Concat(Literal('/'), Empty))).r, 7))
  {
    var s := "(?:.*/)?" + rest;
    assert s[..3] == "(?:" && s[0] == '(';
    var inner := s[3..];
    assert inner == ".*/)?" + rest;
    var third := inner[2..];
    assert third == "/)?" + rest;
    var last := third[1..];
    assert last[0] == ')';
    assert ParseTerms(last) == Some(Parsed(Empty, 0));
    assert ParseAtom(third) == Some(Parsed(Literal('/'), 1));
    assert ParseTerms(third) == Some(Parsed(Concat(Literal('/'), Empty), 1));
    assert ParseAtom(inner) == Some(Parsed(Dot, 1));
    assert ParseTerms(inner) == Some(Parsed(Concat(Star(Dot), Concat(Literal('/'), Empty)), 3));
    assert s[6] == ')';
  }

  lemma TextSplits(pieces: seq<Piece>)
    requires pieces != [] && FromPattern(pieces)
    ensures FromPattern(pieces[1..]) && (pieces[0].Character? ==> pieces[0].c != '*')
    ensures Expression(pieces) == Concat(pieces[0].Term(), Expression(pieces[1..]))
    ensures Text(pieces) + "$" == pieces[0].Text() + (Text(pieces[1..]) + "$")
    ensures |Text(pieces)| == |pieces[0].Text()| + |Text(pieces[1..])|
  {
  }

  lemma {:induction false} ReadText(pieces: seq<Piece>)
    requires FromPattern(pieces)
    ensures ParseTerms(Text(pieces) + "$") == Some(Parsed(Expression(pieces), |Text(pieces)|))
  {
    if pieces == [] {
      assert Text(pieces) + "$" == "$";
    } else {
      hide Text, Expression, FromPattern, ParseTerms, Unquantified, Piece.Text, Piece.Term;
      var rest := Text(pieces[1..]) + "$";
      TextSplits(pieces);
      ReadText(pieces[1..]);
      TextUnquantified(pieces[1..]);
      ReadPiece(pieces[0], rest, ParseTerms(rest));
    }
  }

  lemma ReadsBack(pattern: string)
    ensures ParseAnchored("^" + Text(Pieces(pattern)) + "$") == Some(Expression(Pieces(pattern)))
  {
    PiecesFromPattern(pattern);
    ReadText(Pieces(pattern));
    var s := "^" + Text(Pieces(pattern)) + "$";
    assert s[1..] == Text(Pieces(pattern)) + "$";
    assert s[1 + |Text(Pieces(pattern))|..] == "$";
  }

  // ----- the expression matches what the glob matches -----

  lemma {:induction false} StarDot(s: string, fold: char -> char)
    requires forall c :: c in s ==> Printable(c)
    ensures Matches(Star(Dot), s, fold)
  {
    if s != "" {
      StarDot(s[1..], fold);
      assert Matches(Dot, s[..1], fold) by { assert s[..1][0] == s[0]; assert s[0] in s; }
    }
  }

  lemma {:induction false} StarNotSlash(s: string, fold: char -> char)
    requires FoldsSlashAlone(fold)
    ensures Matches(Star(NotSlash), s, fold) <==> '/' !in s
  {
    if s != "" {
      if Matches(Star(NotSlash), s, fold) {
        var i :| 0 < i <= |s| && Matches(NotSlash, s[..i], fold) && Matches(Star(NotSlash), s[i..], fold);
        StarNotSlash(s[i..], fold);
        assert i == 1 && s == s[..1] + s[1..];
      }
      if '/' !in s {
        StarNotSlash(s[1..], fold);
        assert s[..1][0] == s[0];
        assert Matches(NotSlash, s[..1], fold);
      }
    }
  }

  const SLASH_TERM: Regex := Concat(Literal('/'), Empty)

  lemma DirectoriesEndInSlash(s: string, fold: char -> char)
    requires FoldsSlashAlone(fold) && Matches(Concat(Star(Dot), SLASH_TERM), s, fold)
    ensures s != "" && s[|s| - 1] == '/'
  {
    var i :| 0 <= i <= |s| && Matches(Star(Dot), s[..i], fold) && Matches(SLASH_TERM, s[i..], fold);
    var last := s[i..];
    var j :| 0 <= j <= |last| && Matches(Literal('/'), last[..j], fold) && Matches(Empty, last[j..], fold);
    assert j == 1 && |last| == 1 && last[..j][0] == s[|s| - 1];
  }

  lemma SlashEndsDirectories(s: string, fold: char -> char)
    requires (forall c :: c in s ==> Printable(c)) && s != "" && s[|s| - 1] == '/'
    ensures Matches(Concat(Star(Dot), SLASH_TERM), s, fold)
  {
    var i := |s| - 1;
    StarDot(s[..i], fold);
    var last := s[i..];
    assert Matches(Literal('/'), last[..1], fold) && Matches(Empty, last[1..], fold);
    assert Matches(SLASH_TERM, last, fold);
  }

  // `(?:.*/)?` matches nothing, or any text that ends in a slash.
  lemma DirectoriesMatch(s: string, fold: char -> char)
    requires FoldsSlashAlone(fold) && forall c :: c in s ==> Printable(c)
    ensures Matches(Directories.Term(), s, fold) <==> s == "" || s[|s| - 1] == '/'
  {
    if Matches(Concat(Star(Dot), SLASH_TERM), s, fold) { DirectoriesEndInSlash(s, fold); }
    if s != "" && s[|s| - 1] == '/' { SlashEndsDirectories(s, fold); }
  }

  // The expression of a pattern matches exactly when the pattern does.
  lemma {:induction false} SameMeaning(pattern: string, path: string, fold: char -> char)
    requires FoldsSlashAlone(fold) && forall c :: c in path ==> Printable(c)
    ensures Matches(Expression(Pieces(pattern)), path, fold) <==> GlobMatches(pattern, path, fold)
    decreases |pattern|
  {
    if pattern == "" { return; }
    var piece := FirstPiece(pattern);
    var rest := pattern[piece.Width()..];
    var more := Expression(Pieces(rest));
    assert Pieces(pattern)[1..] == Pieces(rest);
    assert Expression(Pieces(pattern)) == Concat(piece.Term(), more);
    forall i | 0 <= i <= |path|
      ensures Matches(more, path[i..], fold) <==> GlobMatches(rest, path[i..], fold)
    {
      SameMeaning(rest, path[i..], fold);
    }
    match piece
    case Directories => DirectoriesCase(pattern, path, more, fold);
    case AnyText =>
      assert "**" <= pattern && !("**/" <= pattern);
      forall i | 0 <= i <= |path| ensures Matches(Star(Dot), path[..i], fold) { StarDot(path[..i], fold); }
    case AnySegmentText =>
      assert !("**" <= pattern);
      forall i | 0 <= i <= |path| ensures Matches(Star(NotSlash), path[..i], fold) <==> '/' !in path[..i] {
        StarNotSlash(path[..i], fold);
      }
    case Character(c) => CharacterCase(pattern, path, more, fold);
  }

  lemma DirectoriesCase(pattern: string, path: string, more: Regex, fold: char -> char)
    requires FoldsSlashAlone(fold) && forall c :: c in path ==> Printable(c)
    requires "**/" <= pattern
    requires forall i :: 0 <= i <= |path| ==>
        (Matches(more, path[i..], fold) <==> GlobMatches(pattern[3..], path[i..], fold))
    ensures Matches(Concat(Directories.Term(), more), path, fold) <==> GlobMatches(pattern, path, fold)
  {
    forall i | 0 <= i <= |path| ensures Matches(Directories.Term(), path[..i], fold) <==> i == 0 || path[i - 1] == '/' {
      DirectoriesMatch(path[..i], fold);
    }
    assert path[0..] == path;
    if Matches(Concat(Directories.Term(), more), path, fold) {
      var i :| 0 <= i <= |path| && Matches(Directories.Term(), path[..i], fold) && Matches(more, path[i..], fold);
      if i > 0 { assert path[(i - 1) + 1..] == path[i..]; }
    }
    if GlobMatches(pattern, path, fold) && !GlobMatches(pattern[3..], path, fold) {
      var i :| 0 <= i < |path| && path[i] == '/' && GlobMatches(pattern[3..], path[i + 1..], fold);
      assert Matches(Directories.Term(), path[..i + 1], fold) && Matches(more, path[i + 1..], fold);
    }
  }

  lemma CharacterCase(pattern: string, path: string, more: Regex, fold: char -> char)
    requires pattern != "" && pattern[0] != '*'
    requires forall i :: 0 <= i <= |path| ==>
        (Matches(more, path[i..], fold) <==> GlobMatches(pattern[1..], path[i..], fold))
    ensures Matches(Concat(Literal(pattern[0]), more), path, fold) <==> GlobMatches(pattern, path, fold)
  {
    if path != "" {
      assert path[..1][0] == path[0];
      assert Matches(Literal(pattern[0]), path[..1], fold) <==> fold(path[0]) == fold(pattern[0]);
    }
  }

  /** Whatever the pattern, the written expression is readable and means what the glob means. */
  lemma GlobPreserved(pattern: string, path: string, fold: char -> char)
    requires FoldsSlashAlone(fold) && forall c :: c in path ==> Printable(c)
    ensures var read := ParseAnchored("^" + Text(Pieces(pattern)) + "$");
            read.Some? && (Matches(read.value, path, fold) <==> GlobMatches(pattern, path, fold))
  {
    ReadsBack(pattern);
    SameMeaning(pattern, path, fold);
  }
}
