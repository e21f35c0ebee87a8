/** Glob patterns by way of regular expressions: the escaped text, the expression it denotes,
    and what that expression matches. */
module Globs {
  import opened Options

  // ---- what a glob means ----

  /** `*` is any text, `?` any one character, everything else itself. */
  predicate Glob(p: string, t: string)
    decreases |p| + |t|
  {
    if p == "" then t == ""
    else if p[0] == '*' then Glob(p[1..], t) || (t != "" && Glob(p, t[1..]))
    else t != "" && (p[0] == '?' || p[0] == t[0]) && Glob(p[1..], t[1..])
  }

  /** The same, except that a wildcard never stands for a newline. */
  predicate LineGlob(p: string, t: string)
    decreases |p| + |t|
  {
    if p == "" then t == ""
    else if p[0] == '*' then LineGlob(p[1..], t) || (t != "" && t[0] != '\n' && LineGlob(p, t[1..]))
    else if p[0] == '?' then t != "" && t[0] != '\n' && LineGlob(p[1..], t[1..])
    else t != "" && p[0] == t[0] && LineGlob(p[1..], t[1..])
  }

  // ---- the translation ----

  /** The characters `re.escape` puts a backslash before. */
  predicate IsSpecial(c: char) {
    IsMeta(c) || c == '-' || c == '&' || c == '~' || c == '#' || c == ' '
    || c == '\t' || c == '\n' || c == '\r' || c == '\U{000B}' || c == '\U{000C}'
  }

  /** The characters that mean something to the expression parser. */
  predicate IsMeta(c: char) {
    c == '\\' || c == '.' || c == '*' || c == '?' || c == '+' || c == '|' || c == '^' || c == '$'
    || c == '(' || c == ')' || c == '[' || c == ']' || c == '{' || c == '}'
  }

  function Escape(p: string): string {
    if p == "" then "" else (if IsSpecial(p[0]) then ['\\', p[0]] else [p[0]]) + Escape(p[1..])
  }

  /** `s.replace(a + b, to)`: left to right, without overlap. */
  function Replace(s: string, a: char, b: char, to: string): string {
    if |s| < 2 then s
    else if s[0] == a && s[1] == b then to + Replace(s[2..], a, b, to)
    else [s[0]] + Replace(s[1..], a, b, to)
  }

  function GlobToRegex(p: string): string {
    "^" + Replace(Replace(Escape(p), '\\', '*', ".*"), '\\', '?', ".") + "$"
  }

  // ---- the expressions it produces ----

  datatype Atom = Lit(c: char) | AnyChar | AnyText

  /** A parser for the fragment `^ ... $` of literals, escaped punctuation, `.` and `.*`;
      anything else is refused. */
  function Compile(regex: string): Option<seq<Atom>> {
    if regex != "" && regex[0] == '^' then Body(regex[1..]) else None
  }

  function Body(s: string): Option<seq<Atom>> {
    if s == "$" then Some([])
    else if s == "" then None
    else if s[0] == '.' then
      if |s| > 1 && s[1] == '*' then Front(AnyText, Body(s[2..])) else Front(AnyChar, Body(s[1..]))
    else if s[0] == '\\' then
      if |s| > 1 && IsSpecial(s[1]) then Front(Lit(s[1]), Body(s[2..])) else None
    else if IsMeta(s[0]) then None
    else Front(Lit(s[0]), Body(s[1..]))
  }

  function Front(a: Atom, rest: Option<seq<Atom>>): Option<seq<Atom>> {
    if rest.Some? then Some([a] + rest.value) else None
  }

  /** `regex.match(t)`: backtracking, `.` is anything but a newline, and `$` also matches before
      a newline that ends the text. */
  predicate MatchAtoms(atoms: seq<Atom>, t: string)
    decreases |atoms| + |t|
  {
    if atoms == [] then t == "" || t == "\n"
    else
      match atoms[0]
      case Lit(c) => t != "" && t[0] == c && MatchAtoms(atoms[1..], t[1..])
      case AnyChar => t != "" && t[0] != '\n' && MatchAtoms(atoms[1..], t[1..])
      case AnyText => MatchAtoms(atoms[1..], t) || (t != "" && t[0] != '\n' && MatchAtoms(atoms, t[1..]))
  }

  predicate RegexMatch(regex: string, t: string) {
    Compile(regex).Some? && MatchAtoms(Compile(regex).value, t)
  }

  // ---- the translation is understood as meant ----

  function AtomOf(c: char): Atom {
    if c == '*' then AnyText else if c == '?' then AnyChar else Lit(c)
  }

  function AtomsOf(p: string): seq<Atom> {
    if p == "" then [] else [AtomOf(p[0])] + AtomsOf(p[1..])
  }

  /** What the two replacements turn each escaped character into. */
  function Piece(c: char, stars: bool, marks: bool): string {
    if c == '*' && stars then ".*" else if c == '?' && marks then "."
    else if IsSpecial(c) then ['\\', c] else [c]
  }

  function Pieces(p: string, stars: bool, marks: bool): string {
    if p == "" then "" else Piece(p[0], stars, marks) + Pieces(p[1..], stars, marks)
  }

  lemma {:induction false} EscapeIsPieces(p: string)
    ensures Escape(p) == Pieces(p, false, false)
  {
    if p != "" {
      EscapeIsPieces(p[1..]);
    }
  }

  /** No piece starts with a wildcard, so none completes an escape begun by its predecessor. */
  lemma PiecesStart(p: string, stars: bool, marks: bool)
    ensures Pieces(p, stars, marks) != "" ==> Pieces(p, stars, marks)[0] != '*' && Pieces(p, stars, marks)[0] != '?'
  {}

  lemma ReplaceKeeps(s: string, b: char, to: string)
    requires s != "" && !(|s| > 1 && s[0] == '\\' && s[1] == b)
    ensures Replace(s, '\\', b, to) == [s[0]] + Replace(s[1..], '\\', b, to)
  {
    assert |s| == 1 ==> s == [s[0]] + s[1..];
  }

  /** An untouched piece passes through a replacement. */
  lemma PieceKept(piece: string, rest: string, b: char, to: string)
    requires piece != "" && (|piece| == 1 || (|piece| == 2 && piece[1] != b))
    requires piece[|piece| - 1] != '\\' || rest == "" || rest[0] != b
    ensures Replace(piece + rest, '\\', b, to) == piece + Replace(rest, '\\', b, to)
  {
    var s := piece + rest;
    ReplaceKeeps(s, b, to);
    if |piece| == 1 {
      assert s[1..] == rest;
    } else {
      assert s[1..] == [piece[1]] + rest && s[1..][1..] == rest;
      ReplaceKeeps(s[1..], b, to);
      assert piece == [piece[0]] + [piece[1]];
    }
  }

  lemma {:induction false} ReplaceStars(p: string)
    ensures Replace(Pieces(p, false, false), '\\', '*', ".*") == Pieces(p, true, false)
  {
    if p != "" {
      var piece, rest := Piece(p[0], false, false), Pieces(p[1..], false, false);
      ReplaceStars(p[1..]);
      PiecesStart(p[1..], false, false);
      if p[0] == '*' {
        assert (piece + rest)[2..] == rest;
      } else {
        PieceKept(piece, rest, '*', ".*");
      }
    }
  }

  lemma {:induction false} ReplaceMarks(p: string)
    ensures Replace(Pieces(p, true, false), '\\', '?', ".") == Pieces(p, true, true)
  {
    if p != "" {
      var piece, rest := Piece(p[0], true, false), Pieces(p[1..], true, false);
      ReplaceMarks(p[1..]);
      PiecesStart(p[1..], true, false);
      if p[0] == '?' {
        assert (piece + rest)[2..] == rest;
      } else {
        PieceKept(piece, rest, '?', ".");
      }
    }
  }

  lemma {:induction false} BodyOfPieces(p: string)
    ensures Body(Pieces(p, true, true) + "$") == Some(AtomsOf(p))
  {
    if p == "" {
      assert Pieces(p, true, true) + "$" == "$";
    } else {
      var piece, rest := Piece(p[0], true, true), Pieces(p[1..], true, true) + "$";
      var s := Pieces(p, true, true) + "$";
      BodyOfPieces(p[1..]);
      PiecesStart(p[1..], true, true);
      assert s == piece + rest && |rest| > 0 && rest[0] != '*';
      assert s[|piece|..] == rest;
      assert |s| > 1 && s != "$";
    }
  }

  /** Whatever the pattern contains, the translated text compiles, and to one atom per pattern
      character: nothing in a pattern can act as an expression operator. */
  lemma TranslationCompiles(p: string)
    ensures Compile(GlobToRegex(p)) == Some(AtomsOf(p))
  {
    EscapeIsPieces(p);
    ReplaceStars(p);
    ReplaceMarks(p);
    BodyOfPieces(p);
    assert GlobToRegex(p)[1..] == Pieces(p, true, true) + "$";
  }

  // ---- what is matched ----

  /** A match may leave one final newline over. */
  predicate UpToNewline(p: string, t: string) {
    LineGlob(p, t) || (t != "" && t[|t| - 1] == '\n' && LineGlob(p, t[..|t| - 1]))
  }

  lemma {:induction false} AtomsMatch(p: string, t: string)
    ensures MatchAtoms(AtomsOf(p), t) <==> UpToNewline(p, t)
    decreases |p| + |t|
  {
    var n := |t|;
    if p == "" {
      assert n > 0 ==> (t[..n - 1] == "" <==> n == 1);
      assert n == 1 ==> t == [t[0]];
    } else {
      assert AtomsOf(p)[1..] == AtomsOf(p[1..]);
      if n > 0 {
        assert t[1..] == "" <==> n == 1;
        if n > 1 {
          assert t[1..][..n - 2] == t[..n - 1][1..] && t[1..][n - 2] == t[n - 1];
        }
        if p[0] == '*' {
          AtomsMatch(p[1..], t);
          AtomsMatch(p, t[1..]);
        } else {
          AtomsMatch(p[1..], t[1..]);
        }
      } else if p[0] == '*' {
        AtomsMatch(p[1..], t);
      }
    }
  }

  /** For every pattern and every text: what the expression matches, newlines and all. */
  lemma RegexMatchIs(p: string, t: string)
    ensures RegexMatch(GlobToRegex(p), t) <==> UpToNewline(p, t)
  {
    TranslationCompiles(p);
    AtomsMatch(p, t);
  }

  lemma {:induction false} OneLine(p: string, t: string)
    requires '\n' !in t
    ensures LineGlob(p, t) <==> Glob(p, t)
    decreases |p| + |t|
  {
    if p != "" {
      if p[0] == '*' {
        OneLine(p[1..], t);
        if t != "" {
          OneLine(p, t[1..]);
        }
      } else if t != "" {
        OneLine(p[1..], t[1..]);
      }
    }
  }

  /** On a text without newlines the expression is the glob. */
  lemma RegexIsGlob(p: string, t: string)
    requires '\n' !in t
    ensures RegexMatch(GlobToRegex(p), t) <==> Glob(p, t)
  {
    RegexMatchIs(p, t);
    OneLine(p, t);
  }

  function Marks(n: nat): (p: string)
    ensures |p| == n && forall i :: 0 <= i < n ==> p[i] == '?'
  {
    if n == 0 then "" else ['?'] + Marks(n - 1)
  }

  /** One question mark per character: any text of that length, or any without newlines. */
  lemma {:induction false} MarksMatch(n: nat, t: string)
    ensures Glob(Marks(n), t) <==> |t| == n
    ensures LineGlob(Marks(n), t) <==> |t| == n && '\n' !in t
  {
    if n > 0 && t != "" {
      MarksMatch(n - 1, t[1..]);
      assert t == [t[0]] + t[1..];
    }
  }

  /** The texts on which the expressions and the globs agree, whatever the pattern, are exactly
      those without newlines. */
  lemma AgreeOnLines(t: string)
    ensures (forall p :: RegexMatch(GlobToRegex(p), t) <==> Glob(p, t)) <==> '\n' !in t
  {
    if '\n' !in t {
      forall p
        ensures RegexMatch(GlobToRegex(p), t) <==> Glob(p, t)
      {
        RegexIsGlob(p, t);
      }
    } else {
      MarksMissNewlines(t);
      RegexMatchIs(Marks(|t|), t);
    }
  }

  lemma MarksMissNewlines(t: string)
    requires '\n' in t
    ensures Glob(Marks(|t|), t) && !UpToNewline(Marks(|t|), t)
  {
    MarksMatch(|t|, t);
    MarksMatch(|t|, t[..|t| - 1]);
  }

  /** With newlines they differ in either direction. */
  lemma NewlinesDiffer()
    ensures !RegexMatch(GlobToRegex("a*"), "a\nb") && Glob("a*", "a\nb")
    ensures RegexMatch(GlobToRegex("a"), "a\n") && !Glob("a", "a\n")
  {
    RegexMatchIs("a*", "a\nb");
    RegexMatchIs("a", "a\n");
    var t := "a\nb";
    assert t[1..] == "\nb" && "\nb"[1..] == "b" && "b"[1..] == "";
    assert "a*"[1..] == "*" && "*"[1..] == "";
    assert !LineGlob("", "\nb") && !LineGlob("*", "\nb");
    assert Glob("", "") && Glob("*", "") && Glob("*", "b") && Glob("*", "\nb");
    assert "a\n"[..1] == "a" && "a\n"[1..] == "\n";
  }

  // ---- laws of globs ----

  lemma {:induction false} GlobItself(p: string)
    ensures Glob(p, p)
  {
    if p != "" {
      GlobItself(p[1..]);
      if p[0] == '*' {
        StarAbsorbs(p, p[1..], p[0]);
      }
    }
  }

  lemma StarAbsorbs(p: string, t: string, c: char)
    requires p != "" && p[0] == '*' && Glob(p[1..], t)
    ensures Glob(p, [c] + t)
  {
    assert Glob(p, t);
    assert ([c] + t)[1..] == t;
  }

  lemma {:induction false} StarIsAnything(t: string)
    ensures Glob("*", t)
  {
    if t == "" {
      assert Glob("*"[1..], "");
    } else {
      StarIsAnything(t[1..]);
    }
  }

  /** A final `*` makes a pattern match every continuation of what it matched before, and
      nothing else. */
  lemma {:induction false} FinalStar(p: string, t: string)
    ensures Glob(p + "*", t) <==> exists k :: 0 <= k <= |t| && Glob(p, t[..k])
    decreases |p| + |t|
  {
    if p == "" {
      assert p + "*" == "*";
      StarIsAnything(t);
      assert t[..0] == "" && Glob(p, t[..0]);
    } else {
      assert (p + "*")[1..] == p[1..] + "*" && (p + "*")[0] == p[0];
      if p[0] == '*' {
        FinalStar(p[1..], t);
        if t != "" { FinalStar(p, t[1..]); }
        StarCuts(p, t);
      } else if t != "" {
        FinalStar(p[1..], t[1..]);
        LetterCuts(p, t);
      } else {
        assert forall k :: 0 <= k <= |t| ==> t[..k] == "";
      }
    }
  }

  lemma StarCuts(p: string, t: string)
    requires p != "" && p[0] == '*'
    ensures (exists k :: 0 <= k <= |t| && Glob(p, t[..k]))
       <==> (exists k :: 0 <= k <= |t| && Glob(p[1..], t[..k])) || (t != "" && exists k :: 0 <= k <= |t| - 1 && Glob(p, t[1..][..k]))
  {
    forall k | 0 <= k <= |t|
      ensures Glob(p, t[..k]) <==> Glob(p[1..], t[..k]) || (k > 0 && Glob(p, t[1..][..k - 1]))
    {
      if k > 0 { assert t[..k][1..] == t[1..][..k - 1]; }
    }
    if t != "" && exists k :: 0 <= k <= |t| - 1 && Glob(p, t[1..][..k]) {
      var k :| 0 <= k <= |t| - 1 && Glob(p, t[1..][..k]);
      assert Glob(p, t[..k + 1]);
    }
  }

  lemma LetterCuts(p: string, t: string)
    requires p != "" && p[0] != '*' && t != ""
    ensures (exists k :: 0 <= k <= |t| && Glob(p, t[..k]))
       <==> (p[0] == '?' || p[0] == t[0]) && exists k :: 0 <= k <= |t| - 1 && Glob(p[1..], t[1..][..k])
  {
    forall k | 0 <= k <= |t|
      ensures Glob(p, t[..k]) <==> k > 0 && (p[0] == '?' || p[0] == t[0]) && Glob(p[1..], t[1..][..k - 1])
    {
      if k > 0 { assert t[..k][1..] == t[1..][..k - 1]; }
    }
    if exists k :: 0 <= k <= |t| - 1 && Glob(p[1..], t[1..][..k]) {
      var k :| 0 <= k <= |t| - 1 && Glob(p[1..], t[1..][..k]);
      assert (p[0] == '?' || p[0] == t[0]) ==> Glob(p, t[..k + 1]);
    }
  }
}
