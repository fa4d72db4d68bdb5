/**
 * The watch file patterns of `cmd/ike/watch/file_pattern.go`: a pattern is either a regular
 * expression given as "regex{{...}}" or a glob, translated into a regular expression. In the
 * directory part "**" stands for any path and "*" for one name; in the file-name part every "*"
 * stands for any text. Compiling and matching regular expressions is an input of the model.
 */
module FilePattern {
  import opened GoStrings
  import opened Seqs

  const RegexpPrefix := "regex{{"
  const RegexpSuffix := "}}"
  const AnyNameUntilSeparator := "^[^/]+"
  const Anything := ".*"
  const TwoStars := "<two-stars-replacement>"
  const EndOfLine := "$"
  const EscapedDot := "\\."

  /** A pattern spelled "regex{{...}}". */
  predicate IsRegexDefinition(p: string)
  {
    HasPrefix(p, RegexpPrefix) && HasSuffix(p, RegexpSuffix)
  }

  /** The prefix and the suffix of a regex definition cannot overlap. */
  lemma RegexDefinitionLength(p: string)
    requires IsRegexDefinition(p)
    ensures |p| >= |RegexpPrefix| + |RegexpSuffix|
  {
    assert p[|p| - 2] == p[|p| - 2..][0] == '}';
    assert forall k :: 0 <= k < 7 ==> p[k] == p[..7][k];
  }

  /** The position of the last '/', or -1. */
  function LastSlash(s: string): (i: int)
    ensures -1 <= i < |s|
    ensures i >= 0 ==> s[i] == '/'
    ensures forall j :: i < j < |s| ==> s[j] != '/'
  {
    if |s| == 0 then -1 else if s[|s| - 1] == '/' then |s| - 1 else LastSlash(s[..|s| - 1])
  }

  /** The directory part with every leading any-path prefix (two stars and a slash) removed. */
  function StripAnyPath(path: string): (r: string)
    ensures !HasPrefix(r, "**/")
    ensures |r| <= |path| && r == path[|path| - |r|..]
    decreases |path|
  {
    if HasPrefix(path, "**/") then StripAnyPath(path[3..]) else path
  }

  /** `transformPathPatternToRegExp`: the loop that strips the prefixes, then the replacements. */
  method TransformPath(path: string) returns (r: string)
    ensures r == PathRegExp(path)
  {
    var p := path;
    while HasPrefix(p, "**/")
      invariant StripAnyPath(p) == StripAnyPath(path)
      decreases |p|
    {
      AnyPathSlash(p);
      var i := IndexOf(p, '/');
      p := p[i + 1..];
    }
    r := Chain(p);
  }

  /** The first '/' of an any-path prefix is the one after the two stars. */
  lemma AnyPathSlash(p: string)
    requires HasPrefix(p, "**/")
    ensures '/' in p && IndexOf(p, '/') == 2
  {
    assert p[0] == p[..3][0] && p[1] == p[..3][1] && p[2] == p[..3][2];
    var i := IndexOf(p, '/');
    assert i >= 2;
    assert i <= 2 by {
      assert forall j :: 0 <= j < i ==> p[..i][j] == p[j];
    }
  }

  function EscapeDots(s: string): string
  {
    ReplaceAll(s, ".", EscapedDot)
  }

  /** The three replacements of the directory part, after the dots are escaped. */
  function Chain(s: string): string
  {
    var p := ReplaceAll(EscapeDots(s), "**", TwoStars);
    var q := ReplaceAll(p, "*", AnyNameUntilSeparator);
    ReplaceAll(q, TwoStars, Anything)
  }

  function PathRegExp(path: string): string
  {
    Chain(StripAnyPath(path))
  }

  /**
   * The translation of a directory part read left to right: "**" is any text, a lone "*" is one
   * name, a '.' is a literal dot, and everything else stands for itself.
   */
  function Glob(s: string): (r: string)
    decreases |s|
  {
    if |s| == 0 then ""
    else if HasPrefix(s, "**") then Anything + Glob(s[2..])
    else if s[0] == '*' then AnyNameUntilSeparator + Glob(s[1..])
    else if s[0] == '.' then EscapedDot + Glob(s[1..])
    else [s[0]] + Glob(s[1..])
  }

  /** The first replacement: dots escaped, then "**" marked. */
  function Stage1(s: string): string
  {
    ReplaceAll(EscapeDots(s), "**", TwoStars)
  }

  function Stage2(s: string): string
  {
    ReplaceAll(Stage1(s), "*", AnyNameUntilSeparator)
  }

  /** The text of one token after the first replacement. */
  function Token1(s: string): string
    requires |s| > 0
  {
    if HasPrefix(s, "**") then TwoStars else if s[0] == '*' then "*" else if s[0] == '.' then EscapedDot else [s[0]]
  }

  function TokenLength(s: string): (n: nat)
    requires |s| > 0
    ensures 1 <= n <= |s|
  {
    if HasPrefix(s, "**") then 2 else 1
  }

  /** A replacement leaves a prefix alone when the prefix cannot start the pattern. */
  lemma {:induction false} ReplacePeel(x: string, y: string, pat: string, rep: string)
    requires |pat| > 0 && pat[0] !in x
    ensures ReplaceAll(x + y, pat, rep) == x + ReplaceAll(y, pat, rep)
    decreases |x|
  {
    if |x| > 0 {
      var s := x + y;
      assert s[0] == x[0] && s[1..] == x[1..] + y;
      if |s| >= |pat| {
        assert s[..|pat|][0] == x[0];
        ReplacePeel(x[1..], y, pat, rep);
      } else {
        assert ReplaceAll(y, pat, rep) == y;
      }
    } else {
      assert x + y == y;
    }
  }

  lemma ReplaceHead(pat: string, y: string, rep: string)
    requires |pat| > 0
    ensures ReplaceAll(pat + y, pat, rep) == rep + ReplaceAll(y, pat, rep)
  {
    assert (pat + y)[..|pat|] == pat && (pat + y)[|pat|..] == y;
  }

  lemma EscapeDotsConcat(a: string, b: string)
    ensures EscapeDots(a + b) == EscapeDots(a) + EscapeDots(b)
  {
    ReplaceAllChar(a + b, '.', EscapedDot);
    ReplaceAllChar(a, '.', EscapedDot);
    ReplaceAllChar(b, '.', EscapedDot);
    MapCharConcat(a, b, '.', EscapedDot);
  }

  /** The escaped text of one token. */
  lemma EscapeToken(s: string)
    requires |s| > 0
    ensures EscapeDots(s[..TokenLength(s)]) == (if HasPrefix(s, "**") then "**" else if s[0] == '.' then EscapedDot else [s[0]])
  {
    var t := s[..TokenLength(s)];
    ReplaceAllChar(t, '.', EscapedDot);
    if |t| == 2 {
      assert t[1..] == [t[1]] && [t[1]][1..] == [];
    } else {
      assert t[1..] == [];
    }
  }

  /** The escaped rest does not start with '*' unless the rest does. */
  lemma EscapeStart(s: string)
    requires |s| > 0 && s[0] != '*'
    ensures |EscapeDots(s)| > 0 && EscapeDots(s)[0] != '*'
  {
    assert s == s[..1] + s[1..];
    EscapeDotsConcat(s[..1], s[1..]);
    ReplaceAllChar(s[..1], '.', EscapedDot);
    assert s[..1][1..] == [];
  }

  /** The first replacement handles one token at a time. */
  lemma Stage1Step(s: string)
    requires |s| > 0
    ensures Stage1(s) == Token1(s) + Stage1(s[TokenLength(s)..])
  {
    var n := TokenLength(s);
    var rest := s[n..];
    assert s == s[..n] + rest;
    EscapeDotsConcat(s[..n], rest);
    EscapeToken(s);
    var e := EscapeDots(rest);
    if HasPrefix(s, "**") {
      ReplaceHead("**", e, TwoStars);
    } else if s[0] == '*' {
      var t := "*" + e;
      if |rest| == 0 {
        ReplaceAllChar(rest, '.', EscapedDot);
        assert t == "*";
      } else {
        assert rest[0] == s[1] != '*';
        EscapeStart(rest);
        assert t[..2] != "**" by {
          assert t[1] == e[0];
        }
        assert t[1..] == e;
      }
    } else if s[0] == '.' {
      ReplacePeel(EscapedDot, e, "**", TwoStars);
    } else {
      ReplacePeel([s[0]], e, "**", TwoStars);
    }
  }

  /** The text of one token after all three replacements. */
  function Token(s: string): string
    requires |s| > 0
  {
    if HasPrefix(s, "**") then Anything else if s[0] == '*' then AnyNameUntilSeparator else if s[0] == '.' then EscapedDot else [s[0]]
  }

  lemma Stage2Step(s: string)
    requires |s| > 0
    ensures Stage2(s) == (if HasPrefix(s, "**") then TwoStars else Token(s)) + Stage2(s[TokenLength(s)..])
  {
    Stage1Step(s);
    var a := Token1(s);
    var b := Stage1(s[TokenLength(s)..]);
    if s[0] == '*' && !HasPrefix(s, "**") {
      ReplaceHead("*", b, AnyNameUntilSeparator);
    } else {
      ReplacePeel(a, b, "*", AnyNameUntilSeparator);
    }
  }

  /** The three replacements agree with the left-to-right translation when the text has no '<'. */
  lemma {:induction false} ChainIsGlob(s: string)
    requires '<' !in s
    ensures Chain(s) == Glob(s)
    decreases |s|
  {
    if |s| == 0 {
      assert EscapeDots(s) == "";
    } else {
      var n := TokenLength(s);
      var rest := s[n..];
      Stage2Step(s);
      ChainIsGlob(rest);
      var b := Stage2(rest);
      if HasPrefix(s, "**") {
        ReplaceHead(TwoStars, b, Anything);
      } else {
        ReplacePeel(Token(s), b, TwoStars, Anything);
      }
    }
  }

  /** `transformFilenamePatternToRegExp`: dots escaped, every '*' any text. */
  function FileNameRegExp(fileName: string): string
  {
    var f := EscapeDots(fileName);
    if HasPrefix(f, "*") then Anything + ReplaceAll(f[1..], "*", Anything) else ReplaceAll(f, "*", Anything)
  }

  /** A leading star is no different from any other: each '*' of the file name becomes ".*". */
  lemma FileNameStars(fileName: string)
    ensures FileNameRegExp(fileName) == MapChar(EscapeDots(fileName), '*', Anything)
  {
    var f := EscapeDots(fileName);
    ReplaceAllChar(f, '*', Anything);
    if HasPrefix(f, "*") {
      ReplaceAllChar(f[1..], '*', Anything);
      assert f == [f[0]] + f[1..];
    }
  }

  /** `parseFilePattern`: a regex definition gives its content; a glob its translation, anchored at the end unless it names a directory. */
  function ParseFilePattern(pattern: string): (r: string)
    ensures IsRegexDefinition(pattern) ==> RegexpPrefix + r + RegexpSuffix == pattern
    ensures !IsRegexDefinition(pattern) ==> HasSuffix(r, Anything) || HasSuffix(r, EndOfLine)
  {
    if IsRegexDefinition(pattern) then
      RegexDefinitionLength(pattern);
      pattern[|RegexpPrefix|..|pattern| - |RegexpSuffix|]
    else
      var slashIndex := LastSlash(pattern);
      var expr := PathRegExp(pattern[..slashIndex + 1]) + FileNameRegExp(pattern[slashIndex + 1..]);
      if HasSuffix(expr, "/") then expr + Anything else expr + EndOfLine
  }

  /** "regex{{X}}" yields X verbatim. */
  lemma RegexVerbatim(x: string)
    ensures ParseFilePattern(RegexpPrefix + x + RegexpSuffix) == x
  {
    var p := RegexpPrefix + x + RegexpSuffix;
    assert p[..|RegexpPrefix|] == RegexpPrefix;
    assert p[|p| - |RegexpSuffix|..] == RegexpSuffix;
    assert p[|RegexpPrefix|..|p| - |RegexpSuffix|] == x;
  }

  /** A glob translates into its directory part followed by its file-name part, ended by ".*" or "$". */
  lemma GlobShape(pattern: string)
    requires !IsRegexDefinition(pattern) && '<' !in pattern
    ensures var i := LastSlash(pattern); var expr := Glob(StripAnyPath(pattern[..i + 1])) + MapChar(EscapeDots(pattern[i + 1..]), '*', Anything);
      ParseFilePattern(pattern) == expr + (if HasSuffix(expr, "/") then Anything else EndOfLine)
  {
    var i := LastSlash(pattern);
    var path := pattern[..i + 1];
    var fileName := pattern[i + 1..];
    var dir := StripAnyPath(path);
    SuffixNoAngle(pattern, i + 1, |path| - |dir|);
    assert dir == pattern[|path| - |dir|..i + 1];
    ChainIsGlob(dir);
    FileNameStars(fileName);
    var expr := Glob(dir) + MapChar(EscapeDots(fileName), '*', Anything);
    assert PathRegExp(path) + FileNameRegExp(fileName) == expr;
  }

  /** A slice of a text without '<' has none either. */
  lemma SuffixNoAngle(s: string, n: nat, k: nat)
    requires '<' !in s && k <= n <= |s|
    ensures '<' !in s[k..n]
  {
    forall j | 0 <= j < n - k
      ensures s[k..n][j] != '<'
    {
      assert s[k..n][j] == s[k + j];
    }
  }

  /** A character other than '*' and '.' stands for itself. */
  lemma GlobPlain(c: char, rest: string)
    requires c != '*' && c != '.'
    ensures Glob([c] + rest) == [c] + Glob(rest)
  {
    assert ([c] + rest)[1..] == rest;
  }

  /** "**" stands for any text. */
  lemma GlobTwoStars(rest: string)
    ensures Glob("**" + rest) == Anything + Glob(rest)
  {
    assert ("**" + rest)[..2] == "**" && ("**" + rest)[2..] == rest;
  }

  /** A lone '*' stands for one name. */
  lemma GlobOneStar(rest: string)
    requires |rest| == 0 || rest[0] != '*'
    ensures Glob("*" + rest) == AnyNameUntilSeparator + Glob(rest)
  {
    var s := "*" + rest;
    assert s[0] == '*' && s[1..] == rest;
    assert !HasPrefix(s, "**") by {
      if |s| >= 2 {
        assert s[..2][1] == s[1] == rest[0];
      }
    }
  }

  /** Text without stars and dots stands for itself. */
  lemma {:induction false} GlobPlainText(d: string, rest: string)
    requires '*' !in d && '.' !in d
    ensures Glob(d + rest) == d + Glob(rest)
    decreases |d|
  {
    if |d| > 0 {
      assert d + rest == [d[0]] + (d[1..] + rest);
      GlobPlain(d[0], d[1..] + rest);
      GlobPlainText(d[1..], rest);
      assert d == [d[0]] + d[1..];
    } else {
      assert d + rest == rest;
    }
  }

  /** A two-star directory below a plain directory stands for any path there. */
  lemma AnyPathBelow(d: string)
    requires '*' !in d && '.' !in d
    ensures Glob(d + "/**/") == d + "/.*/"
  {
    GlobPlainText(d, "/**/");
    assert Glob("/") == "/" by {
      GlobPlain('/', "");
      assert ['/'] + "" == "/";
    }
    GlobTwoStars("/");
    GlobPlain('/', "**/");
    assert "/**/" == ['/'] + ("**" + "/");
  }

  /** A lone "*" directory stands for one name anchored at the start. */
  lemma AnyNameExample()
    ensures Glob("*/") == "^[^/]+/"
  {
    GlobOneStar("/");
    GlobPlain('/', "");
    assert ['/'] + "" == "/" && "*" + "/" == "*/";
  }

  /** One entry of the list: trimmed, then translated. */
  function Parsed(p: string): string
  {
    ParseFilePattern(TrimSpace(p))
  }

  /** The translation of each pattern, trimmed first, in order. */
  function ParsedAll(ps: seq<string>): (r: seq<string>)
  {
    MapSeq(ps, Parsed)
  }

  /** One translation per pattern, in order. */
  lemma ParsedAllEach(ps: seq<string>)
    ensures |ParsedAll(ps)| == |ps|
    ensures forall i :: 0 <= i < |ps| ==> ParsedAll(ps)[i] == ParseFilePattern(TrimSpace(ps[i]))
  {
    MapSeqAt(ps, Parsed);
  }

  /** `ParseFilePatterns`: one pattern per input, in order, each trimmed first. */
  method ParseFilePatterns(filePatterns: seq<string>) returns (patterns: seq<string>)
    ensures patterns == ParsedAll(filePatterns)
  {
    patterns := [];
    var i := 0;
    while i < |filePatterns|
      invariant 0 <= i <= |filePatterns|
      invariant patterns == ParsedAll(filePatterns[..i])
    {
      assert filePatterns[..i + 1][..i] == filePatterns[..i];
      var p := ParsePattern(TrimSpace(filePatterns[i]));
      patterns := patterns + [p];
      i := i + 1;
    }
    assert filePatterns[..i] == filePatterns;
  }

  /** `parseFilePattern` with its path loop. */
  method ParsePattern(pattern: string) returns (r: string)
    ensures r == ParseFilePattern(pattern)
  {
    if IsRegexDefinition(pattern) {
      RegexDefinitionLength(pattern);
      return pattern[|RegexpPrefix|..|pattern| - |RegexpSuffix|];
    }
    var slashIndex := LastSlash(pattern);
    var path := TransformPath(pattern[..slashIndex + 1]);
    var fileName := FileNameRegExp(pattern[slashIndex + 1..]);
    var expr := path + fileName;
    if HasSuffix(expr, "/") {
      r := expr + Anything;
    } else {
      r := expr + EndOfLine;
    }
  }

  /** `FilePatterns.Matches`: some pattern matches; `matches` stands for compiling and matching, false when it does not compile. */
  method Matches(patterns: seq<string>, filename: string, matches: (string, string) -> bool) returns (b: bool)
    ensures b <==> exists i :: 0 <= i < |patterns| && matches(patterns[i], filename)
  {
    var i := 0;
    while i < |patterns|
      invariant 0 <= i <= |patterns|
      invariant forall j :: 0 <= j < i ==> !matches(patterns[j], filename)
    {
      if matches(patterns[i], filename) {
        return true;
      }
      i := i + 1;
    }
    return false;
  }
}
