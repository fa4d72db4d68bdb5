/**
 * The few functions of Go's `strings` and `strconv` packages (and Go's map lookup) that the modelled code relies on,
 * written over `seq<char>`. Separators that the code splits on are always a single character,
 * so `Split` takes a `char`; case mapping and white space are modelled for ASCII and the
 * Unicode white-space characters only.
 */
module GoStrings {
  import opened Wrappers

  /** strconv.FormatBool */
  function FormatBool(b: bool): (r: string)
    ensures r == "true" <==> b
    ensures r == "false" <==> !b
  {
    if b then "true" else "false"
  }

  /** The number of occurrences of `c` in `s`. */
  function Count(s: string, c: char): nat
  {
    if |s| == 0 then 0 else (if s[0] == c then 1 else 0) + Count(s[1..], c)
  }

  lemma {:induction false} CountZero(s: string, c: char)
    ensures Count(s, c) == 0 <==> c !in s
  {
    if |s| > 0 {
      CountZero(s[1..], c);
      assert s == [s[0]] + s[1..];
    }
  }

  lemma {:induction false} CountConcat(a: string, b: string, c: char)
    ensures Count(a + b, c) == Count(a, c) + Count(b, c)
    decreases |a|
  {
    if |a| > 0 {
      assert (a + b)[1..] == a[1..] + b;
      CountConcat(a[1..], b, c);
    } else {
      assert a + b == b;
    }
  }

  /** strings.Split(s, string(sep)): the maximal sep-free pieces between the separators. */
  function Split(s: string, sep: char): (parts: seq<string>)
    ensures |parts| == Count(s, sep) + 1
    ensures forall p :: p in parts ==> sep !in p
    decreases |s|
  {
    if |s| == 0 then [""]
    else
      var rest := Split(s[1..], sep);
      if s[0] == sep then [""] + rest else [[s[0]] + rest[0]] + rest[1..]
  }

  /** strings.Join */
  function Join(parts: seq<string>, sep: string): string
  {
    if |parts| == 0 then "" else if |parts| == 1 then parts[0] else parts[0] + sep + Join(parts[1..], sep)
  }

  lemma {:induction false} JoinSplit(s: string, sep: char)
    ensures Join(Split(s, sep), [sep]) == s
  {
    if |s| > 0 {
      JoinSplit(s[1..], sep);
      var rest := Split(s[1..], sep);
      if s[0] == sep {
        assert Split(s, sep) == [""] + rest;
      } else if |rest| == 1 {
        assert Split(s, sep) == [[s[0]] + rest[0]];
      } else {
        assert Split(s, sep) == [[s[0]] + rest[0]] + rest[1..];
        assert Join(rest, [sep]) == rest[0] + [sep] + Join(rest[1..], [sep]);
      }
    }
  }

  lemma {:induction false} SplitNoSep(s: string, sep: char)
    requires sep !in s
    ensures Split(s, sep) == [s]
  {
    if |s| > 0 {
      SplitNoSep(s[1..], sep);
      assert [s[0]] + s[1..] == s;
    }
  }

  lemma {:induction false} SplitAtSep(a: string, sep: char, b: string)
    requires sep !in a
    ensures Split(a + [sep] + b, sep) == [a] + Split(b, sep)
    decreases |a|
  {
    var s := a + [sep] + b;
    if |a| == 0 {
      assert s[1..] == b;
    } else {
      assert s[1..] == a[1..] + [sep] + b;
      SplitAtSep(a[1..], sep, b);
      assert [a[0]] + a[1..] == a;
    }
  }

  /** A split takes off the piece before the first separator. */
  lemma SplitAtFirst(s: string, sep: char)
    requires sep in s
    ensures Split(s, sep) == [s[..IndexOf(s, sep)]] + Split(s[IndexOf(s, sep) + 1..], sep)
  {
    var i := IndexOf(s, sep);
    assert s == s[..i] + [sep] + s[i + 1..];
    SplitAtSep(s[..i], sep, s[i + 1..]);
  }

  /** Splitting a join gives back the parts when no part contains the separator. */
  lemma {:induction false} SplitJoin(parts: seq<string>, sep: char)
    requires |parts| >= 1
    requires forall p :: p in parts ==> sep !in p
    ensures Split(Join(parts, [sep]), sep) == parts
  {
    if |parts| == 1 {
      SplitNoSep(parts[0], sep);
    } else {
      SplitJoin(parts[1..], sep);
      SplitAtSep(parts[0], sep, Join(parts[1..], [sep]));
      assert [parts[0]] + parts[1..] == parts;
    }
  }

  /** Splitting at a separator splits both sides independently. */
  lemma {:induction false} SplitConcat(a: string, sep: char, b: string)
    ensures Split(a + [sep] + b, sep) == Split(a, sep) + Split(b, sep)
    decreases |a|
  {
    var s := a + [sep] + b;
    if |a| == 0 {
      assert s[1..] == b;
    } else {
      assert s[1..] == a[1..] + [sep] + b;
      SplitConcat(a[1..], sep, b);
    }
  }

  /** Only the empty string splits into a single empty piece. */
  lemma SplitEmpty(s: string, sep: char)
    ensures Split(s, sep) == [""] <==> s == ""
  {
    if Split(s, sep) == [""] {
      CountZero(s, sep);
      SplitNoSep(s, sep);
    }
  }

  lemma {:induction false} JoinAppend(parts: seq<string>, x: string, sep: string)
    requires |parts| > 0
    ensures Join(parts + [x], sep) == Join(parts, sep) + sep + x
    decreases |parts|
  {
    if |parts| > 1 {
      assert (parts + [x])[1..] == parts[1..] + [x];
      JoinAppend(parts[1..], x, sep);
    }
  }

  /** Go's `m[k]` on a map of strings: the empty string for a missing key. */
  function Lookup(m: map<string, string>, k: string): (v: string)
    ensures k !in m ==> v == ""
    ensures k in m ==> v == m[k]
  {
    if k in m then m[k] else ""
  }

  /** The index of the first `c` in `s`. */
  function IndexOf(s: string, c: char): (i: nat)
    requires c in s
    ensures i < |s| && s[i] == c && c !in s[..i]
  {
    if s[0] == c then 0 else 1 + IndexOf(s[1..], c)
  }

  /** strings.SplitN(s, string(sep), 2) */
  function SplitN2(s: string, sep: char): (parts: seq<string>)
    ensures sep !in s ==> parts == [s]
    ensures sep in s ==> |parts| == 2 && sep !in parts[0] && parts[0] + [sep] + parts[1] == s
  {
    if sep in s then
      var i := IndexOf(s, sep);
      assert s[..i] + [sep] + s[i + 1..] == s;
      [s[..i], s[i + 1..]]
    else [s]
  }

  /** strings.HasPrefix */
  predicate HasPrefix(s: string, prefix: string)
  {
    |prefix| <= |s| && s[..|prefix|] == prefix
  }

  /** strings.HasSuffix */
  predicate HasSuffix(s: string, suffix: string)
  {
    |suffix| <= |s| && s[|s| - |suffix|..] == suffix
  }

  /** strings.Contains */
  predicate Contains(s: string, sub: string)
    decreases |s|
  {
    HasPrefix(s, sub) || (|s| > 0 && Contains(s[1..], sub))
  }

  lemma {:induction false} ContainsAt(s: string, sub: string, i: nat)
    requires i + |sub| <= |s| && s[i..i + |sub|] == sub
    ensures Contains(s, sub)
    decreases i
  {
    if i > 0 {
      assert s[1..][i - 1..i - 1 + |sub|] == s[i..i + |sub|];
      ContainsAt(s[1..], sub, i - 1);
    }
  }

  lemma {:induction false} ContainsConcat(a: string, sub: string, b: string)
    ensures Contains(a + sub + b, sub)
  {
    assert (a + sub + b)[|a|..|a| + |sub|] == sub;
    ContainsAt(a + sub + b, sub, |a|);
  }

  /** strings.Replace(s, pat, rep, -1): every non-overlapping occurrence, left to right. */
  function ReplaceAll(s: string, pat: string, rep: string): string
    requires |pat| > 0
    decreases |s|
  {
    if |s| < |pat| then s
    else if s[..|pat|] == pat then rep + ReplaceAll(s[|pat|..], pat, rep)
    else [s[0]] + ReplaceAll(s[1..], pat, rep)
  }

  lemma {:induction false} ReplaceAllAbsent(s: string, pat: string, rep: string)
    requires |pat| > 0 && !Contains(s, pat)
    ensures ReplaceAll(s, pat, rep) == s
    decreases |s|
  {
    if |s| >= |pat| {
      ReplaceAllAbsent(s[1..], pat, rep);
      assert [s[0]] + s[1..] == s;
    }
  }

  /** Replacing a single character acts on every character independently. */
  function MapChar(s: string, c: char, rep: string): (r: string)
  {
    if |s| == 0 then "" else (if s[0] == c then rep else [s[0]]) + MapChar(s[1..], c, rep)
  }

  lemma {:induction false} ReplaceAllChar(s: string, c: char, rep: string)
    ensures ReplaceAll(s, [c], rep) == MapChar(s, c, rep)
    decreases |s|
  {
    if |s| > 0 {
      ReplaceAllChar(s[1..], c, rep);
      assert s[..1] == [s[0]];
      assert s[1..] == s[|[c]|..];
    }
  }

  lemma {:induction false} MapCharConcat(a: string, b: string, c: char, rep: string)
    ensures MapChar(a + b, c, rep) == MapChar(a, c, rep) + MapChar(b, c, rep)
    decreases |a|
  {
    if |a| > 0 {
      assert (a + b)[1..] == a[1..] + b;
      MapCharConcat(a[1..], b, c, rep);
    } else {
      assert a + b == b;
    }
  }

  /** unicode.IsSpace */
  predicate IsSpace(c: char)
  {
    c == ' ' || c == '\t' || c == '\n' || c == '\r' || c == '\U{000B}' || c == '\U{000C}'
    || c == '\U{0085}' || c == '\U{00A0}' || c == '\U{1680}' || ('\U{2000}' <= c <= '\U{200A}')
    || c == '\U{2028}' || c == '\U{2029}' || c == '\U{202F}' || c == '\U{205F}' || c == '\U{3000}'
  }

  /** Drops the leading white space. */
  function TrimLeftSpace(s: string): (r: string)
    decreases |s|
  {
    if |s| > 0 && IsSpace(s[0]) then TrimLeftSpace(s[1..]) else s
  }

  /** Drops the trailing white space. */
  function TrimRightSpace(s: string): (r: string)
    decreases |s|
  {
    if |s| > 0 && IsSpace(s[|s| - 1]) then TrimRightSpace(s[..|s| - 1]) else s
  }

  /** strings.TrimSpace */
  function TrimSpace(s: string): (r: string)
  {
    TrimRightSpace(TrimLeftSpace(s))
  }

  /** strings.Trim(s, " ") */
  function TrimBlank(s: string): (r: string)
  {
    TrimRightBlank(TrimLeftBlank(s))
  }

  function TrimLeftBlank(s: string): (r: string)
    decreases |s|
  {
    if |s| > 0 && s[0] == ' ' then TrimLeftBlank(s[1..]) else s
  }

  function TrimRightBlank(s: string): (r: string)
    decreases |s|
  {
    if |s| > 0 && s[|s| - 1] == ' ' then TrimRightBlank(s[..|s| - 1]) else s
  }

  function LowerChar(c: char): (r: char)
  {
    if 'A' <= c <= 'Z' then (c as int + 32) as char else c
  }

  function UpperChar(c: char): (r: char)
  {
    if 'a' <= c <= 'z' then (c as int - 32) as char else c
  }

  /** strings.ToLower (ASCII letters only). */
  function ToLower(s: string): (r: string)
    ensures |r| == |s| && forall i :: 0 <= i < |s| ==> r[i] == LowerChar(s[i])
  {
    seq(|s|, i requires 0 <= i < |s| => LowerChar(s[i]))
  }

  predicate IsLowerAscii(s: string)
  {
    forall i :: 0 <= i < |s| ==> !('A' <= s[i] <= 'Z')
  }

  lemma ToLowerIdentity(s: string)
    requires IsLowerAscii(s)
    ensures ToLower(s) == s
  {
  }

  lemma ToLowerConcat(a: string, b: string)
    ensures ToLower(a + b) == ToLower(a) + ToLower(b)
  {
  }

  /** strings.EqualFold (ASCII case folding only). */
  predicate EqualFold(a: string, b: string)
  {
    ToLower(a) == ToLower(b)
  }

  /** The separator test of strings.Title, for the characters modelled. */
  predicate IsTitleSeparator(c: char)
  {
    if c < '\U{0080}' then !(('0' <= c <= '9') || ('a' <= c <= 'z') || ('A' <= c <= 'Z') || c == '_')
    else IsSpace(c)
  }

  /** strings.Title: upper-cases every letter that starts a word (ASCII letters only). */
  function Title(s: string): (r: string)
    ensures |r| == |s|
  {
    TitleFrom(s, true)
  }

  /** Title-casing the rest of a text, knowing whether a word starts at its first character. */
  function TitleFrom(s: string, wordStart: bool): (r: string)
    ensures |r| == |s|
  {
    if |s| == 0 then "" else [if wordStart then UpperChar(s[0]) else s[0]] + TitleFrom(s[1..], IsTitleSeparator(s[0]))
  }

  /** Upper-casing keeps whether a character separates words, and is idempotent. */
  lemma UpperCharStable(c: char)
    ensures IsTitleSeparator(UpperChar(c)) == IsTitleSeparator(c)
    ensures UpperChar(UpperChar(c)) == UpperChar(c)
  {
  }

  /** A character is upper-cased exactly when it starts the text or follows a separator. */
  lemma {:induction false} TitleFromAt(s: string, wordStart: bool, i: nat)
    requires i < |s|
    ensures TitleFrom(s, wordStart)[i] == if (if i == 0 then wordStart else IsTitleSeparator(s[i - 1])) then UpperChar(s[i]) else s[i]
  {
    if i > 0 {
      TitleFromAt(s[1..], IsTitleSeparator(s[0]), i - 1);
      if i > 1 {
        assert s[1..][i - 2] == s[i - 1];
      }
    }
  }

  lemma TitleAt(s: string, i: nat)
    requires i < |s|
    ensures Title(s)[i] == if i == 0 || IsTitleSeparator(s[i - 1]) then UpperChar(s[i]) else s[i]
  {
    TitleFromAt(s, true, i);
  }

  lemma {:induction false} TitleFromIdempotent(s: string, wordStart: bool)
    ensures TitleFrom(TitleFrom(s, wordStart), wordStart) == TitleFrom(s, wordStart)
  {
    if |s| > 0 {
      var t := TitleFrom(s, wordStart);
      UpperCharStable(s[0]);
      assert t[0] == if wordStart then UpperChar(s[0]) else s[0];
      assert t[1..] == TitleFrom(s[1..], IsTitleSeparator(s[0]));
      TitleFromIdempotent(s[1..], IsTitleSeparator(s[0]));
    }
  }

  /** Title-casing a title-cased text changes nothing. */
  lemma TitleIdempotent(s: string)
    ensures Title(Title(s)) == Title(s)
  {
    TitleFromIdempotent(s, true);
  }
  /** The decimal digit character for `d`. */
  function Digit(d: nat): (c: char)
    requires d < 10
    ensures '0' <= c <= '9'
  {
    ('0' as int + d) as char
  }

  /** `%d` and strconv.FormatUint: the decimal digits of `n`, most significant first. */
  function FormatUint(n: nat): (r: string)
    ensures |r| > 0
  {
    if n < 10 then [Digit(n)] else FormatUint(n / 10) + [Digit(n % 10)]
  }

  /** `%d` and strconv.Itoa on a signed integer. */
  function FormatInt(n: int): (r: string)
    ensures |r| > 0
  {
    if n < 0 then "-" + FormatUint(-n) else FormatUint(n)
  }

  predicate IsDigits(s: string)
  {
    forall k :: 0 <= k < |s| ==> '0' <= s[k] <= '9'
  }

  /** The value of a string of decimal digits. */
  function DigitsValue(s: string): nat
    requires IsDigits(s)
  {
    if |s| == 0 then 0 else DigitsValue(s[..|s| - 1]) * 10 + (s[|s| - 1] as int - '0' as int)
  }

  /** strconv.ParseUint in base 10, without the 64-bit range check. */
  function ParseUint(s: string): (r: Option<nat>)
    ensures r.Some? <==> |s| > 0 && IsDigits(s)
  {
    if |s| > 0 && IsDigits(s) then Some(DigitsValue(s)) else None
  }

  /** Formatting writes only digits, with a leading zero only for zero itself, and parsing reads the value back. */
  lemma {:induction false} FormatUintRoundTrip(n: nat)
    ensures IsDigits(FormatUint(n)) && DigitsValue(FormatUint(n)) == n
    ensures FormatUint(n)[0] == '0' <==> n == 0
    ensures ParseUint(FormatUint(n)) == Some(n)
  {
    var r := FormatUint(n);
    if n >= 10 {
      FormatUintRoundTrip(n / 10);
      var p := FormatUint(n / 10);
      assert r == p + [Digit(n % 10)];
      assert r[..|r| - 1] == p;
      assert r[0] == p[0];
      assert DigitsValue(r) == DigitsValue(p) * 10 + n % 10;
    } else {
      assert DigitsValue(r) == DigitsValue(r[..0]) * 10 + n;
    }
  }
}
