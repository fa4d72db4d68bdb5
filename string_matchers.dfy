/**
 * The test suite's character-class matchers (`test/matchers/string_matchers.go`). Each matcher takes
 * a dynamically typed value: nil always matches, a value of the wrong type is an error, and indexing
 * an empty string panics. Go strings are bytes; here a string is its sequence of code points, and the
 * byte a matcher reads at either end is computed from the UTF-8 encoding of the code point there.
 */
module StringMatchers {
  import opened Wrappers
  import opened GoStrings

  type byte = b: int | 0 <= b < 256

  /** The value handed to a matcher. */
  datatype Actual = Nil | Str(s: string) | Byte(b: byte) | OtherValue

  /** A matcher's answer: success with an optional error, or a run-time panic. */
  datatype Verdict = Verdict(success: bool, err: Option<string>) | Panic(reason: string)

  const ExpectedString := "expected string"
  const ExpectedCharacter := "expected a character (uint8)"
  const IndexOutOfRange := "index out of range"
  /** `n` consecutive characters from code point `lo` on. */
  function CharRange(lo: nat, n: nat): (r: string)
    requires lo + n <= 0xD800
    ensures |r| == n
    decreases n
  {
    if n == 0 then [] else [lo as char] + CharRange(lo + 1, n - 1)
  }

  lemma {:induction false} InCharRange(lo: nat, n: nat, c: char)
    requires lo + n <= 0xD800
    ensures c in CharRange(lo, n) <==> lo <= c as int < lo + n
    decreases n
  {
    if n > 0 {
      InCharRange(lo + 1, n - 1, c);
      assert CharRange(lo, n) == [lo as char] + CharRange(lo + 1, n - 1);
    }
  }

  /** The characters `BeLetter` allows, "abcdefghijklmnopqrstuvwxyz". */
  const Letters := CharRange('a' as nat, 26)

  /** `OnlyContain`: the set of allowed characters, and the list it was made from. */
  datatype OnlyContains = OnlyContains(chars: set<char>, asString: string)

  function OnlyContain(chars: string): (m: OnlyContains)
    ensures forall c :: c in m.chars <==> c in chars
    ensures m.asString == chars
  {
    OnlyContains((set c | c in chars), chars)
  }

  /** The loop of `onlyContainsMatcher.Match`: stops at the first character not allowed. */
  function AllAllowed(s: string, chars: set<char>): (r: bool)
    ensures r <==> forall k :: 0 <= k < |s| ==> s[k] in chars
  {
    if |s| == 0 then true else if s[0] !in chars then false else AllAllowed(s[1..], chars)
  }

  /** `onlyContainsMatcher.Match`. */
  function OnlyContainMatch(m: OnlyContains, actual: Actual): (v: Verdict)
    ensures actual.Nil? ==> v == Verdict(true, None)
    ensures actual.Str? ==> v == Verdict(forall k :: 0 <= k < |actual.s| ==> actual.s[k] in m.chars, None)
    ensures !actual.Nil? && !actual.Str? ==> v == Verdict(false, Some(ExpectedString))
  {
    match actual
    case Nil => Verdict(true, None)
    case Str(s) => Verdict(AllAllowed(s, m.chars), None)
    case _ => Verdict(false, Some(ExpectedString))
  }

  /**
   * `beLetterMatcher.Match`: a byte, lower-cased, checked against a-z. So a byte is a letter
   * exactly when it is an ASCII letter of either case; nil matches and any other value is an error.
   */
  function BeLetterMatch(actual: Actual): (v: Verdict)
    ensures actual.Byte? ==> v == Verdict(IsAsciiLetter(actual.b as char), None)
    ensures actual.Nil? ==> v == Verdict(true, None)
    ensures actual.Str? || actual.OtherValue? ==> v == Verdict(false, Some(ExpectedCharacter))
  {
    match actual
    case Nil => Verdict(true, None)
    case Byte(b) =>
      LettersAre(LowerChar(b as char));
      OnlyContainMatch(OnlyContain(Letters), Str([LowerChar(b as char)]))
    case _ => Verdict(false, Some(ExpectedCharacter))
  }

  /** The first byte of the UTF-8 encoding of `c`. */
  function FirstByte(c: char): byte
  {
    var n := c as int;
    if n < 0x80 then n
    else if n < 0x800 then 0xC0 + n / 0x40
    else if n < 0x1_0000 then 0xE0 + n / 0x1000
    else 0xF0 + n / 0x4_0000
  }

  /** The last byte of the UTF-8 encoding of `c`. */
  function LastByte(c: char): byte
  {
    var n := c as int;
    if n < 0x80 then n else 0x80 + n % 0x40
  }

  /** `startsWithLetterMatcher.Match`: the first byte of a non-empty string. */
  function StartWithLetterMatch(actual: Actual): Verdict
  {
    match actual
    case Nil => Verdict(true, None)
    case Str(s) => if |s| == 0 then Panic(IndexOutOfRange) else BeLetterMatch(Byte(FirstByte(s[0])))
    case _ => Verdict(false, Some(ExpectedString))
  }

  /** `endsWithLetterMatcher.Match`: the last byte of a non-empty string. */
  function EndWithLetterMatch(actual: Actual): Verdict
  {
    match actual
    case Nil => Verdict(true, None)
    case Str(s) => if |s| == 0 then Panic(IndexOutOfRange) else BeLetterMatch(Byte(LastByte(s[|s| - 1])))
    case _ => Verdict(false, Some(ExpectedString))
  }

  predicate IsAsciiLetter(c: char)
  {
    'a' <= c <= 'z' || 'A' <= c <= 'Z'
  }

  lemma LettersAre(c: char)
    ensures c in Letters <==> 'a' <= c <= 'z'
  {
    InCharRange('a' as nat, 26, c);
  }

  /** A non-ASCII code point's encoding neither starts nor ends with a letter byte. */
  lemma NonAsciiBytes(c: char)
    requires c as int >= 0x80
    ensures FirstByte(c) >= 0x80 && LastByte(c) >= 0x80
  {
  }

  /** `StartWithLetter` succeeds on a non-empty string exactly when it starts with an ASCII letter, and panics on "". */
  lemma StartsWithLetterWhen(s: string)
    ensures |s| == 0 ==> StartWithLetterMatch(Str(s)).Panic?
    ensures |s| > 0 ==> StartWithLetterMatch(Str(s)) == Verdict(IsAsciiLetter(s[0]), None)
  {
    if |s| > 0 {
      var b := FirstByte(s[0]);
      if s[0] as int >= 0x80 {
        NonAsciiBytes(s[0]);
      }
    }
  }

  /** `EndWithLetter` succeeds on a non-empty string exactly when it ends with an ASCII letter, and panics on "". */
  lemma EndsWithLetterWhen(s: string)
    ensures |s| == 0 ==> EndWithLetterMatch(Str(s)).Panic?
    ensures |s| > 0 ==> EndWithLetterMatch(Str(s)) == Verdict(IsAsciiLetter(s[|s| - 1]), None)
  {
    if |s| > 0 {
      var b := LastByte(s[|s| - 1]);
      if s[|s| - 1] as int >= 0x80 {
        NonAsciiBytes(s[|s| - 1]);
      }
    }
  }
}
