/**
 * Character classes and string operations of the JavaScript runtime and of
 * PostgreSQL that the application relies on: the `\s` and `\p{C}` regular
 * expression classes, `String.prototype.trim`, `split(",")`/`join(",")`,
 * UTF-16 string length and SQL `LOWER`.
 *
 * Strings are sequences of Unicode scalar values.
 */
module Text {

  /** JavaScript's `\s`: WhiteSpace and LineTerminator code points. */
  predicate IsJsSpace(c: char) {
    var n := c as int;
    n == 0x09 || n == 0x0A || n == 0x0B || n == 0x0C || n == 0x0D || n == 0x20
    || n == 0xA0 || n == 0x1680 || (0x2000 <= n <= 0x200A) || n == 0x2028
    || n == 0x2029 || n == 0x202F || n == 0x205F || n == 0x3000 || n == 0xFEFF
  }

  /**
   * The general category "Other" (`\p{C}`): controls (Cc), the format
   * characters (Cf), private use (Co) and the noncharacters among the
   * unassigned code points (Cn). Surrogates (Cs) are not scalar values.
   */
  predicate IsOtherCategory(c: char) {
    var n := c as int;
    // Cc
    n <= 0x1F || (0x7F <= n <= 0x9F)
    // Cf
    || n == 0xAD || (0x600 <= n <= 0x605) || n == 0x61C || n == 0x6DD || n == 0x70F
    || (0x890 <= n <= 0x891) || n == 0x8E2 || n == 0x180E || (0x200B <= n <= 0x200F)
    || (0x202A <= n <= 0x202E) || (0x2060 <= n <= 0x2064) || (0x2066 <= n <= 0x206F)
    || n == 0xFEFF || (0xFFF9 <= n <= 0xFFFB) || n == 0x110BD || n == 0x110CD
    || (0x13430 <= n <= 0x1343F) || (0x1BCA0 <= n <= 0x1BCA3) || (0x1D173 <= n <= 0x1D17A)
    || n == 0xE0001 || (0xE0020 <= n <= 0xE007F)
    // Co
    || (0xE000 <= n <= 0xF8FF) || (0xF0000 <= n <= 0xFFFFD) || (0x100000 <= n <= 0x10FFFD)
    // Cn noncharacters
    || (0xFDD0 <= n <= 0xFDEF) || n % 0x10000 == 0xFFFE || n % 0x10000 == 0xFFFF
  }

  /** Code points that render as nothing although they are not in `\p{C}`. */
  predicate IsInvisibleFiller(c: char) {
    var n := c as int;
    n == 0x2800 || n == 0x034F || n == 0x115F || n == 0x1160 || n == 0x17B4
    || n == 0x17B5 || n == 0x3164 || n == 0xFFA0
  }

  /** The class `(\s|\p{C}|⠀|͏|...|ﾠ)` of the `name` and `observation` rules. */
  predicate IsBlankLike(c: char) {
    IsJsSpace(c) || IsOtherCategory(c) || IsInvisibleFiller(c)
  }

  predicate IsAsciiDigit(c: char) {
    '0' <= c <= '9'
  }

  predicate IsAsciiAlphaNumeric(c: char) {
    ('a' <= c <= 'z') || ('A' <= c <= 'Z') || IsAsciiDigit(c)
  }

  /** Length as JavaScript counts it: code points above U+FFFF take two UTF-16 units. */
  function Utf16Length(s: string): (n: nat)
    ensures |s| <= n <= 2 * |s|
  {
    if |s| == 0 then 0
    else (if s[0] as int > 0xFFFF then 2 else 1) + Utf16Length(s[1..])
  }

  /** A string of Basic Multilingual Plane code points has one UTF-16 unit per code point. */
  lemma {:induction false} Utf16LengthOfBmp(s: string)
    requires forall i :: 0 <= i < |s| ==> s[i] as int <= 0xFFFF
    ensures Utf16Length(s) == |s|
  {
    if |s| > 0 {
      assert forall i :: 0 <= i < |s[1..]| ==> s[1..][i] == s[i + 1];
      Utf16LengthOfBmp(s[1..]);
    }
  }

  /** `String.prototype.trim`: drop leading and trailing `\s` code points. */
  function Trim(s: string): (t: string)
    ensures |t| <= |s|
    ensures |t| > 0 ==> !IsJsSpace(t[0]) && !IsJsSpace(t[|t| - 1])
    ensures (|s| == 0 || (!IsJsSpace(s[0]) && !IsJsSpace(s[|s| - 1]))) ==> t == s
  {
    TrimEnd(TrimStart(s))
  }

  function TrimStart(s: string): (t: string)
    ensures |t| <= |s|
    ensures |t| > 0 ==> !IsJsSpace(t[0]) && t[|t| - 1] == s[|s| - 1]
    ensures (|s| == 0 || !IsJsSpace(s[0])) ==> t == s
  {
    if |s| > 0 && IsJsSpace(s[0]) then TrimStart(s[1..]) else s
  }

  function TrimEnd(s: string): (t: string)
    ensures |t| <= |s|
    ensures |t| > 0 ==> !IsJsSpace(t[|t| - 1]) && t[0] == s[0]
    ensures (|s| == 0 || !IsJsSpace(s[|s| - 1])) ==> t == s
  {
    if |s| > 0 && IsJsSpace(s[|s| - 1]) then TrimEnd(s[..|s| - 1]) else s
  }

  /** Start of the longest suffix of `s` made only of blank-like code points. */
  function TrailingBlankStart(s: string): (p: nat)
    ensures p <= |s|
    ensures forall i :: p <= i < |s| ==> IsBlankLike(s[i])
    ensures p > 0 ==> !IsBlankLike(s[p - 1])
  {
    if |s| > 0 && IsBlankLike(s[|s| - 1]) then TrailingBlankStart(s[..|s| - 1]) else |s|
  }

  function RemoveNul(s: string): (t: string)
    ensures |t| <= |s|
    ensures forall i :: 0 <= i < |t| ==> t[i] != '\0'
    ensures ('\0' !in s) ==> t == s
    ensures forall c :: c in t ==> c in s
  {
    if |s| == 0 then ""
    else (if s[0] == '\0' then "" else [s[0]]) + RemoveNul(s[1..])
  }

  lemma RemoveNulKeepsLast(s: string)
    requires |s| > 0 && s[|s| - 1] != '\0'
    ensures |RemoveNul(s)| > 0 && RemoveNul(s)[|RemoveNul(s)| - 1] == s[|s| - 1]
  {
    if |s| > 1 {
      RemoveNulKeepsLast(s[1..]);
    }
  }

  lemma RemoveNulKeepsFirst(s: string)
    requires |s| > 0 && s[0] != '\0'
    ensures |RemoveNul(s)| > 0 && RemoveNul(s)[0] == s[0]
  {
  }

  /**
   * The global replacement `/(blank)+$|\u0000/gsu` -> "": the first alternative
   * matches once, at the start of the trailing blank run; before it every NUL is
   * matched by the second alternative.
   */
  function StripTrailingBlanksAndNul(s: string): (t: string)
    ensures |t| <= |s|
    ensures '\0' !in t
    ensures |t| > 0 ==> !IsBlankLike(t[|t| - 1])
    ensures forall c :: c in t ==> c in s
    ensures ('\0' !in s && (|s| == 0 || !IsBlankLike(s[|s| - 1]))) ==> t == s
  {
    StripFacts(s);
    RemoveNul(s[..TrailingBlankStart(s)])
  }

  lemma StripFacts(s: string)
    ensures var p := TrailingBlankStart(s); var t := RemoveNul(s[..p]);
      && (|t| > 0 ==> !IsBlankLike(t[|t| - 1]))
      && (forall c :: c in t ==> c in s)
      && (('\0' !in s && (|s| == 0 || !IsBlankLike(s[|s| - 1]))) ==> t == s)
  {
    var p := TrailingBlankStart(s);
    var u := s[..p];
    if p > 0 {
      assert u[p - 1] == s[p - 1];
      assert s[p - 1] != '\0' by { assert IsOtherCategory('\0'); }
      RemoveNulKeepsLast(u);
    }
    forall c | c in u ensures c in s {
      var i :| 0 <= i < |u| && u[i] == c;
      assert s[i] == c;
    }
    if '\0' !in s && (|s| == 0 || !IsBlankLike(s[|s| - 1])) {
      assert p == |s|;
      assert u == s;
    }
  }

  /** JavaScript `s.split(sep)` for a one-character separator. */
  function Split(s: string, sep: char): (parts: seq<string>)
    ensures |parts| >= 1
    ensures forall i :: 0 <= i < |parts| ==> sep !in parts[i]
  {
    if |s| == 0 then [""]
    else
      var rest := Split(s[1..], sep);
      if s[0] == sep then [""] + rest
      else [[s[0]] + rest[0]] + rest[1..]
  }

  /** JavaScript `parts.join(sep)` for a one-character separator. */
  function Join(parts: seq<string>, sep: char): string {
    if |parts| == 0 then ""
    else if |parts| == 1 then parts[0]
    else parts[0] + [sep] + Join(parts[1..], sep)
  }

  lemma {:induction false} SplitJoin(s: string, sep: char)
    ensures Join(Split(s, sep), sep) == s
  {
    if |s| > 0 {
      var rest := Split(s[1..], sep);
      SplitJoin(s[1..], sep);
      if s[0] == sep {
        assert Split(s, sep) == [""] + rest;
        assert ([""] + rest)[1..] == rest;
      } else {
        var parts := [[s[0]] + rest[0]] + rest[1..];
        assert Split(s, sep) == parts;
        if |rest| == 1 {
          assert Join(rest, sep) == rest[0];
        } else {
          assert parts[1..] == rest[1..];
          assert Join(rest, sep) == rest[0] + [sep] + Join(rest[1..], sep);
        }
      }
    }
  }

  lemma {:induction false} SplitWithPrefix(a: string, t: string, sep: char)
    requires sep !in a
    ensures Split(a + t, sep) == [a + Split(t, sep)[0]] + Split(t, sep)[1..]
  {
    if |a| > 0 {
      SplitWithPrefix(a[1..], t, sep);
      assert (a + t)[1..] == a[1..] + t;
      assert (a + t)[0] == a[0];
      assert [a[0]] + (a[1..] + Split(t, sep)[0]) == a + Split(t, sep)[0];
    } else {
      var parts := Split(t, sep);
      assert a + t == t;
      assert a + parts[0] == parts[0];
      assert [parts[0]] + parts[1..] == parts;
    }
  }

  /** Splitting a join of separator-free parts gives the parts back. */
  lemma {:induction false} JoinSplit(parts: seq<string>, sep: char)
    requires |parts| >= 1
    requires forall i :: 0 <= i < |parts| ==> sep !in parts[i]
    ensures Split(Join(parts, sep), sep) == parts
  {
    if |parts| == 1 {
      SplitWithPrefix(parts[0], "", sep);
      assert parts[0] + "" == parts[0];
    } else {
      var tail := Join(parts[1..], sep);
      JoinSplit(parts[1..], sep);
      assert Join(parts, sep) == parts[0] + ([sep] + tail);
      SplitWithPrefix(parts[0], [sep] + tail, sep);
      assert ([sep] + tail)[1..] == tail;
      assert Split([sep] + tail, sep) == [""] + parts[1..];
      assert parts[0] + "" == parts[0];
    }
  }

  /**
   * PostgreSQL `LOWER` under a UTF-8 locale on the letters of the Latin-1 and
   * Latin Extended-A blocks. The dotted capital I (U+0130) lowers to a plain
   * "i"; the dotless small i (U+0131) has no lower form of its own.
   */
  function LowerChar(c: char): char {
    var n := c as int;
    if 'A' <= c <= 'Z' then (n + 32) as char
    else if n == 0x130 then 'i'
    else if 0xC0 <= n <= 0xDE && n != 0xD7 then (n + 32) as char
    else if (0x100 <= n <= 0x12F || 0x132 <= n <= 0x137 || 0x14A <= n <= 0x177) && n % 2 == 0 then (n + 1) as char
    else if (0x139 <= n <= 0x148 || 0x179 <= n <= 0x17E) && n % 2 == 1 then (n + 1) as char
    else if n == 0x178 then 0xFF as char
    else c
  }

  function Lower(s: string): (t: string)
    ensures |t| == |s|
  {
    if |s| == 0 then "" else [LowerChar(s[0])] + Lower(s[1..])
  }

  /** Decimal digits of a natural number, as JavaScript prints it. */
  function NatText(n: nat): (s: string)
    ensures |s| >= 1
    ensures forall i :: 0 <= i < |s| ==> IsAsciiDigit(s[i])
  {
    if n < 10 then [('0' as int + n) as char] else NatText(n / 10) + [('0' as int + n % 10) as char]
  }
}
