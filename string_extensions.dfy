/** `StringExtensions`: escaping a string as a JSON or C# string literal,
    narrowing fullwidth characters, making a Windows file name, the common
    prefix and suffix of two strings, and cutting characters into chunks. */
module StringExtensions {
  import opened Wrappers
  import opened Primitives
  import CheckedArithmetic

  // ------------------------------------------------------------- escaping

  /** The two literal syntaxes `JsonEncode` and `CSharpEncode` produce. */
  datatype Syntax = Json | CSharp

  /** The characters written as `\uXXXX`: the control characters that have
      no short escape, and DEL. JSON has no short escape for BEL and VT. */
  predicate HexEscaped(syntax: Syntax, c: char)
  {
    c as int <= 0x06 || 0x0e <= c as int <= 0x1f || c as int == 0x7f
    || (syntax == Json && (c as int == 0x07 || c as int == 0x0b))
  }

  /** The letter of the two-character escape of c, if it has one. */
  function ShortEscape(syntax: Syntax, c: char): Option<char>
  {
    if c as int == 0x07 && syntax == CSharp then Some('a')
    else if c as int == 0x08 then Some('b')
    else if c as int == 0x09 then Some('t')
    else if c as int == 0x0a then Some('n')
    else if c as int == 0x0b && syntax == CSharp then Some('v')
    else if c as int == 0x0c then Some('f')
    else if c as int == 0x0d then Some('r')
    else if c == '"' then Some('"')
    else if c == '\\' then Some('\\')
    else if c == '/' && syntax == Json then Some('/')
    else None
  }

  /** A lower-case hexadecimal digit. */
  function HexDigit(d: nat): char
    requires d < 16
  {
    "0123456789abcdef"[d]
  }

  /** `{value:xN}`: the value in n lower-case hexadecimal digits. */
  function HexDigits(value: nat, n: nat): (r: string)
    ensures |r| == n
  {
    if n == 0 then [] else HexDigits(value / 16, n - 1) + [HexDigit(value % 16)]
  }

  /** How one character is written: `\uXXXX`, a short escape, or itself. */
  function Escape(syntax: Syntax, c: char): (r: string)
    ensures r == [c] <==> !(c as int < 0x20 || c as int == 0x7f || c == '"' || c == '\\' || (syntax == Json && c == '/'))
    ensures r != [c] ==> 2 <= |r| <= 6 && r[0] == '\\'
  {
    if HexEscaped(syntax, c) then "\\u" + HexDigits(c as int, 4)
    else if ShortEscape(syntax, c).Some? then ['\\', ShortEscape(syntax, c).value]
    else [c]
  }

  /** Every character of s written in turn, as `String.Concat(s.Select(...))`. */
  function Encode(syntax: Syntax, s: string): (r: string)
    ensures |r| >= |s|
  {
    if s == [] then [] else Escape(syntax, s[0]) + Encode(syntax, s[1..])
  }

  /** `JsonEncode(s)`: controls, `"`, `\` and `/` escaped, every other
      character unchanged. */
  function JsonEncode(s: string): (r: string)
    ensures |r| >= |s|
  {
    Encode(Json, s)
  }

  /** `CSharpEncode(s)`: controls, `"` and `\` escaped, every other
      character unchanged. */
  function CSharpEncode(s: string): (r: string)
    ensures |r| >= |s|
  {
    Encode(CSharp, s)
  }

  // ------------------------------------------------------------- unescaping

  /** The value of a hexadecimal digit of either case. */
  function HexValue(c: char): Option<nat>
  {
    if '0' <= c <= '9' then Some(c as int - '0' as int)
    else if 'a' <= c <= 'f' then Some(c as int - 'a' as int + 10)
    else if 'A' <= c <= 'F' then Some(c as int - 'A' as int + 10)
    else None
  }

  /** The number a string of hexadecimal digits denotes. */
  function HexNumber(s: string): Option<nat>
  {
    if s == [] then Some(0)
    else
      match (HexNumber(s[..|s| - 1]), HexValue(s[|s| - 1]))
      case (Some(high), Some(low)) => Some(high * 16 + low)
      case _ => None
  }

  /** The character a short escape letter stands for. */
  function ShortUnescape(syntax: Syntax, e: char): Option<char>
  {
    if e == 'a' && syntax == CSharp then Some(7 as char)
    else if e == 'b' then Some(8 as char)
    else if e == 't' then Some(9 as char)
    else if e == 'n' then Some(10 as char)
    else if e == 'v' && syntax == CSharp then Some(11 as char)
    else if e == 'f' then Some(12 as char)
    else if e == 'r' then Some(13 as char)
    else if e == '"' || e == '\\' then Some(e)
    else if e == '/' && syntax == Json then Some(e)
    else None
  }

  function Prepend(c: char, rest: Option<string>): Option<string>
  {
    if rest.Some? then Some([c] + rest.value) else None
  }

  /** Reading a literal back: the inverse the two encoders are checked
      against. An unknown escape, a truncated one, or a `\u` naming a
      surrogate fails. */
  function Unescape(syntax: Syntax, s: string): Option<string>
    decreases |s|
  {
    if s == [] then Some([])
    else if s[0] != '\\' then Prepend(s[0], Unescape(syntax, s[1..]))
    else if |s| >= 2 && ShortUnescape(syntax, s[1]).Some? then Prepend(ShortUnescape(syntax, s[1]).value, Unescape(syntax, s[2..]))
    else if |s| >= 6 && s[1] == 'u' && HexNumber(s[2..6]).Some? then
      var code := HexNumber(s[2..6]).value;
      if code < 0xD800 || 0xE000 <= code <= 0x10FFFF then Prepend(code as char, Unescape(syntax, s[6..]))
      else None
    else None
  }

  /** 16 to the power n: the values n hexadecimal digits can hold. */
  function Pow16(n: nat): (r: nat)
    ensures r >= 1
  {
    if n == 0 then 1 else 16 * Pow16(n - 1)
  }

  /** Reading back n digits gives the value they were written from. */
  lemma {:induction false} HexRoundTrip(value: nat, n: nat)
    requires value < Pow16(n)
    ensures HexNumber(HexDigits(value, n)) == Some(value)
  {
    if n > 0 {
      var digits := HexDigits(value, n);
      var high := value / 16;
      CheckedArithmetic.DivisionOfNaturals(value, 16);
      HexRoundTrip(high, n - 1);
      assert digits[..|digits| - 1] == HexDigits(high, n - 1);
      assert HexValue(HexDigit(value % 16)) == Some(value % 16);
    }
  }

  /** Reading back what one character was written as gives the character,
      followed by whatever follows. */
  lemma UnescapeEscape(syntax: Syntax, c: char, rest: string)
    ensures Unescape(syntax, Escape(syntax, c) + rest) == Prepend(c, Unescape(syntax, rest))
  {
    if HexEscaped(syntax, c) {
      UnescapeHexEscape(syntax, c, rest);
    } else if ShortEscape(syntax, c).Some? {
      UnescapeShortEscape(syntax, c, rest);
    } else {
      var s := Escape(syntax, c) + rest;
      assert s[1..] == rest;
    }
  }

  /** The `\uXXXX` case of `UnescapeEscape`. */
  lemma UnescapeHexEscape(syntax: Syntax, c: char, rest: string)
    requires HexEscaped(syntax, c)
    ensures Unescape(syntax, Escape(syntax, c) + rest) == Prepend(c, Unescape(syntax, rest))
  {
    var digits := HexDigits(c as int, 4);
    var s := ("\\u" + digits) + rest;
    assert Escape(syntax, c) == "\\u" + digits;
    assert Pow16(4) == 0x1_0000;
    HexRoundTrip(c as int, 4);
    assert s[2..6] == digits;
    assert s[6..] == rest;
    UnescapeHexAt(syntax, s, c as int);
    assert (c as int) as char == c;
  }

  /** A `\u` escape of a non-surrogate code at the head of s is read as
      that character. */
  lemma UnescapeHexAt(syntax: Syntax, s: string, code: nat)
    requires |s| >= 6 && s[0] == '\\' && s[1] == 'u' && HexNumber(s[2..6]) == Some(code) && code < 0xD800
    ensures Unescape(syntax, s) == Prepend(code as char, Unescape(syntax, s[6..]))
  {
    assert ShortUnescape(syntax, 'u').None?;
  }

  /** The two-character case of `UnescapeEscape`. */
  lemma UnescapeShortEscape(syntax: Syntax, c: char, rest: string)
    requires !HexEscaped(syntax, c) && ShortEscape(syntax, c).Some?
    ensures Unescape(syntax, Escape(syntax, c) + rest) == Prepend(c, Unescape(syntax, rest))
  {
    var s := Escape(syntax, c) + rest;
    assert s[0] == '\\' && s[1] == ShortEscape(syntax, c).value;
    assert ShortUnescape(syntax, s[1]) == Some(c);
    assert s[2..] == rest;
  }

  /** Reading back an encoded string gives the string: the encoders lose
      nothing. */
  lemma {:induction false} EncodeRoundTrip(syntax: Syntax, s: string)
    ensures Unescape(syntax, Encode(syntax, s)) == Some(s)
  {
    if s != [] {
      EncodeRoundTrip(syntax, s[1..]);
      UnescapeEscape(syntax, s[0], Encode(syntax, s[1..]));
      assert [s[0]] + s[1..] == s;
    }
  }

  /** No character in the escape of c is a control character, and a `"`
      in it comes right after a backslash. */
  lemma EscapeIsPrintable(syntax: Syntax, c: char)
    ensures forall i :: 0 <= i < |Escape(syntax, c)| ==> Escape(syntax, c)[i] as int >= 0x20 && Escape(syntax, c)[i] as int != 0x7f
    ensures forall i :: 0 <= i < |Escape(syntax, c)| && Escape(syntax, c)[i] == '"' ==> i == 1 && Escape(syntax, c)[0] == '\\'
  {
    if HexEscaped(syntax, c) {
      HexDigitsAreDigits(c as int, 4);
    }
  }

  /** An encoded string holds no control character, and every `"` in it
      comes right after a backslash. */
  lemma {:induction false} EncodedIsPrintable(syntax: Syntax, s: string)
    ensures forall i :: 0 <= i < |Encode(syntax, s)| ==> Encode(syntax, s)[i] as int >= 0x20 && Encode(syntax, s)[i] as int != 0x7f
    ensures forall i :: 0 <= i < |Encode(syntax, s)| && Encode(syntax, s)[i] == '"' ==> i > 0 && Encode(syntax, s)[i - 1] == '\\'
  {
    if s != [] {
      EncodedIsPrintable(syntax, s[1..]);
      EscapeIsPrintable(syntax, s[0]);
      var head := Escape(syntax, s[0]);
      var tail := Encode(syntax, s[1..]);
      var r := head + tail;
      assert Encode(syntax, s) == r;
      forall i | 0 <= i < |r|
        ensures r[i] as int >= 0x20 && r[i] as int != 0x7f
        ensures r[i] == '"' ==> i > 0 && r[i - 1] == '\\'
      {
        if i >= |head| {
          assert r[i] == tail[i - |head|];
          if r[i] == '"' {
            assert r[i - 1] == tail[i - |head| - 1];
          }
        } else {
          assert r[i] == head[i];
        }
      }
    }
  }

  lemma {:induction false} HexDigitsAreDigits(value: nat, n: nat)
    ensures forall i :: 0 <= i < n ==> HexDigits(value, n)[i] in "0123456789abcdef"
  {
    if n > 0 {
      HexDigitsAreDigits(value / 16, n - 1);
    }
  }

  // ------------------------------------------------------------- narrowing

  /** The halfwidth counterpart `ToNarrow` gives one character: the
      ideographic space, the fullwidth forms of ASCII punctuation, digits
      and letters, and the typographic quotes and hyphen. The fullwidth
      quotation mark, apostrophe, hyphen-minus and grave accent are not in
      the table and stay as they are. */
  function NarrowChar(c: char): (r: char)
    ensures c as int < 0x2010 ==> r == c
    ensures r != c ==> 0x20 <= r as int <= 0x7e
    ensures 0xFF01 <= c as int <= 0xFF5E && c !in "\U{FF02}\U{FF07}\U{FF0D}\U{FF40}" ==> r as int == c as int - 0xFEE0
  {
    if c == '\U{3000}' then ' '
    else if c == '\U{FF01}' then '!'
    else if c == '\U{201D}' then '"'
    else if c == '\U{FF03}' then '#'
    else if c == '\U{FF04}' then '$'
    else if c == '\U{FF05}' then '%'
    else if c == '\U{FF06}' then '&'
    else if c == '\U{2019}' then '\''
    else if c == '\U{FF08}' then '('
    else if c == '\U{FF09}' then ')'
    else if c == '\U{FF0A}' then '*'
    else if c == '\U{FF0B}' then '+'
    else if c == '\U{FF0C}' then ','
    else if c == '\U{2010}' then '-'
    else if c == '\U{FF0E}' then '.'
    else if c == '\U{FF0F}' then '/'
    else if '\U{FF10}' <= c <= '\U{FF19}' then (c as int - 0xFF10 + '0' as int) as char
    else if c == '\U{FF1A}' then ':'
    else if c == '\U{FF1B}' then ';'
    else if c == '\U{FF1C}' then '<'
    else if c == '\U{FF1D}' then '='
    else if c == '\U{FF1E}' then '>'
    else if c == '\U{FF1F}' then '?'
    else if c == '\U{FF20}' then '@'
    else if '\U{FF21}' <= c <= '\U{FF3A}' then (c as int - 0xFF21 + 'A' as int) as char
    else if c == '\U{FF3B}' then '['
    else if c == '\U{FF3C}' then '\\'
    else if c == '\U{FF3D}' then ']'
    else if c == '\U{FF3E}' then '^'
    else if c == '\U{FF3F}' then '_'
    else if c == '\U{2018}' then '`'
    else if '\U{FF41}' <= c <= '\U{FF5A}' then (c as int - 0xFF41 + 'a' as int) as char
    else if c == '\U{FF5B}' then '{'
    else if c == '\U{FF5C}' then '|'
    else if c == '\U{FF5D}' then '}'
    else if c == '\U{FF5E}' then '~'
    else c
  }

  /** Every character of s narrowed in place. */
  ghost function Narrowed(s: string): (r: string)
    ensures |r| == |s|
  {
    seq(|s|, i requires 0 <= i < |s| => NarrowChar(s[i]))
  }

  /** `ToNarrow(s)`: appends the narrowed form of each character of s to a
      builder, so the result has the same length as s. */
  method ToNarrow(s: string) returns (r: string)
    ensures r == Narrowed(s)
  {
    var sb := "";
    var i := 0;
    while i < |s|
      invariant 0 <= i <= |s|
      invariant sb == Narrowed(s[..i])
    {
      sb := sb + [NarrowChar(s[i])];
      i := i + 1;
    }
    assert s[..i] == s;
    r := sb;
  }

  /** What narrowing yields is already narrow: `ToNarrow` is idempotent. */
  lemma NarrowedIdempotent(s: string)
    ensures Narrowed(Narrowed(s)) == Narrowed(s)
  {
    forall i | 0 <= i < |s|
      ensures NarrowChar(NarrowChar(s[i])) == NarrowChar(s[i])
    {
      var c := NarrowChar(s[i]);
      if c != s[i] {
        assert c as int < 0x2010;
      }
    }
  }

  // ------------------------------------------------------------- file names

  /** The characters Windows refuses in a file name. */
  predicate IsForbidden(c: char)
  {
    c in "\\/:*?\"<>|"
  }

  predicate IsMark(c: char)
  {
    c == '?' || c == '!'
  }

  /** The length of the run of `?` and `!` that s starts with. */
  function MarkRun(s: string): (n: nat)
    ensures n <= |s|
    ensures forall i :: 0 <= i < n ==> IsMark(s[i])
    ensures n < |s| ==> !IsMark(s[n])
  {
    if s != [] && IsMark(s[0]) then 1 + MarkRun(s[1..]) else 0
  }

  /** The fullwidth question and exclamation marks. */
  function WideMark(c: char): char
  {
    if c == '?' then '\U{FF1F}' else if c == '!' then '\U{FF01}' else c
  }

  /** The replacement of `([\?!]*\?[\?!]*)`: a maximal run of `?` and `!`
      that holds a `?` is matched whole, and each of its marks is widened;
      a run of `!` alone is left as it is. */
  function WidenMarks(s: string): (r: string)
    ensures WidenedFrom(s, r)
    ensures '?' !in s ==> r == s
    decreases |s|
  {
    if s == [] then []
    else if !IsMark(s[0]) then
      var tail := WidenMarks(s[1..]);
      assert [s[0]] + s[1..] == s;
      WidenedConcat([s[0]], [s[0]], s[1..], tail);
      NoQuestionInParts([s[0]], s[1..]);
      [s[0]] + tail
    else
      var n := MarkRun(s);
      var run := s[..n];
      var head := WidenRun(run);
      var tail := WidenMarks(s[n..]);
      assert run + s[n..] == s;
      WidenedConcat(run, head, s[n..], tail);
      NoQuestionInParts(run, s[n..]);
      head + tail
  }

  /** A string without `?` has no `?` in either of its parts. */
  lemma NoQuestionInParts(s1: string, s2: string)
    ensures '?' !in s1 + s2 ==> '?' !in s1 && '?' !in s2
  {
    if '?' in s2 {
      var k :| 0 <= k < |s2| && s2[k] == '?';
      assert (s1 + s2)[|s1| + k] == '?';
    }
  }

  /** One run of marks as the pattern replaces it: widened whole when it
      holds a `?`, left alone otherwise. */
  function WidenRun(run: string): (head: string)
    ensures WidenedFrom(run, head)
    ensures '?' !in run ==> head == run
  {
    if '?' in run then seq(|run|, i requires 0 <= i < |run| => WideMark(run[i])) else run
  }

  /** r is s with some of its marks widened, and every `?` widened. */
  predicate WidenedFrom(s: string, r: string)
  {
    && |r| == |s|
    && (forall i :: 0 <= i < |s| ==> r[i] == s[i] || (IsMark(s[i]) && r[i] == WideMark(s[i])))
    && (forall i :: 0 <= i < |s| && s[i] == '?' ==> r[i] == '\U{FF1F}')
  }

  /** Widening is piecewise: widened pieces join into a widened whole. */
  lemma WidenedConcat(s1: string, r1: string, s2: string, r2: string)
    requires WidenedFrom(s1, r1) && WidenedFrom(s2, r2)
    ensures WidenedFrom(s1 + s2, r1 + r2)
  {
    var s, r := s1 + s2, r1 + r2;
    forall i | 0 <= i < |s|
      ensures r[i] == s[i] || (IsMark(s[i]) && r[i] == WideMark(s[i]))
      ensures s[i] == '?' ==> r[i] == '\U{FF1F}'
    {
      if i >= |s1| {
        assert s[i] == s2[i - |s1|] && r[i] == r2[i - |s1|];
      }
    }
  }

  /** The per-character replacement of the forbidden characters by their
      fullwidth (or typographic) look-alikes. */
  function FileNameChar(c: char): (r: char)
    ensures !IsForbidden(r)
    ensures !IsForbidden(c) ==> r == c
  {
    if c == '\\' then '\U{FF3C}'
    else if c == '/' then '\U{FF0F}'
    else if c == ':' then '\U{FF1A}'
    else if c == '*' then '\U{FF0A}'
    else if c == '?' then '\U{FF1F}'
    else if c == '"' then '\U{201D}'
    else if c == '<' then '\U{FF1C}'
    else if c == '>' then '\U{FF1E}'
    else if c == '|' then '\U{FF5C}'
    else c
  }

  /** `Char.IsWhiteSpace`: the Unicode separators and the white-space
      control characters. */
  predicate IsWhiteSpace(c: char)
  {
    (0x09 <= c as int <= 0x0d) || c == ' ' || c as int == 0x85 || c as int == 0xa0 || c as int == 0x1680
    || (0x2000 <= c as int <= 0x200a) || c as int == 0x2028 || c as int == 0x2029 || c as int == 0x202f
    || c as int == 0x205f || c as int == 0x3000
  }

  /** `String.Trim()`: white space removed from both ends. */
  function Trim(s: string): (r: string)
    ensures r == [] || (!IsWhiteSpace(r[0]) && !IsWhiteSpace(r[|r| - 1]))
    ensures forall c :: c in r ==> c in s
    ensures s != [] && !IsWhiteSpace(s[0]) && !IsWhiteSpace(s[|s| - 1]) ==> r == s
    decreases |s|
  {
    if s != [] && IsWhiteSpace(s[0]) then Trim(s[1..])
    else if s != [] && IsWhiteSpace(s[|s| - 1]) then Trim(s[..|s| - 1])
    else s
  }

  /** s without one trailing `.`, if it ends in one. */
  function DropTrailingDot(s: string): (r: string)
    ensures forall c :: c in r ==> c in s
  {
    if s != [] && s[|s| - 1] == '.' then s[..|s| - 1] else s
  }

  /** `WindowsFileNameEncoding(s)`: marks widened, forbidden characters
      replaced, one trailing `.` dropped, and the ends trimmed. The result
      holds none of the characters Windows refuses. */
  function WindowsFileNameEncoding(s: string): (r: string)
    ensures forall c :: c in r ==> !IsForbidden(c)
    ensures forall c :: c in r ==> c in ReplaceForbidden(WidenMarks(s))
    ensures r == [] || (!IsWhiteSpace(r[0]) && !IsWhiteSpace(r[|r| - 1]))
    ensures var m := ReplaceForbidden(WidenMarks(s));
            m != [] && m[|m| - 1] != '.' && !IsWhiteSpace(m[0]) && !IsWhiteSpace(m[|m| - 1]) ==> r == m
  {
    Trim(DropTrailingDot(ReplaceForbidden(WidenMarks(s))))
  }

  /** Each character replaced by its file-name form, one for one. */
  function ReplaceForbidden(w: string): (r: string)
    ensures |r| == |w| && forall i :: 0 <= i < |w| ==> r[i] == FileNameChar(w[i])
    ensures forall c :: c in r ==> !IsForbidden(c)
  {
    seq(|w|, i requires 0 <= i < |w| => FileNameChar(w[i]))
  }

  /** A name that is already acceptable (no forbidden character, no
      trailing `.`, no white space at either end) comes back unchanged. */
  lemma AcceptableFileNameUnchanged(s: string)
    requires s != []
    requires forall i :: 0 <= i < |s| ==> !IsForbidden(s[i])
    requires s[|s| - 1] != '.' && !IsWhiteSpace(s[0]) && !IsWhiteSpace(s[|s| - 1])
    ensures WindowsFileNameEncoding(s) == s
  {
    var widened := WidenMarks(s);
    assert widened == s;
    var replaced := ReplaceForbidden(widened);
    assert replaced == s;
  }

  /** The dot is dropped before the trim, so a name can still end in `.`. */
  lemma TrailingDotBeforeSpaceSurvives()
    ensures WindowsFileNameEncoding("a. ") == "a."
  {
    var replaced := seq(3, i requires 0 <= i < 3 => FileNameChar("a. "[i]));
    assert replaced == "a. ";
    assert Trim("a. ") == Trim("a.") == "a.";
  }

  // ------------------------------------------------------------- common parts

  /** `CharacterEqual`: equality, or equality after `upper` (the invariant
      upper-casing) when case is ignored. */
  predicate CharacterEqual(c1: char, c2: char, ignoreCase: bool, upper: char -> char)
  {
    if ignoreCase then upper(c1) == upper(c2) else c1 == c2
  }

  /** n characters agree position by position from the start, and the
      next pair, if both strings have one, does not. */
  predicate IsLongestAgreeingPrefix(s1: string, s2: string, n: nat, ignoreCase: bool, upper: char -> char)
  {
    n <= |s1| && n <= |s2|
    && (forall i :: 0 <= i < n ==> CharacterEqual(s1[i], s2[i], ignoreCase, upper))
    && (n == |s1| || n == |s2| || !CharacterEqual(s1[n], s2[n], ignoreCase, upper))
  }

  /** The character i places before the end of s. */
  function FromEnd(s: string, i: nat): char
    requires i < |s|
  {
    s[|s| - 1 - i]
  }

  /** n characters agree position by position from the end, and the next
      pair towards the start, if both strings have one, does not. */
  predicate IsLongestAgreeingSuffix(s1: string, s2: string, n: nat, ignoreCase: bool, upper: char -> char)
  {
    n <= |s1| && n <= |s2|
    && (forall i :: 0 <= i < n ==> CharacterEqual(FromEnd(s1, i), FromEnd(s2, i), ignoreCase, upper))
    && (n == |s1| || n == |s2| || !CharacterEqual(FromEnd(s1, n), FromEnd(s2, n), ignoreCase, upper))
  }

  /** The index of the first pair of characters that differ, or the
      shorter length when none do: what the zipped search finds. */
  function FirstMismatch(s1: string, s2: string, ignoreCase: bool, upper: char -> char): (n: nat)
    ensures IsLongestAgreeingPrefix(s1, s2, n, ignoreCase, upper)
    decreases |s1|
  {
    if s1 == [] || s2 == [] || !CharacterEqual(s1[0], s2[0], ignoreCase, upper) then 0
    else 1 + FirstMismatch(s1[1..], s2[1..], ignoreCase, upper)
  }

  /** The same search over both strings reversed. */
  function LastMismatch(s1: string, s2: string, ignoreCase: bool, upper: char -> char): (n: nat)
    ensures IsLongestAgreeingSuffix(s1, s2, n, ignoreCase, upper)
    decreases |s1|
  {
    if s1 == [] || s2 == [] || !CharacterEqual(s1[|s1| - 1], s2[|s2| - 1], ignoreCase, upper) then 0
    else
      var n := LastMismatch(s1[..|s1| - 1], s2[..|s2| - 1], ignoreCase, upper);
      assert forall i :: 0 < i <= n ==> FromEnd(s1, i) == FromEnd(s1[..|s1| - 1], i - 1);
      assert forall i :: 0 < i <= n ==> FromEnd(s2, i) == FromEnd(s2[..|s2| - 1], i - 1);
      1 + n
  }

  /** The shorter of two strings; the first on a tie (the swap in the
      source happens only when the first is longer). */
  function Shorter(s1: string, s2: string): string
  {
    if |s1| > |s2| then s2 else s1
  }

  /** `GetLeadingCommonPart(s1, s2, ignoreCase)`: a null argument yields
      the other one; otherwise the prefix of the shorter string up to the
      first pair of characters that differ. */
  function GetLeadingCommonPart(s1: Option<string>, s2: Option<string>, ignoreCase: bool, upper: char -> char): (r: Option<string>)
    ensures s1.None? ==> r == s2
    ensures s1.Some? && s2.None? ==> r == s1
    ensures s1.Some? && s2.Some? ==>
              r.Some? && |r.value| <= |Shorter(s1.value, s2.value)|
              && r.value == Shorter(s1.value, s2.value)[..|r.value|]
              && IsLongestAgreeingPrefix(s1.value, s2.value, |r.value|, ignoreCase, upper)
  {
    if s1.None? then s2
    else if s2.None? then s1
    else if |s1.value| == 0 || |s2.value| == 0 then Some("")
    else
      var (a, b) := if |s1.value| > |s2.value| then (s2.value, s1.value) else (s1.value, s2.value);
      var n := FirstMismatch(a, b, ignoreCase, upper);
      assert IsLongestAgreeingPrefix(s1.value, s2.value, n, ignoreCase, upper) by {
        if |s1.value| > |s2.value| {
          assert forall i :: 0 <= i < n ==> CharacterEqual(a[i], b[i], ignoreCase, upper);
        }
      }
      Some(a[..n])
  }

  /** `GetTrailingCommonPart(s1, s2, ignoreCase)`: a null argument yields
      the other one; otherwise the suffix of the shorter string back to
      the last pair of characters that differ. */
  function GetTrailingCommonPart(s1: Option<string>, s2: Option<string>, ignoreCase: bool, upper: char -> char): (r: Option<string>)
    ensures s1.None? ==> r == s2
    ensures s1.Some? && s2.None? ==> r == s1
    ensures s1.Some? && s2.Some? ==>
              r.Some? && |r.value| <= |Shorter(s1.value, s2.value)|
              && r.value == Shorter(s1.value, s2.value)[|Shorter(s1.value, s2.value)| - |r.value|..]
              && IsLongestAgreeingSuffix(s1.value, s2.value, |r.value|, ignoreCase, upper)
  {
    if s1.None? then s2
    else if s2.None? then s1
    else if |s1.value| == 0 || |s2.value| == 0 then Some("")
    else
      var (a, b) := if |s1.value| > |s2.value| then (s2.value, s1.value) else (s1.value, s2.value);
      var n := LastMismatch(a, b, ignoreCase, upper);
      Some(a[|a| - n..])
  }

  /** Without case folding the leading common part is a prefix of both
      strings and no longer one is. */
  lemma LeadingCommonPartIsLongestCommonPrefix(s1: string, s2: string, upper: char -> char, p: string)
    requires p <= s1 && p <= s2
    ensures GetLeadingCommonPart(Some(s1), Some(s2), false, upper).Some?
    ensures GetLeadingCommonPart(Some(s1), Some(s2), false, upper).value <= s1
    ensures GetLeadingCommonPart(Some(s1), Some(s2), false, upper).value <= s2
    ensures |p| <= |GetLeadingCommonPart(Some(s1), Some(s2), false, upper).value|
  {
    var r := GetLeadingCommonPart(Some(s1), Some(s2), false, upper).value;
    assert r == s1[..|r|] && r == s2[..|r|];
  }

  /** Without case folding the trailing common part is a suffix of both
      strings and no longer one is. */
  lemma TrailingCommonPartIsLongestCommonSuffix(s1: string, s2: string, upper: char -> char, p: string)
    requires |p| <= |s1| && |p| <= |s2| && p == s1[|s1| - |p|..] && p == s2[|s2| - |p|..]
    ensures GetTrailingCommonPart(Some(s1), Some(s2), false, upper).Some?
    ensures var r := GetTrailingCommonPart(Some(s1), Some(s2), false, upper).value;
              |r| <= |s1| && |r| <= |s2| && r == s1[|s1| - |r|..] && r == s2[|s2| - |r|..]
    ensures |p| <= |GetTrailingCommonPart(Some(s1), Some(s2), false, upper).value|
  {
    var r := GetTrailingCommonPart(Some(s1), Some(s2), false, upper).value;
    var n := |r|;
    assert IsLongestAgreeingSuffix(s1, s2, n, false, upper);
    EndsAgree(s1, s2, n, upper);
    EndsAgree(s2, s1, n, upper);
  }

  /** Without case folding, n characters that agree from the end are the
      last n characters of both strings. */
  lemma EndsAgree(s1: string, s2: string, n: nat, upper: char -> char)
    requires n <= |s1| && n <= |s2|
    requires forall i :: 0 <= i < n ==> CharacterEqual(FromEnd(s1, i), FromEnd(s2, i), false, upper)
    ensures s1[|s1| - n..] == s2[|s2| - n..]
  {
    var tail1, tail2 := s1[|s1| - n..], s2[|s2| - n..];
    forall i | 0 <= i < n
      ensures tail1[i] == tail2[i]
    {
      var j := n - 1 - i;
      assert CharacterEqual(FromEnd(s1, j), FromEnd(s2, j), false, upper);
    }
  }

  // ------------------------------------------------------------- chunks

  /** The chunks joined back together. */
  function Concat(chunks: seq<string>): (r: string)
  {
    if chunks == [] then [] else Concat(chunks[..|chunks| - 1]) + chunks[|chunks| - 1]
  }

  lemma {:induction false} ConcatLength(chunks: seq<string>, count: nat)
    requires forall k :: 0 <= k < |chunks| ==> |chunks[k]| == count
    ensures |Concat(chunks)| == |chunks| * count
  {
    if chunks != [] {
      ConcatLength(chunks[..|chunks| - 1], count);
    }
  }

  lemma ConcatAppend(chunks: seq<string>, chunk: string)
    ensures Concat(chunks + [chunk]) == Concat(chunks) + chunk
  {
    assert (chunks + [chunk])[..|chunks|] == chunks;
  }

  /** Whole chunks of count characters followed by fewer than count
      leftover characters: the chunks are the longest prefix made of whole
      chunks. */
  lemma ChunksCoverPrefix(source: string, chunks: seq<string>, rest: string, count: nat)
    requires forall k :: 0 <= k < |chunks| ==> |chunks[k]| == count
    requires Concat(chunks) + rest == source && |rest| < count
    ensures |chunks| * count <= |source| < |chunks| * count + count
    ensures Concat(chunks) == source[..|chunks| * count]
  {
    ConcatLength(chunks, count);
  }

  /** `ChunkAsString(source, count)`: the characters of source cut into
      strings of exactly count characters each, in order; the incomplete
      tail that is left in the builder is dropped. A count below one is out
      of range. */
  method ChunkAsString(source: string, count: Int32) returns (r: Result<seq<string>>)
    ensures r.Err? <==> count <= 0
    ensures r.Err? ==> r.error == ArgumentOutOfRange
    ensures r.Ok? ==> forall k :: 0 <= k < |r.value| ==> |r.value[k]| == count
    ensures r.Ok? ==> |r.value| * count <= |source| < |r.value| * count + count
    ensures r.Ok? ==> Concat(r.value) == source[..|r.value| * count]
  {
    if count <= 0 {
      return Err(ArgumentOutOfRange);
    }
    var chunks: seq<string> := [];
    var sb := "";
    var i := 0;
    while i < |source|
      invariant 0 <= i <= |source|
      invariant forall k :: 0 <= k < |chunks| ==> |chunks[k]| == count
      invariant |sb| < count
      invariant Concat(chunks) + sb == source[..i]
    {
      assert source[..i + 1] == source[..i] + [source[i]];
      sb := sb + [source[i]];
      if |sb| >= count {
        ConcatAppend(chunks, sb);
        chunks := chunks + [sb];
        sb := "";
      }
      i := i + 1;
    }
    assert source[..i] == source;
    ChunksCoverPrefix(source, chunks, sb, count);
    r := Ok(chunks);
  }
}
