/**
 * The JavaScript string built-ins the job board relies on, modelled on
 * `seq<char>`: `toLowerCase`, `includes`, `split`, `trim`, the truthiness of a
 * form string, and the decimal rendering of an integer inside a template
 * literal.
 */
module JsText {
  import opened Wrappers

  // ---------------------------------------------------------------------------
  // Truthiness of a form field

  /**
   * A form string is falsy in JavaScript when it is absent or empty; it is
   * then exactly the values a `= ""` default or a `|| ""` fallback turns into "".
   */
  predicate Falsy(s: Option<string>): (b: bool)
    ensures b <==> s.GetOr("") == ""
  {
    s.None? || s.value == ""
  }

  // ---------------------------------------------------------------------------
  // toLowerCase, as ASCII case folding

  predicate IsUpper(c: char) {
    'A' <= c <= 'Z'
  }

  /**
   * Folds one character: an ASCII upper-case letter becomes the lower-case
   * letter at the same place in the alphabet, every other character stays.
   */
  function LowerChar(c: char): (d: char)
    ensures !IsUpper(d)
    ensures d == c <==> !IsUpper(c)
    ensures IsUpper(c) ==> 'a' <= d <= 'z' && d as int - 'a' as int == c as int - 'A' as int
  {
    if IsUpper(c) then (c as int + 32) as char else c
  }

  /**
   * `s.toLowerCase()`: each upper-case letter becomes the lower-case letter at
   * the same place in the alphabet, and nothing else changes.
   */
  function ToLower(s: string): (r: string)
    ensures |r| == |s|
    ensures forall i :: 0 <= i < |r| ==> !IsUpper(r[i])
    ensures forall i :: 0 <= i < |s| && !IsUpper(s[i]) ==> r[i] == s[i]
    ensures forall i :: 0 <= i < |s| && IsUpper(s[i]) ==> r[i] as int - 'a' as int == s[i] as int - 'A' as int
  {
    seq(|s|, i requires 0 <= i < |s| => LowerChar(s[i]))
  }

  /** Lowering twice is lowering once. */
  lemma ToLowerIdempotent(s: string)
    ensures ToLower(ToLower(s)) == ToLower(s)
  {
    var once := ToLower(s);
    forall i | 0 <= i < |s|
      ensures ToLower(once)[i] == once[i]
    {
      assert !IsUpper(once[i]);
    }
  }

  // ---------------------------------------------------------------------------
  // includes

  /** `needle` occurs in `hay` starting at position `i`. */
  ghost predicate OccursAt(hay: string, needle: string, i: int) {
    0 <= i && i + |needle| <= |hay| && hay[i..i + |needle|] == needle
  }

  /** `hay.includes(needle)`: some position of `hay` starts a copy of `needle`. */
  function Contains(hay: string, needle: string): (b: bool)
    ensures b <==> exists i :: OccursAt(hay, needle, i)
    decreases |hay|
  {
    if |needle| > |hay| then
      false
    else if hay[..|needle|] == needle then
      assert OccursAt(hay, needle, 0);
      true
    else
      var b := Contains(hay[1..], needle);
      assert b ==> exists i :: OccursAt(hay, needle, i) by {
        if b {
          var i :| OccursAt(hay[1..], needle, i);
          assert hay[1..][i..i + |needle|] == hay[i + 1..i + 1 + |needle|];
          assert OccursAt(hay, needle, i + 1);
        }
      }
      assert (exists i :: OccursAt(hay, needle, i)) ==> b by {
        if exists i :: OccursAt(hay, needle, i) {
          var i :| OccursAt(hay, needle, i);
          assert i != 0;
          assert hay[1..][i - 1..i - 1 + |needle|] == hay[i..i + |needle|];
          assert OccursAt(hay[1..], needle, i - 1);
        }
      }
      b
  }

  /** The empty string occurs in every string. */
  lemma {:induction false} ContainsEmpty(hay: string)
    ensures Contains(hay, "")
  {
    assert OccursAt(hay, "", 0);
  }

  /** A needle holding a character the haystack lacks does not occur in it. */
  lemma MissingCharNotContained(hay: string, needle: string, c: char)
    requires c in needle && c !in hay
    ensures !Contains(hay, needle)
  {
    var k :| 0 <= k < |needle| && needle[k] == c;
    forall i | 0 <= i
      ensures !OccursAt(hay, needle, i)
    {
      if i + |needle| <= |hay| {
        assert hay[i..i + |needle|][k] == hay[i + k] != c;
      }
    }
  }

  /** Lowering cannot create a letter that appears in neither case. */
  lemma LowerMissingChar(s: string, c: char)
    requires 'a' <= c <= 'z' && c !in s && (c as int - 32) as char !in s
    ensures c !in ToLower(s)
  {
    forall i | 0 <= i < |s|
      ensures ToLower(s)[i] != c
    {
      assert s[i] != c && s[i] != (c as int - 32) as char;
    }
  }

  /**
   * Ignoring case, a needle holding a letter that the haystack lacks in both
   * cases does not occur in it.
   */
  lemma CaselessMissingLetter(hay: string, needle: string, c: char)
    requires 'a' <= c <= 'z' && c in ToLower(needle)
    requires c !in hay && (c as int - 32) as char !in hay
    ensures !Contains(ToLower(hay), ToLower(needle))
  {
    LowerMissingChar(hay, c);
    MissingCharNotContained(ToLower(hay), ToLower(needle), c);
  }

  // ---------------------------------------------------------------------------
  // trim

  /**
   * The characters `String.prototype.trim` removes: the WhiteSpace and
   * LineTerminator code points of ECMAScript (section 12.2 and 12.3 of
   * ECMA-262), that is TAB, VT, FF, ZWNBSP, the space separators and LF, CR,
   * LS, PS.
   */
  predicate IsJsSpace(c: char) {
    c in JsSpaces
  }

  const JsSpaces: set<char> := {
    '\t', '\U{000B}', '\U{000C}', '\U{FEFF}',
    ' ', '\U{00A0}', '\U{1680}',
    '\U{2000}', '\U{2001}', '\U{2002}', '\U{2003}', '\U{2004}', '\U{2005}',
    '\U{2006}', '\U{2007}', '\U{2008}', '\U{2009}', '\U{200A}',
    '\U{202F}', '\U{205F}', '\U{3000}',
    '\n', '\r', '\U{2028}', '\U{2029}' }

  /** The length of the longest all-space prefix of `s`. */
  function LeadingSpaces(s: string): (n: nat)
    ensures n <= |s|
    ensures forall k :: 0 <= k < n ==> IsJsSpace(s[k])
    ensures n < |s| ==> !IsJsSpace(s[n])
  {
    if s == [] || !IsJsSpace(s[0]) then 0 else 1 + LeadingSpaces(s[1..])
  }

  /** The length of the longest all-space suffix of `s`. */
  function TrailingSpaces(s: string): (n: nat)
    ensures n <= |s|
    ensures forall k :: |s| - n <= k < |s| ==> IsJsSpace(s[k])
    ensures n < |s| ==> !IsJsSpace(s[|s| - 1 - n])
  {
    if s == [] || !IsJsSpace(s[|s| - 1]) then 0 else 1 + TrailingSpaces(s[..|s| - 1])
  }

  /**
   * `s.trim()`: the middle of `s` once the spaces at both ends are gone. The
   * result is a slice of `s`, everything cut off is space, and the result
   * neither starts nor ends with space.
   */
  function Trim(s: string): (r: string)
    ensures LeadingSpaces(s) + |r| <= |s|
    ensures r == s[LeadingSpaces(s)..LeadingSpaces(s) + |r|]
    ensures forall k :: LeadingSpaces(s) + |r| <= k < |s| ==> IsJsSpace(s[k])
    ensures r != [] ==> !IsJsSpace(r[0]) && !IsJsSpace(r[|r| - 1])
  {
    var a := LeadingSpaces(s);
    if a == |s| then [] else s[a..|s| - TrailingSpaces(s)]
  }

  /** Trimming twice is trimming once. */
  lemma TrimIdempotent(s: string)
    ensures Trim(Trim(s)) == Trim(s)
  {
    var r := Trim(s);
    assert LeadingSpaces(r) == 0;
  }

  /** Leading space padding adds its length to the leading-space count. */
  lemma {:induction false} LeadingSpacesPadded(left: string, rest: string)
    requires forall k :: 0 <= k < |left| ==> IsJsSpace(left[k])
    ensures LeadingSpaces(left + rest) == |left| + LeadingSpaces(rest)
  {
    if left != [] {
      assert (left + rest)[1..] == left[1..] + rest;
      LeadingSpacesPadded(left[1..], rest);
    } else {
      assert left + rest == rest;
    }
  }

  /** Trailing space padding adds its length to the trailing-space count. */
  lemma {:induction false} TrailingSpacesPadded(rest: string, right: string)
    requires forall k :: 0 <= k < |right| ==> IsJsSpace(right[k])
    ensures TrailingSpaces(rest + right) == |right| + TrailingSpaces(rest)
  {
    if right != [] {
      var shorter := right[..|right| - 1];
      assert (rest + right)[..|rest + right| - 1] == rest + shorter;
      TrailingSpacesPadded(rest, shorter);
    } else {
      assert rest + right == rest;
    }
  }

  /** A string with non-space ends is its own trim. */
  lemma TrimUnpadded(s: string)
    requires s != [] ==> !IsJsSpace(s[0]) && !IsJsSpace(s[|s| - 1])
    ensures Trim(s) == s
  {
    assert LeadingSpaces(s) == 0;
    assert s != [] ==> TrailingSpaces(s) == 0;
  }

  /** Trim removes exactly the space padding around a string with non-space ends. */
  lemma TrimStripsPadding(left: string, core: string, right: string)
    requires forall k :: 0 <= k < |left| ==> IsJsSpace(left[k])
    requires forall k :: 0 <= k < |right| ==> IsJsSpace(right[k])
    requires core != [] ==> !IsJsSpace(core[0]) && !IsJsSpace(core[|core| - 1])
    ensures Trim(left + core + right) == core
  {
    var s := left + core + right;
    if core == [] {
      assert s == left + right;
      LeadingSpacesPadded(left, right);
      LeadingSpacesPadded(right, []);
      assert right + [] == right;
    } else {
      PaddingCounts(left, core, right);
      assert s[|left|..|s| - |right|] == core;
    }
  }

  /** Around a core with non-space ends, the space counts are exactly the padding lengths. */
  lemma PaddingCounts(left: string, core: string, right: string)
    requires forall k :: 0 <= k < |left| ==> IsJsSpace(left[k])
    requires forall k :: 0 <= k < |right| ==> IsJsSpace(right[k])
    requires core != [] && !IsJsSpace(core[0]) && !IsJsSpace(core[|core| - 1])
    ensures LeadingSpaces(left + core + right) == |left|
    ensures TrailingSpaces(left + core + right) == |right|
  {
    assert left + core + right == left + (core + right);
    LeadingSpacesPadded(left, core + right);
    assert LeadingSpaces(core + right) == 0;
    TrailingSpacesPadded(left + core, right);
    assert TrailingSpaces(left + core) == 0;
  }

  // ---------------------------------------------------------------------------
  // split on a single-character separator

  /**
   * `s.split(sep)` for a one-character separator: the pieces between
   * separators, empty pieces kept; the empty string gives one empty piece.
   */
  function Split(s: string, sep: char): (parts: seq<string>)
    ensures |parts| >= 1
    ensures forall k :: 0 <= k < |parts| ==> sep !in parts[k]
  {
    if s == [] then
      [[]]
    else
      var rest := Split(s[1..], sep);
      if s[0] == sep then [[]] + rest else [[s[0]] + rest[0]] + rest[1..]
  }

  /** `parts.join(sep)`: the pieces with one separator between neighbours. */
  function Join(parts: seq<string>, sep: char): string
    requires |parts| >= 1
  {
    if |parts| == 1 then parts[0] else parts[0] + [sep] + Join(parts[1..], sep)
  }

  /** How many times `c` occurs in `s`. */
  function Count(s: string, c: char): nat {
    if s == [] then 0 else (if s[0] == c then 1 else 0) + Count(s[1..], c)
  }

  /** Splitting loses nothing: joining the pieces gives back the input. */
  lemma {:induction false} JoinSplit(s: string, sep: char)
    ensures Join(Split(s, sep), sep) == s
  {
    if s != [] {
      var rest := Split(s[1..], sep);
      JoinSplit(s[1..], sep);
      if s[0] != sep && |rest| > 1 {
        assert Join(rest, sep) == rest[0] + [sep] + Join(rest[1..], sep);
        assert s == [s[0]] + s[1..];
      }
    }
  }

  /** Splitting a join of separator-free pieces gives back the pieces. */
  lemma {:induction false} SplitJoin(parts: seq<string>, sep: char)
    requires |parts| >= 1
    requires forall k :: 0 <= k < |parts| ==> sep !in parts[k]
    ensures Split(Join(parts, sep), sep) == parts
  {
    if |parts| == 1 {
      SplitPiece(parts[0], sep);
    } else {
      SplitJoin(parts[1..], sep);
      SplitPrefix(parts[0], Join(parts[1..], sep), sep);
      assert parts == [parts[0]] + parts[1..];
    }
  }

  /** A string without the separator splits into itself. */
  lemma {:induction false} SplitPiece(s: string, sep: char)
    requires sep !in s
    ensures Split(s, sep) == [s]
  {
    if s != [] {
      SplitPiece(s[1..], sep);
      assert [s[0]] + s[1..] == s;
    }
  }

  /** A separator-free piece in front of a separator lands as the first part. */
  lemma {:induction false} SplitPrefix(piece: string, tail: string, sep: char)
    requires sep !in piece
    ensures Split(piece + [sep] + tail, sep) == [piece] + Split(tail, sep)
  {
    var s := piece + [sep] + tail;
    if piece == [] {
      assert s[1..] == tail;
    } else {
      assert s[1..] == piece[1..] + [sep] + tail;
      SplitPrefix(piece[1..], tail, sep);
      assert [piece[0]] + piece[1..] == piece;
    }
  }

  /** One piece per separator, plus one: empty pieces are kept. */
  lemma {:induction false} SplitCount(s: string, sep: char)
    ensures |Split(s, sep)| == Count(s, sep) + 1
  {
    if s != [] {
      SplitCount(s[1..], sep);
    }
  }

  // ---------------------------------------------------------------------------
  // Decimal rendering of a natural number, as in `${n}`

  function DigitChar(d: nat): (c: char)
    requires d < 10
    ensures '0' <= c <= '9'
  {
    ('0' as int + d) as char
  }

  /** The decimal digits of `n`, most significant first, without leading zeros. */
  function DecimalString(n: nat): (s: string)
    ensures |s| >= 1
    ensures forall k :: 0 <= k < |s| ==> '0' <= s[k] <= '9'
    ensures s[0] == '0' ==> n == 0
  {
    if n < 10 then [DigitChar(n)] else DecimalString(n / 10) + [DigitChar(n % 10)]
  }

  /** Reads a string of decimal digits back as a number. */
  function DecimalValue(s: string): nat
    requires forall k :: 0 <= k < |s| ==> '0' <= s[k] <= '9'
  {
    if s == [] then 0 else DecimalValue(s[..|s| - 1]) * 10 + (s[|s| - 1] as int - '0' as int)
  }

  /** Rendering a number in decimal and reading it back gives the number. */
  lemma {:induction false} DecimalRoundTrip(n: nat)
    ensures DecimalValue(DecimalString(n)) == n
  {
    if n >= 10 {
      DecimalRoundTrip(n / 10);
      var s := DecimalString(n);
      assert s[..|s| - 1] == DecimalString(n / 10);
    }
  }

  /** Different numbers render as different strings. */
  lemma DecimalInjective(a: nat, b: nat)
    requires DecimalString(a) == DecimalString(b)
    ensures a == b
  {
    DecimalRoundTrip(a);
    DecimalRoundTrip(b);
  }
}
