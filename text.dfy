/**
 * The handful of Python `str` operations the school application relies on:
 * `lower`, `upper`, `strip`, `split(sep)`, `split()`, `in` (substring) and
 * `isdigit`. Strings are `seq<char>`; each operation is given at the code-point
 * level, for the characters the application meets (ASCII and Latin-1).
 */
module Text {

  /**
   * The characters Python's `str.isspace` accepts, which `strip()` and
   * `split()` remove: tab to carriage return, the four separators 0x1C-0x1F,
   * the blank, NEL, the no-break space and the Unicode spaces.
   */
  predicate IsSpace(c: char) {
    ('\t' <= c <= '\r') || ('\U{1c}' <= c <= ' ') || c == '\U{85}' || c == '\U{a0}' ||
    c == '\U{1680}' || ('\U{2000}' <= c <= '\U{200a}') || c == '\U{2028}' || c == '\U{2029}' ||
    c == '\U{202f}' || c == '\U{205f}' || c == '\U{3000}'
  }

  predicate IsUpperLetter(c: char) {
    ('A' <= c <= 'Z') || ('\U{c0}' <= c <= '\U{de}' && c != '\U{d7}')
  }

  predicate IsLowerLetter(c: char) {
    ('a' <= c <= 'z') || ('\U{e0}' <= c <= '\U{fe}' && c != '\U{f7}')
  }

  /** `str.lower` on one character: ASCII and Latin-1 capitals move to their small letter. */
  function Lower(c: char): (r: char)
    ensures IsUpperLetter(c) ==> IsLowerLetter(r) && r as int == c as int + 32
    ensures !IsUpperLetter(c) ==> r == c
  {
    if IsUpperLetter(c) then (c as int + 32) as char else c
  }

  /** `str.upper` on one character, for the ASCII and Latin-1 small letters that have a one-character capital. */
  function Upper(c: char): (r: char)
    ensures IsLowerLetter(c) ==> IsUpperLetter(r) && Lower(r) == c
    ensures !IsLowerLetter(c) ==> r == c
  {
    if IsLowerLetter(c) then (c as int - 32) as char else c
  }

  function ToLower(s: string): (r: string)
    ensures |r| == |s|
    ensures forall i :: 0 <= i < |s| ==> r[i] == Lower(s[i])
  {
    if s == [] then [] else [Lower(s[0])] + ToLower(s[1..])
  }

  function ToUpper(s: string): (r: string)
    ensures |r| == |s|
    ensures forall i :: 0 <= i < |s| ==> r[i] == Upper(s[i])
  {
    if s == [] then [] else [Upper(s[0])] + ToUpper(s[1..])
  }

  /** A string that `lower()` leaves alone. */
  predicate IsLowered(s: string) {
    forall i :: 0 <= i < |s| ==> !IsUpperLetter(s[i])
  }

  lemma LowerIsLowered(s: string)
    ensures IsLowered(ToLower(s))
    ensures ToLower(ToLower(s)) == ToLower(s)
  {
  }

  lemma LoweredIsFixed(s: string)
    requires IsLowered(s)
    ensures ToLower(s) == s
  {
  }

  /** Lower-casing a string that has no capitals gives it back; upper-casing it first changes nothing either. */
  lemma LowerOfUpper(s: string)
    requires IsLowered(s)
    ensures ToLower(ToUpper(s)) == s
  {
  }

  /** Lower-casing distributes over concatenation. */
  lemma ToLowerAppend(a: string, b: string)
    ensures ToLower(a + b) == ToLower(a) + ToLower(b)
  {
  }

  // ---------------------------------------------------------------- strip

  /** The number of whitespace characters `s` starts with. */
  function LeadingSpace(s: string): (k: nat)
    ensures k <= |s|
    ensures forall i :: 0 <= i < k ==> IsSpace(s[i])
    ensures k < |s| ==> !IsSpace(s[k])
  {
    if s == [] || !IsSpace(s[0]) then 0 else 1 + LeadingSpace(s[1..])
  }

  /** The number of whitespace characters `s` ends with. */
  function TrailingSpace(s: string): (k: nat)
    ensures k <= |s|
    ensures forall i :: |s| - k <= i < |s| ==> IsSpace(s[i])
    ensures k < |s| ==> !IsSpace(s[|s| - 1 - k])
  {
    if s == [] || !IsSpace(s[|s| - 1]) then 0 else 1 + TrailingSpace(s[..|s| - 1])
  }

  /** `s.strip()`: `s` without its leading and trailing whitespace. */
  function Strip(s: string): string {
    var t := s[LeadingSpace(s)..];
    t[..|t| - TrailingSpace(t)]
  }

  /** What `strip()` keeps: a slice of `s` with no whitespace at either end and only whitespace around it. */
  predicate IsStripOf(s: string, r: string) {
    exists a, b :: 0 <= a <= b <= |s| && r == s[a..b] &&
      (forall i :: 0 <= i < a ==> IsSpace(s[i])) &&
      (forall i :: b <= i < |s| ==> IsSpace(s[i])) &&
      (r == [] || (!IsSpace(r[0]) && !IsSpace(r[|r| - 1])))
  }

  /** One blank written after stripped text is stripped away again. */
  lemma StripTrailingBlank(s: string)
    requires IsStripped(s)
    ensures Strip(s + " ") == s
  {
    var u := s + " ";
    if s != [] {
      assert u[0] == s[0];
      assert LeadingSpace(u) == 0;
      assert u[..|u| - 1] == s;
      assert TrailingSpace(u) == 1 + TrailingSpace(s);
    }
  }

  /** One blank written before stripped text is stripped away again. */
  lemma StripLeadingBlank(s: string)
    requires IsStripped(s)
    ensures Strip(" " + s) == s
  {
    var u := " " + s;
    assert u[1..] == s;
    assert LeadingSpace(u) == 1 + LeadingSpace(s);
  }

  /** `strip()` keeps a contiguous piece of its input. */
  lemma StripIsSlice(s: string)
    ensures exists a, b :: 0 <= a <= b <= |s| && Strip(s) == s[a..b]
  {
    var a := LeadingSpace(s);
    var t := s[a..];
    var b := a + |t| - TrailingSpace(t);
    assert Strip(s) == s[a..b];
  }

  lemma StripIsStripOf(s: string)
    ensures IsStripOf(s, Strip(s))
  {
    var a := LeadingSpace(s);
    var t := s[a..];
    var k := TrailingSpace(t);
    var b := |s| - k;
    assert Strip(s) == s[a..b];
    forall i | b <= i < |s|
      ensures IsSpace(s[i])
    {
      assert s[i] == t[i - a];
    }
  }

  predicate IsStripped(s: string) {
    s == [] || (!IsSpace(s[0]) && !IsSpace(s[|s| - 1]))
  }

  lemma StrippedIsFixed(s: string)
    requires IsStripped(s)
    ensures Strip(s) == s
  {
  }

  lemma StripIsStripped(s: string)
    ensures IsStripped(Strip(s))
  {
  }

  /** `strip()` is idempotent. */
  lemma StripIdempotent(s: string)
    ensures Strip(Strip(s)) == Strip(s)
  {
    StripIsStripped(s);
    StrippedIsFixed(Strip(s));
  }

  // ---------------------------------------------------------------- split(sep)

  /** Position of the first `sep` in `s`, or `|s|` when there is none. */
  function IndexOf(s: string, sep: char): (k: nat)
    ensures k <= |s|
    ensures k < |s| ==> s[k] == sep
    ensures forall i :: 0 <= i < k ==> s[i] != sep
  {
    if s == [] then 0 else if s[0] == sep then 0 else 1 + IndexOf(s[1..], sep)
  }

  /** `s.split(sep)` for a one-character separator: the pieces between separators, empty ones included. */
  function Split(s: string, sep: char): (parts: seq<string>)
    ensures |parts| >= 1
    ensures forall i :: 0 <= i < |parts| ==> sep !in parts[i]
    decreases |s|
  {
    var k := IndexOf(s, sep);
    if k == |s| then [s] else [s[..k]] + Split(s[k + 1..], sep)
  }

  /** `sep.join(parts)`. */
  function Join(parts: seq<string>, sep: char): string {
    if parts == [] then []
    else if |parts| == 1 then parts[0]
    else parts[0] + [sep] + Join(parts[1..], sep)
  }

  /** Joining the pieces of a split with the same separator restores the string. */
  lemma {:induction false} JoinSplit(s: string, sep: char)
    ensures Join(Split(s, sep), sep) == s
    decreases |s|
  {
    var k := IndexOf(s, sep);
    if k < |s| {
      JoinSplit(s[k + 1..], sep);
      SplitHead(s, sep);
      JoinAround(s, k, sep, Split(s[k + 1..], sep));
    }
  }

  /** Joining the text before a separator onto pieces that join to the text after it gives the whole. */
  lemma JoinAround(s: string, k: nat, sep: char, parts: seq<string>)
    requires k < |s| && s[k] == sep && parts != []
    requires Join(parts, sep) == s[k + 1..]
    ensures Join([s[..k]] + parts, sep) == s
  {
    JoinCons(s[..k], parts, sep);
    assert s == s[..k] + [s[k]] + s[k + 1..];
  }

  /** A string with a separator splits into the text before it and the split of the text after it. */
  lemma SplitHead(s: string, sep: char)
    requires IndexOf(s, sep) < |s|
    ensures Split(s, sep) == [s[..IndexOf(s, sep)]] + Split(s[IndexOf(s, sep) + 1..], sep)
  {
  }

  lemma JoinCons(a: string, parts: seq<string>, sep: char)
    requires parts != []
    ensures Join([a] + parts, sep) == a + [sep] + Join(parts, sep)
  {
    assert ([a] + parts)[1..] == parts;
  }

  /** Splitting two separator-free pieces joined by the separator gives the two pieces. */
  lemma SplitAround(a: string, sep: char, b: string)
    requires sep !in a && sep !in b
    ensures Split(a + [sep] + b, sep) == [a, b]
  {
    var s := a + [sep] + b;
    assert IndexOf(s, sep) == |a| by {
      assert s[|a|] == sep;
      assert forall i :: 0 <= i < |a| ==> s[i] == a[i];
    }
    assert s[..|a|] == a && s[|a| + 1..] == b;
  }

  /** `s.split(sep)[0]`: the text before the first separator. */
  function BeforeFirst(s: string, sep: char): (r: string)
    ensures sep !in r
    ensures |r| <= |s| && r == s[..|r|] && (|r| < |s| ==> s[|r|] == sep)
  {
    s[..IndexOf(s, sep)]
  }

  /** Everything after the first separator is ignored. */
  lemma BeforeFirstOfJoin(a: string, sep: char, b: string)
    requires sep !in a
    ensures BeforeFirst(a + [sep] + b, sep) == a
  {
    var s := a + [sep] + b;
    var r := BeforeFirst(s, sep);
    assert s[..|a|] == a && s[|a|] == sep;
  }

  /** Text without the separator is kept whole. */
  lemma BeforeFirstAbsent(s: string, sep: char)
    requires sep !in s
    ensures BeforeFirst(s, sep) == s
  {
  }

  lemma BeforeFirstIsFirstPiece(s: string, sep: char)
    ensures BeforeFirst(s, sep) == Split(s, sep)[0]
  {
  }

  // ---------------------------------------------------------------- split()

  /** The number of non-whitespace characters `s` starts with. */
  function WordLength(s: string): (k: nat)
    ensures k <= |s|
    ensures forall i :: 0 <= i < k ==> !IsSpace(s[i])
    ensures k < |s| ==> IsSpace(s[k])
  {
    if s == [] || IsSpace(s[0]) then 0 else 1 + WordLength(s[1..])
  }

  predicate IsWord(w: string) {
    w != [] && forall i :: 0 <= i < |w| ==> !IsSpace(w[i])
  }

  /** `s.split()`: the maximal runs of non-whitespace characters, in order. */
  function Words(s: string): (ws: seq<string>)
    ensures forall i :: 0 <= i < |ws| ==> IsWord(ws[i])
    decreases |s|
  {
    var a := LeadingSpace(s);
    if a == |s| then []
    else
      var t := s[a..];
      var n := WordLength(t);
      [t[..n]] + Words(t[n..])
  }

  /** `" ".join(ws)`. */
  function JoinSpaced(ws: seq<string>): string {
    Join(ws, ' ')
  }

  /** Splitting the space-joined words gives the words back. */
  lemma {:induction false} WordsJoinSpaced(ws: seq<string>)
    requires forall i :: 0 <= i < |ws| ==> IsWord(ws[i])
    ensures Words(JoinSpaced(ws)) == ws
  {
    if |ws| == 1 {
      WordOnly(ws[0], []);
      assert ws[0] + [] == ws[0];
    } else if |ws| > 1 {
      var rest := JoinSpaced(ws[1..]);
      WordsJoinSpaced(ws[1..]);
      assert JoinSpaced(ws) == ws[0] + ([' '] + rest);
      WordOnly(ws[0], [' '] + rest);
      WordsAfterSpace(rest);
      assert ws == [ws[0]] + ws[1..];
    }
  }

  /** A leading blank does not change the words. */
  lemma WordsAfterSpace(rest: string)
    ensures Words([' '] + rest) == Words(rest)
  {
    var s := [' '] + rest;
    assert s[1..] == rest;
    assert LeadingSpace(s) == 1 + LeadingSpace(rest);
    assert s[LeadingSpace(s)..] == rest[LeadingSpace(rest)..];
  }

  /** A word followed by nothing or by whitespace is taken whole, and `Words` continues after it. */
  lemma WordOnly(w: string, t: string)
    requires IsWord(w)
    requires t == [] || IsSpace(t[0])
    ensures Words(w + t) == [w] + Words(t)
  {
    var s := w + t;
    assert s[0] == w[0];
    assert LeadingSpace(s) == 0;
    assert s[0..] == s;
    assert s[..|w|] == w && s[|w|..] == t;
  }

  // ---------------------------------------------------------------- `sub in s`, isdigit

  /** `sub` occurs in `s` starting at position `i`. */
  predicate OccursAt(s: string, sub: string, i: int) {
    0 <= i <= |s| - |sub| && s[i..i + |sub|] == sub
  }

  /** Python's `sub in s` for strings: `sub` occurs somewhere in `s` as a contiguous piece. */
  predicate Contains(s: string, sub: string) {
    exists i | 0 <= i <= |s| - |sub| :: OccursAt(s, sub, i)
  }

  predicate IsDigit(c: char) {
    '0' <= c <= '9'
  }

  /** `s.isdigit()` for ASCII digits: non-empty and every character a digit. */
  predicate IsDigits(s: string) {
    s != [] && forall i :: 0 <= i < |s| ==> IsDigit(s[i])
  }

  /**
   * Python's `str.isdigit` on one character, over Latin-1: the ten ASCII
   * digits and the superscripts one, two and three.
   */
  predicate IsDigitChar(c: char) {
    IsDigit(c) || c == '\U{b9}' || c == '\U{b2}' || c == '\U{b3}'
  }

  /** `s.isdigit()`: non-empty and every character a digit character. */
  predicate IsDigitString(s: string) {
    s != [] && forall i :: 0 <= i < |s| ==> IsDigitChar(s[i])
  }

  /** Decimal value of a string of digits. */
  function DigitsValue(s: string): nat
    requires forall i :: 0 <= i < |s| ==> IsDigit(s[i])
  {
    if s == [] then 0
    else
      assert IsDigit(s[|s| - 1]);
      DigitsValue(s[..|s| - 1]) * 10 + (s[|s| - 1] as int - '0' as int)
  }

  /** `str(n)` for a natural number. */
  function NatToString(n: nat): (s: string)
    ensures IsDigits(s)
    ensures DigitsValue(s) == n
    ensures |s| == 1 || s[0] != '0'
  {
    if n < 10 then [('0' as int + n) as char]
    else
      var p := NatToString(n / 10);
      var s := p + [('0' as int + n % 10) as char];
      assert s[..|s| - 1] == p;
      s
  }

  /** `str(n)` for any integer: a minus sign before a negative number's digits. */
  function IntToString(n: int): string {
    if n >= 0 then NatToString(n) else "-" + NatToString(-n)
  }

  /**
   * Code-point order of two texts, a proper prefix first: Python's `<=` on
   * `str`, and SQLite's comparison of TEXT under its default BINARY collation
   * (UTF-8 bytes compare in code-point order).
   */
  predicate TextLe(a: string, b: string)
    decreases |a|
  {
    a == [] || (b != [] && (a[0] < b[0] || (a[0] == b[0] && TextLe(a[1..], b[1..]))))
  }

  lemma {:induction false} TextLeTotal(a: string, b: string)
    ensures TextLe(a, b) || TextLe(b, a)
    decreases |a|
  {
    if a != [] && b != [] && a[0] == b[0] {
      TextLeTotal(a[1..], b[1..]);
    }
  }

  lemma {:induction false} TextLeTransitive(a: string, b: string, c: string)
    requires TextLe(a, b) && TextLe(b, c)
    ensures TextLe(a, c)
    decreases |a|
  {
    if a != [] && b != [] && c != [] && a[0] == b[0] && b[0] == c[0] {
      TextLeTransitive(a[1..], b[1..], c[1..]);
    }
  }

  lemma {:induction false} TextLeAntisymmetric(a: string, b: string)
    requires TextLe(a, b) && TextLe(b, a)
    ensures a == b
    decreases |a|
  {
    if a != [] {
      TextLeAntisymmetric(a[1..], b[1..]);
      assert a == [a[0]] + a[1..] && b == [b[0]] + b[1..];
    }
  }
}
