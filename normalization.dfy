/**
 * `normalize_string` (src/utils/import_students.py): the text with its
 * accents folded away (NFKD decomposition, then an ASCII encode that drops
 * what it cannot encode), lower-cased and trimmed. Headers, sheet names and
 * course names are compared in this form. The folding is modelled for the
 * Latin-1 range, which holds every letter of Spanish.
 */
module Normalization {
  import opened Text

  predicate IsAscii(s: string) {
    forall i :: 0 <= i < |s| ==> s[i] < '\U{80}'
  }

  /** Each character replaced by a string, in order. */
  function ConcatMap(f: char -> string, s: string): string {
    if s == [] then [] else f(s[0]) + ConcatMap(f, s[1..])
  }

  /** Mapping a concatenation maps each part. */
  lemma {:induction false} ConcatMapAppend(f: char -> string, a: string, b: string)
    ensures ConcatMap(f, a + b) == ConcatMap(f, a) + ConcatMap(f, b)
  {
    if a == [] {
      assert a + b == b;
    } else {
      assert (a + b)[0] == a[0] && (a + b)[1..] == a[1..] + b;
      ConcatMapAppend(f, a[1..], b);
    }
  }

  /** A map that gives ASCII for every character gives ASCII text. */
  lemma {:induction false} ConcatMapAscii(f: char -> string, s: string)
    requires forall c :: IsAscii(f(c))
    ensures IsAscii(ConcatMap(f, s))
  {
    if s != [] {
      ConcatMapAscii(f, s[1..]);
      var x, y := f(s[0]), ConcatMap(f, s[1..]);
      assert forall i :: 0 <= i < |x + y| ==> (x + y)[i] == if i < |x| then x[i] else y[i - |x|];
    }
  }

  /** A map that keeps every character of `s` keeps `s`. */
  lemma {:induction false} ConcatMapKeeps(f: char -> string, s: string)
    requires forall i :: 0 <= i < |s| ==> f(s[i]) == [s[i]]
    ensures ConcatMap(f, s) == s
  {
    if s != [] {
      ConcatMapKeeps(f, s[1..]);
      assert s == [s[0]] + s[1..];
    }
  }

  /**
   * The characters of the Latin-1 range outside ASCII that survive the
   * folding, as ranges with what each character of the range leaves: an
   * accented letter its base letter, `ª` and `º` the letters `a` and `o`,
   * the superscript digits their digit, the vulgar fractions their two
   * digits, the no-break space and the spacing accents a blank. Every other
   * character outside ASCII leaves nothing.
   */
  const LatinFolds: seq<(char, char, string)> := [
    ('\U{a0}', '\U{a0}', " "), ('\U{a8}', '\U{a8}', " "), ('\U{aa}', '\U{aa}', "a"), ('\U{af}', '\U{af}', " "),
    ('\U{b2}', '\U{b2}', "2"), ('\U{b3}', '\U{b3}', "3"), ('\U{b4}', '\U{b4}', " "), ('\U{b8}', '\U{b8}', " "),
    ('\U{b9}', '\U{b9}', "1"), ('\U{ba}', '\U{ba}', "o"), ('\U{bc}', '\U{bc}', "14"), ('\U{bd}', '\U{bd}', "12"),
    ('\U{be}', '\U{be}', "34"),
    ('\U{c0}', '\U{c5}', "A"), ('\U{c7}', '\U{c7}', "C"), ('\U{c8}', '\U{cb}', "E"), ('\U{cc}', '\U{cf}', "I"),
    ('\U{d1}', '\U{d1}', "N"), ('\U{d2}', '\U{d6}', "O"), ('\U{d9}', '\U{dc}', "U"), ('\U{dd}', '\U{dd}', "Y"),
    ('\U{e0}', '\U{e5}', "a"), ('\U{e7}', '\U{e7}', "c"), ('\U{e8}', '\U{eb}', "e"), ('\U{ec}', '\U{ef}', "i"),
    ('\U{f1}', '\U{f1}', "n"), ('\U{f2}', '\U{f6}', "o"), ('\U{f9}', '\U{fc}', "u"), ('\U{fd}', '\U{fd}', "y"),
    ('\U{ff}', '\U{ff}', "y")
  ]

  /** What the first range of `folds` holding `c` leaves of it, or nothing. */
  function FoldBy(c: char, folds: seq<(char, char, string)>): (r: string)
    ensures r == "" || exists i :: 0 <= i < |folds| && folds[i].0 <= c <= folds[i].1 && r == folds[i].2
  {
    if folds == [] then ""
    else if folds[0].0 <= c <= folds[0].1 then folds[0].2
    else FoldBy(c, folds[1..])
  }

  /** Ranges that do not hold `c` are passed over. */
  lemma {:induction false} FoldBySkips(c: char, folds: seq<(char, char, string)>, n: nat)
    requires n < |folds|
    requires forall i :: 0 <= i < n ==> !(folds[i].0 <= c <= folds[i].1)
    requires folds[n].0 <= c <= folds[n].1
    ensures FoldBy(c, folds) == folds[n].2
  {
    if n > 0 {
      assert forall i :: 0 <= i < |folds[1..]| ==> folds[1..][i] == folds[i + 1];
      FoldBySkips(c, folds[1..], n - 1);
    }
  }

  /** The table leaves only ASCII. */
  lemma LatinFoldsAreAscii()
    ensures forall i :: 0 <= i < |LatinFolds| ==> IsAscii(LatinFolds[i].2)
  {
  }

  /** One character of the folding: ASCII is kept, the rest goes through the table. */
  function FoldChar(c: char): string {
    if c < '\U{80}' then [c] else FoldBy(c, LatinFolds)
  }

  lemma FoldCharIsAscii()
    ensures forall c :: IsAscii(FoldChar(c))
  {
    LatinFoldsAreAscii();
  }

  /** `ó`, the accented letter of the import's own column names, folds to `o`. */
  lemma FoldAcuteO()
    ensures FoldChar('\U{f3}') == "o"
  {
    var folds := LatinFolds;
    forall i | 0 <= i < 26 ensures !(folds[i].0 <= '\U{f3}' <= folds[i].1) {
    }
    FoldBySkips('\U{f3}', folds, 26);
  }

  /** `unicodedata.normalize('NFKD', s).encode('ASCII', 'ignore').decode()`. */
  function Fold(s: string): string {
    ConcatMap(FoldChar, s)
  }

  /** Folding leaves only ASCII, and leaves ASCII text as it is. */
  lemma FoldSpec(s: string)
    ensures IsAscii(Fold(s))
    ensures IsAscii(s) ==> Fold(s) == s
  {
    FoldCharIsAscii();
    ConcatMapAscii(FoldChar, s);
    if IsAscii(s) {
      ConcatMapKeeps(FoldChar, s);
    }
  }

  /**
   * `normalize_string`: `""` for empty input, otherwise the folded text
   * lower-cased and trimmed. The result is ASCII, has no capitals and no
   * whitespace at either end.
   */
  function Normalize(s: string): (r: string)
    ensures IsAscii(r) && IsLowered(r) && IsStripped(r)
  {
    if s == "" then ""
    else
      FoldSpec(s);
      NormalForm(Fold(s));
      Strip(ToLower(Fold(s)))
  }

  /** Lower-casing and trimming ASCII text leaves ASCII text with no capitals and no outer whitespace. */
  lemma NormalForm(t: string)
    requires IsAscii(t)
    ensures var r := Strip(ToLower(t)); IsAscii(r) && IsLowered(r) && IsStripped(r)
  {
    var u := ToLower(t);
    LowerKeepsAscii(t);
    LowerIsLowered(t);
    StripIsSlice(u);
    StripIsStripped(u);
    var a, b :| 0 <= a <= b <= |u| && Strip(u) == u[a..b];
    SliceKeepsForm(u, a, b);
  }

  lemma LowerKeepsAscii(t: string)
    requires IsAscii(t)
    ensures IsAscii(ToLower(t))
  {
    var u := ToLower(t);
    forall i | 0 <= i < |u| ensures u[i] < '\U{80}' {
      assert u[i] == Lower(t[i]);
    }
  }

  lemma SliceKeepsForm(u: string, a: int, b: int)
    requires 0 <= a <= b <= |u| && IsAscii(u) && IsLowered(u)
    ensures IsAscii(u[a..b]) && IsLowered(u[a..b])
  {
    assert forall i :: 0 <= i < b - a ==> u[a..b][i] == u[a + i];
  }

  /** Text that is already ASCII, lower-case and trimmed is its own normal form. */
  lemma NormalOfNormal(s: string)
    requires IsAscii(s) && IsLowered(s) && IsStripped(s)
    ensures Normalize(s) == s
  {
    if s != "" {
      FoldSpec(s);
      LoweredIsFixed(s);
      StrippedIsFixed(s);
    }
  }

  /** Normalising twice is normalising once. */
  lemma NormalizeIdempotent(s: string)
    ensures Normalize(Normalize(s)) == Normalize(s)
  {
    NormalOfNormal(Normalize(s));
  }

  /** Folding a single character is folding the character. */
  lemma FoldOne(c: char)
    ensures Fold([c]) == FoldChar(c)
  {
    assert [c][0] == c && [c][1..] == [];
    assert ConcatMap(FoldChar, [c]) == FoldChar(c) + ConcatMap(FoldChar, []);
    assert FoldChar(c) + [] == FoldChar(c);
  }

  /** A text with one `ó` among ASCII folds to its spelling with a bare `o`. */
  lemma FoldOneAcuteO(pre: string, post: string)
    requires IsAscii(pre) && IsAscii(post)
    ensures Fold(pre + ['\U{f3}'] + post) == pre + ['o'] + post
  {
    ConcatMapAppend(FoldChar, pre + ['\U{f3}'], post);
    ConcatMapAppend(FoldChar, pre, ['\U{f3}']);
    FoldSpec(pre);
    FoldSpec(post);
    FoldOne('\U{f3}');
    FoldAcuteO();
  }

  /** ... and so normalises as that spelling does. */
  lemma NormalizeOneAcuteO(pre: string, post: string)
    requires IsAscii(pre) && IsAscii(post) && pre != []
    ensures Normalize(pre + ['\U{f3}'] + post) == Normalize(pre + ['o'] + post)
  {
    var plain := pre + ['o'] + post;
    FoldOneAcuteO(pre, post);
    assert IsAscii(plain) by {
      assert forall i :: 0 <= i < |plain| ==> plain[i] == if i < |pre| then pre[i] else if i == |pre| then 'o' else post[i - |pre| - 1];
    }
    FoldSpec(plain);
  }

  /** A column name spelt with one `ó` between lower-case ASCII words normalises to its bare spelling. */
  lemma AccentedName(pre: string, post: string)
    requires pre != [] && post != [] && IsAscii(pre) && IsAscii(post) && IsLowered(pre) && IsLowered(post)
    requires !IsSpace(pre[0]) && !IsSpace(post[|post| - 1])
    ensures Normalize(pre + ['\U{f3}'] + post) == pre + ['o'] + post
  {
    NormalizeOneAcuteO(pre, post);
    BareSpellingIsNormal(pre, post);
    NormalOfNormal(pre + ['o'] + post);
  }

  lemma BareSpellingIsNormal(pre: string, post: string)
    requires pre != [] && post != [] && IsAscii(pre) && IsAscii(post) && IsLowered(pre) && IsLowered(post)
    requires !IsSpace(pre[0]) && !IsSpace(post[|post| - 1])
    ensures var plain := pre + ['o'] + post; IsAscii(plain) && IsLowered(plain) && IsStripped(plain)
  {
    var plain := pre + ['o'] + post;
    assert forall i :: 0 <= i < |plain| ==> plain[i] == if i < |pre| then pre[i] else if i == |pre| then 'o' else post[i - |pre| - 1];
  }
}
