/** Character classes and string helpers shared by the extractors of
    main.py: the regex classes `\s`, `\d`, `\w` and the Han range, the
    `str.strip()` of Python, and maximal runs (what a greedy `+` or `*`
    over one character class consumes). */
module Text {

  datatype Option<T> = None | Some(value: T)

  function Min(x: nat, y: nat): nat
  {
    if x <= y then x else y
  }

  /** The range `[一-鿿]` of main.py:359 and main.py:405. */
  predicate IsHan(c: char)
  {
    '\U{4E00}' <= c <= '\U{9FFF}'
  }

  /** The characters Python treats as whitespace, both for `\s` in a str
      pattern and for `str.strip()` with no argument (the two use the same
      table): the ASCII controls TAB..CR and FS..US, SPACE, NEL, NBSP,
      OGHAM SPACE MARK, EN QUAD..HAIR SPACE, LINE and PARAGRAPH SEPARATOR,
      NARROW NBSP, MEDIUM MATHEMATICAL SPACE and IDEOGRAPHIC SPACE. */
  predicate IsSpace(c: char)
  {
    || '\U{9}' <= c <= '\U{D}'
    || '\U{1C}' <= c <= '\U{20}'
    || c == '\U{85}' || c == '\U{A0}' || c == '\U{1680}'
    || '\U{2000}' <= c <= '\U{200A}'
    || c == '\U{2028}' || c == '\U{2029}' || c == '\U{202F}'
    || c == '\U{205F}' || c == '\U{3000}'
  }

  /** Whitespace is never a word character, so `\b` holds between a word
      character and whitespace, and a Han run stops at whitespace. */
  lemma SpaceIsNotWordChar(c: char)
    requires IsSpace(c)
    ensures !IsWordChar(c) && !IsHan(c) && !IsDigit(c)
  {
  }

  predicate IsNonSpace(c: char)
  {
    !IsSpace(c)
  }

  /** `\d`, restricted to the ASCII digits. */
  predicate IsDigit(c: char)
  {
    '0' <= c <= '9'
  }

  predicate IsAsciiLetter(c: char)
  {
    'a' <= c <= 'z' || 'A' <= c <= 'Z'
  }

  /** `\w` as `\b` sees it: ASCII letters and digits, the underscore and
      the Han range. */
  predicate IsWordChar(c: char)
  {
    IsAsciiLetter(c) || IsDigit(c) || c == '_' || IsHan(c)
  }

  /** Case folding as `re.IGNORECASE` applies it to ASCII letters. */
  function FoldCase(c: char): (r: char)
    ensures IsAsciiLetter(c) ==> 'a' <= r <= 'z'
    ensures !IsAsciiLetter(c) ==> r == c
  {
    if 'A' <= c <= 'Z' then (c as int + 32) as char else c
  }

  predicate EqualsIgnoreCase(a: seq<char>, b: seq<char>)
  {
    |a| == |b| && forall i | 0 <= i < |a| :: FoldCase(a[i]) == FoldCase(b[i])
  }

  predicate AllHan(s: seq<char>)
  {
    forall i | 0 <= i < |s| :: IsHan(s[i])
  }

  predicate HasDigit(s: seq<char>)
  {
    exists i | 0 <= i < |s| :: IsDigit(s[i])
  }

  /** `r` occurs in `s` at index `i`. */
  predicate Occurs(r: seq<char>, s: seq<char>, i: nat)
  {
    i + |r| <= |s| && s[i..i + |r|] == r
  }

  predicate IsSubstring(r: seq<char>, s: seq<char>)
  {
    exists i: nat | i <= |s| :: Occurs(r, s, i)
  }

  /** `s[:n]` in Python: the first `n` characters, or all of `s`. */
  function Prefix(s: seq<char>, n: nat): (r: seq<char>)
    ensures |r| == Min(|s|, n)
    ensures Occurs(r, s, 0)
  {
    if |s| <= n then s else s[..n]
  }

  /** The smallest index `q` with `from <= q <= last` for which `m(q)`
      holds: the start that `re.search` settles on when `m(q)` says that
      its pattern matches at `q`. */
  function Leftmost(from: nat, last: nat, m: nat -> bool): (r: Option<nat>)
    ensures r.Some? ==> from <= r.value <= last && m(r.value)
    ensures r.Some? ==> forall q | from <= q < r.value :: !m(q)
    ensures r.None? ==> forall q | from <= q <= last :: !m(q)
    decreases last + 1 - from
  {
    if from > last then None
    else if m(from) then Some(from)
    else Leftmost(from + 1, last, m)
  }

  /** Number of characters from index `i` that satisfy `p`: what a greedy
      `[class]*` starting at `i` consumes. */
  function Run(s: seq<char>, i: nat, p: char -> bool): (n: nat)
    requires i <= |s|
    ensures i + n <= |s|
    ensures forall k | i <= k < i + n :: p(s[k])
    ensures i + n == |s| || !p(s[i + n])
    decreases |s| - i
  {
    if i == |s| || !p(s[i]) then 0 else 1 + Run(s, i + 1, p)
  }

  /** A run is at least as long as any stretch of characters satisfying `p`. */
  lemma RunCovers(s: seq<char>, i: nat, p: char -> bool, j: nat)
    requires i <= j <= |s|
    requires forall k | i <= k < j :: p(s[k])
    ensures i + Run(s, i, p) >= j
  {
  }

  /** A run ends exactly at the first character that fails `p`. */
  lemma RunStopsAt(s: seq<char>, i: nat, p: char -> bool, j: nat)
    requires i <= j < |s|
    requires forall k | i <= k < j :: p(s[k])
    requires !p(s[j])
    ensures Run(s, i, p) == j - i
  {
    RunCovers(s, i, p, j);
  }

  function LeadingSpaces(s: seq<char>): (n: nat)
    ensures n <= |s|
    ensures forall i | 0 <= i < n :: IsSpace(s[i])
    ensures n == |s| || !IsSpace(s[n])
  {
    Run(s, 0, IsSpace)
  }

  function TrailingSpaces(s: seq<char>): (n: nat)
    ensures n <= |s|
    ensures forall i | |s| - n <= i < |s| :: IsSpace(s[i])
    ensures n == |s| || !IsSpace(s[|s| - 1 - n])
  {
    if s == [] || !IsSpace(s[|s| - 1]) then 0 else 1 + TrailingSpaces(s[..|s| - 1])
  }

  /** Python's `str.strip()`: `s` without its leading and trailing
      whitespace. The result is the piece of `s` that starts at its first
      non-space character and ends at its last one. */
  function Strip(s: seq<char>): (r: seq<char>)
    ensures |r| <= |s|
    ensures Occurs(r, s, LeadingSpaces(s))
    ensures forall i | 0 <= i < |s| && (i < LeadingSpaces(s) || i >= LeadingSpaces(s) + |r|) :: IsSpace(s[i])
    ensures r != [] ==> !IsSpace(r[0]) && !IsSpace(r[|r| - 1])
    ensures r == [] <==> forall i | 0 <= i < |s| :: IsSpace(s[i])
  {
    var lead := LeadingSpaces(s);
    if lead == |s| then []
    else
      var trail := TrailingSpaces(s);
      assert !IsSpace(s[lead]);
      s[lead..|s| - trail]
  }

  /** A string with no whitespace in it is left unchanged by `Strip`. */
  lemma {:induction false} StripNoSpace(s: seq<char>)
    requires forall i | 0 <= i < |s| :: !IsSpace(s[i])
    ensures Strip(s) == s
  {
    if s != [] {
      assert !IsSpace(s[0]);
      assert LeadingSpaces(s) == 0;
      assert !IsSpace(s[|s| - 1]);
      assert TrailingSpaces(s) == 0;
    }
  }

  /** Every non-space character of `s` survives `Strip`, at the same
      offset from the first non-space character. */
  lemma StripKeeps(s: seq<char>, i: nat)
    requires i < |s| && !IsSpace(s[i])
    ensures LeadingSpaces(s) <= i < LeadingSpaces(s) + |Strip(s)|
    ensures Strip(s)[i - LeadingSpaces(s)] == s[i]
  {
  }

  lemma OccursTransitive(r: seq<char>, s: seq<char>, t: seq<char>, i: nat, j: nat)
    requires Occurs(r, s, i) && Occurs(s, t, j)
    ensures Occurs(r, t, i + j)
  {
    forall k | 0 <= k < |r|
      ensures t[i + j + k] == r[k]
    {
      assert t[j + (i + k)] == s[i + k];
    }
  }
}
