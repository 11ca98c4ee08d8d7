/** `InfoExtractor.extract_email` (main.py:256-283): `re.search` of the
    pattern `[a-zA-Z0-9._%+-]+@[a-zA-Z0-9.-]+\.[a-zA-Z]{2,}`. */
module Email {
  import opened Text

  /** `[a-zA-Z0-9._%+-]`, the characters of the part before `@`. */
  predicate IsLocalChar(c: char)
  {
    IsAsciiLetter(c) || IsDigit(c) || c == '.' || c == '_' || c == '%' || c == '+' || c == '-'
  }

  /** `[a-zA-Z0-9.-]`, the characters of the domain. */
  predicate IsDomainChar(c: char)
  {
    IsAsciiLetter(c) || IsDigit(c) || c == '.' || c == '-'
  }

  /** `s[p..e]` is a word of the pattern's language, split as
      local part `s[p..a]`, `@` at `a`, domain `s[a + 1..d]`, `.` at `d`
      and top-level label `s[d + 1..e]`. */
  predicate EmailShapeAt(s: seq<char>, p: nat, a: nat, d: nat, e: nat)
  {
    && p < a && a + 1 < d && d + 2 < e && e <= |s|
    && (forall k | p <= k < a :: IsLocalChar(s[k]))
    && s[a] == '@'
    && (forall k | a < k < d :: IsDomainChar(s[k]))
    && s[d] == '.'
    && (forall k | d < k < e :: IsAsciiLetter(s[k]))
  }

  /** A whole string of the pattern's language. */
  predicate IsEmailAddress(r: seq<char>)
  {
    exists a: nat, d: nat | a <= |r| && d <= |r| :: EmailShapeAt(r, 0, a, d, |r|)
  }

  /** Where the match that starts at some index puts its `@`, its last
      `.` and its end. */
  datatype EmailSpan = EmailSpan(at: nat, dot: nat, end: nat)

  /** A `.` at `d` followed by at least two letters: a place where
      `\.[a-zA-Z]{2,}` can match. */
  predicate TldAt(s: seq<char>, d: nat)
  {
    d + 1 <= |s| && s[d] == '.' && Run(s, d + 1, IsAsciiLetter) >= 2
  }

  /** The backtracking of the greedy `[a-zA-Z0-9.-]+` that starts after
      `lo` and runs up to `hi`: the largest `d` with `lo < d < hi` at which
      `\.[a-zA-Z]{2,}` matches, tried from the longest domain down. */
  function LastTld(s: seq<char>, lo: nat, hi: nat): (r: Option<nat>)
    requires hi <= |s|
    ensures r.Some? ==> lo < r.value < hi && TldAt(s, r.value)
    ensures r.Some? ==> forall d | r.value < d < hi :: !TldAt(s, d)
    ensures r.None? ==> forall d | lo < d < hi :: !TldAt(s, d)
    decreases hi
  {
    if hi <= lo + 1 then None
    else if TldAt(s, hi - 1) then Some(hi - 1)
    else LastTld(s, lo, hi - 1)
  }

  /** The part of the pattern after an `@` at index `a`. The greedy
      domain is the longest run of domain characters, given back one
      character at a time until a `.` with two or more letters after it
      follows; the letters are then taken greedily. */
  function DomainMatch(s: seq<char>, a: nat): (r: Option<EmailSpan>)
    requires a < |s|
    ensures r.Some? ==> var m := r.value;
      && m.at == a && a + 1 < m.dot && m.dot + 2 < m.end <= |s|
      && (forall k | a < k < m.dot :: IsDomainChar(s[k]))
      && s[m.dot] == '.'
      && (forall k | m.dot < k < m.end :: IsAsciiLetter(s[k]))
      && (m.end == |s| || !IsAsciiLetter(s[m.end]))
  {
    var hi := a + 1 + Run(s, a + 1, IsDomainChar);
    match LastTld(s, a + 1, hi)
    case None => None
    case Some(d) => Some(EmailSpan(a, d, d + 1 + Run(s, d + 1, IsAsciiLetter)))
  }

  /** The match of the pattern that starts at `p`, if there is one. The
      greedy local part can only give back characters to reach an `@`, and
      `@` is not one of its characters, so it is the whole run of local
      characters from `p`. */
  function EmailMatchAt(s: seq<char>, p: nat): (r: Option<EmailSpan>)
    requires p <= |s|
    ensures r.Some? ==> EmailShapeAt(s, p, r.value.at, r.value.dot, r.value.end)
    ensures r.Some? ==> r.value.end == |s| || !IsAsciiLetter(s[r.value.end])
  {
    var a := p + Run(s, p, IsLocalChar);
    if a == p || a == |s| || s[a] != '@' then None
    else DomainMatch(s, a)
  }

  /** In a word of the language the run of local characters from `p`
      stops at the `@`, the run of domain characters after the `@` reaches
      the end of the word, and so does the run of letters after the dot. */
  lemma ShapeRuns(s: seq<char>, p: nat, a: nat, d: nat, e: nat)
    requires p <= |s|
    requires EmailShapeAt(s, p, a, d, e)
    ensures p + Run(s, p, IsLocalChar) == a
    ensures a + 1 + Run(s, a + 1, IsDomainChar) >= e
    ensures TldAt(s, d)
    ensures d + 1 + Run(s, d + 1, IsAsciiLetter) >= e
  {
    RunStopsAt(s, p, IsLocalChar, a);
    forall k | a + 1 <= k < e
      ensures IsDomainChar(s[k])
    {
    }
    RunCovers(s, a + 1, IsDomainChar, e);
    RunCovers(s, d + 1, IsAsciiLetter, e);
  }

  /** After an `@` at `a`, the domain part matches whenever a domain, a
      dot at `d` and letters up to `e` follow, and its match reaches at
      least `e`. */
  lemma DomainMatchComplete(s: seq<char>, a: nat, d: nat, e: nat)
    requires a < |s|
    requires a + 1 + Run(s, a + 1, IsDomainChar) >= e
    requires a + 1 < d && d + 2 < e && e <= |s|
    requires TldAt(s, d)
    requires forall k | d < k < e :: IsAsciiLetter(s[k])
    ensures DomainMatch(s, a).Some? && e <= DomainMatch(s, a).value.end
  {
    var hi := a + 1 + Run(s, a + 1, IsDomainChar);
    var r := LastTld(s, a + 1, hi);
    assert r.Some? && d <= r.value;
    var d' := r.value;
    if d < d' {
      assert !IsAsciiLetter(s[d']);
    } else {
      RunCovers(s, d + 1, IsAsciiLetter, e);
    }
  }

  /** The matcher finds a match at `p` whenever the language has a word
      starting at `p`, and the match it finds is the longest such word. */
  lemma EmailMatchComplete(s: seq<char>, p: nat, a: nat, d: nat, e: nat)
    requires p <= |s|
    requires EmailShapeAt(s, p, a, d, e)
    ensures EmailMatchAt(s, p).Some?
    ensures e <= EmailMatchAt(s, p).value.end
  {
    ShapeRuns(s, p, a, d, e);
    DomainMatchComplete(s, a, d, e);
  }

  predicate EmailMatches(s: seq<char>, q: nat)
  {
    q <= |s| && EmailMatchAt(s, q).Some?
  }

  /** `re.search`: the leftmost index where the pattern matches. */
  function FindEmail(s: seq<char>): (r: Option<nat>)
    ensures r.Some? ==> r.value <= |s| && EmailMatchAt(s, r.value).Some?
    ensures r.Some? ==> forall q: nat | q < r.value :: !EmailMatches(s, q)
    ensures r.None? ==> forall q: nat | q <= |s| :: !EmailMatches(s, q)
  {
    var m := (q: nat) => EmailMatches(s, q);
    assert forall q: nat :: m(q) == EmailMatches(s, q);
    Leftmost(0, |s|, m)
  }

  /** `extract_email`: nothing for the empty text, otherwise the text of
      the leftmost match. */
  function ExtractEmail(text: seq<char>): (r: Option<seq<char>>)
    ensures text == [] ==> r == None
    ensures r.Some? ==> IsSubstring(r.value, text)
  {
    if text == [] then None
    else
      match FindEmail(text)
      case None => None
      case Some(p) =>
        var span := EmailMatchAt(text, p).value;
        assert Occurs(text[p..span.end], text, p);
        Some(text[p..span.end])
  }

  lemma ShiftShape(s: seq<char>, p: nat, a: nat, d: nat, e: nat)
    requires EmailShapeAt(s, p, a, d, e)
    ensures EmailShapeAt(s[p..e], 0, a - p, d - p, e - p)
  {
  }

  /** `extract_email` returns nothing exactly when no substring of the
      text is an address. */
  lemma ExtractEmailNone(text: seq<char>)
    ensures ExtractEmail(text).None? <==>
      forall p: nat, a: nat, d: nat, e: nat :: !EmailShapeAt(text, p, a, d, e)
  {
    forall p: nat, a: nat, d: nat, e: nat | EmailShapeAt(text, p, a, d, e)
      ensures ExtractEmail(text).Some?
    {
      EmailMatchComplete(text, p, a, d, e);
      assert EmailMatches(text, p);
    }
    match FindEmail(text)
    case None =>
    case Some(p) =>
      var span := EmailMatchAt(text, p).value;
      assert EmailShapeAt(text, p, span.at, span.dot, span.end);
  }

  /** No address of the text starts before index `p`. */
  ghost predicate NoAddressBefore(text: seq<char>, p: nat)
  {
    forall q: nat, a: nat, d: nat, e: nat | q < p :: !EmailShapeAt(text, q, a, d, e)
  }

  /** No address that starts at `p` is longer than `len`. */
  ghost predicate NoLongerAt(text: seq<char>, p: nat, len: nat)
  {
    forall a: nat, d: nat, e: nat | EmailShapeAt(text, p, a, d, e) :: e - p <= len
  }

  lemma FindEmailFirst(text: seq<char>)
    requires FindEmail(text).Some?
    ensures NoAddressBefore(text, FindEmail(text).value)
    ensures NoLongerAt(text, FindEmail(text).value,
                       EmailMatchAt(text, FindEmail(text).value).value.end - FindEmail(text).value)
  {
    var p := FindEmail(text).value;
    var span := EmailMatchAt(text, p).value;
    forall q: nat, a: nat, d: nat, e: nat | q < p
      ensures !EmailShapeAt(text, q, a, d, e)
    {
      if EmailShapeAt(text, q, a, d, e) {
        EmailMatchComplete(text, q, a, d, e);
        assert EmailMatches(text, q);
        assert false;
      }
    }
    forall a: nat, d: nat, e: nat | EmailShapeAt(text, p, a, d, e)
      ensures e - p <= span.end - p
    {
      EmailMatchComplete(text, p, a, d, e);
    }
  }

  /** The text of a match is an address. */
  lemma MatchIsAddress(text: seq<char>, p: nat)
    requires EmailMatches(text, p)
    ensures IsEmailAddress(text[p..EmailMatchAt(text, p).value.end])
  {
    var span := EmailMatchAt(text, p).value;
    ShiftShape(text, p, span.at, span.dot, span.end);
    var r := text[p..span.end];
    assert EmailShapeAt(r, 0, span.at - p, span.dot - p, |r|);
  }

  /** A result of `extract_email` is the text of the match found by the
      leftmost search. */
  lemma ExtractEmailText(text: seq<char>)
    requires ExtractEmail(text).Some?
    ensures FindEmail(text).Some?
    ensures ExtractEmail(text).value == text[FindEmail(text).value..EmailMatchAt(text, FindEmail(text).value).value.end]
  {
  }

  /** `r` is an address that occurs in the text at `p`, no address starts
      before `p`, and no address that starts at `p` is longer than `r`. */
  ghost predicate FirstAddressAt(text: seq<char>, r: seq<char>, p: nat)
  {
    && Occurs(r, text, p)
    && IsEmailAddress(r)
    && NoAddressBefore(text, p)
    && NoLongerAt(text, p, |r|)
  }

  /** A result of `extract_email` is the first address of the text, and
      the longest one that starts where it starts; it need not be the
      longest address in the text. */
  lemma ExtractEmailFirst(text: seq<char>)
    requires ExtractEmail(text).Some?
    ensures exists p: nat | p <= |text| :: FirstAddressAt(text, ExtractEmail(text).value, p)
  {
    ExtractEmailText(text);
    var p := FindEmail(text).value;
    var r := text[p..EmailMatchAt(text, p).value.end];
    MatchIsAddress(text, p);
    FindEmailFirst(text);
    assert Occurs(r, text, p);
    assert FirstAddressAt(text, r, p);
  }
}
