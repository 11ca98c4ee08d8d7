/** `InfoExtractor.extract_phone` (main.py:230-254): `re.search` of the
    pattern `\b1[3-9]\d{9}\b`, a mainland-China mobile number. */
module Phone {
  import opened Text

  /** The shape of a mobile number: `1`, a digit from 3 to 9, nine digits. */
  predicate IsMobileNumber(r: seq<char>)
  {
    |r| == 11 && r[0] == '1' && '3' <= r[1] <= '9' &&
    forall k | 2 <= k < 11 :: IsDigit(r[k])
  }

  /** The pattern matches at index `p`. The pattern has a fixed length, so
      a match at `p` is `s[p..p + 11]`. The first `\b` sits before a `1`,
      a word character, so it holds when nothing or a non-word character
      precedes; the last sits after a digit, so it holds when nothing or a
      non-word character follows. */
  predicate PhoneAt(s: seq<char>, p: nat)
  {
    && p + 11 <= |s|
    && IsMobileNumber(s[p..p + 11])
    && (p == 0 || !IsWordChar(s[p - 1]))
    && (p + 11 == |s| || !IsWordChar(s[p + 11]))
  }

  /** `re.search`: the leftmost index where the pattern matches. */
  function FindPhone(s: seq<char>): (r: Option<nat>)
    ensures r.Some? ==> PhoneAt(s, r.value)
    ensures r.Some? ==> forall q: nat | q < r.value :: !PhoneAt(s, q)
    ensures r.None? ==> forall q: nat :: !PhoneAt(s, q)
  {
    var m := (q: nat) => PhoneAt(s, q);
    assert forall q: nat :: m(q) == PhoneAt(s, q);
    Leftmost(0, |s|, m)
  }

  /** `extract_phone`: nothing for the empty text, otherwise the text of
      the leftmost match. */
  function ExtractPhone(text: seq<char>): (r: Option<seq<char>>)
    ensures text == [] ==> r == None
    ensures r.None? <==> forall p: nat :: !PhoneAt(text, p)
    ensures r.Some? ==> IsMobileNumber(r.value) && IsSubstring(r.value, text)
    ensures forall p: nat | PhoneAt(text, p) && (forall q: nat | q < p :: !PhoneAt(text, q)) ::
      r == Some(text[p..p + 11])
  {
    if text == [] then None
    else
      match FindPhone(text)
      case None => None
      case Some(p) =>
        assert Occurs(text[p..p + 11], text, p);
        Some(text[p..p + 11])
  }

  /** A text without a single digit holds no phone number. */
  lemma NoDigitNoPhone(text: seq<char>)
    requires forall i | 0 <= i < |text| :: !IsDigit(text[i])
    ensures ExtractPhone(text) == None
  {
    forall p: nat | p + 11 <= |text|
      ensures !PhoneAt(text, p)
    {
      assert !IsDigit(text[p + 2]);
      assert text[p..p + 11][2] == text[p + 2];
    }
  }

  /** A number glued to a preceding Han character or letter is not found
      there: `\b` fails between two word characters. */
  lemma NoMatchAfterWordChar(s: seq<char>, p: nat)
    requires 0 < p < |s| && IsWordChar(s[p - 1])
    ensures !PhoneAt(s, p)
  {
  }

  /** When the text holds a number at `p`, the result is a number that
      starts at or before `p`. */
  lemma PhoneIsLeftmost(text: seq<char>, p: nat)
    requires PhoneAt(text, p)
    ensures ExtractPhone(text).Some?
    ensures exists q: nat | q <= p :: PhoneAt(text, q) && ExtractPhone(text) == Some(text[q..q + 11])
  {
    var f := FindPhone(text);
    assert f.Some? && f.value <= p;
  }
}
