/** The name filter `InfoExtractor._is_valid_name` and the constant set
    `common_title_words` it consults (main.py:212-228, main.py:370-408). */
module NameValidation {
  import opened Text

  /** Section headings and job-title words that are never taken for a
      person's name. The set is built once in `__init__` and never changed. */
  const CommonTitleWords: set<seq<char>> := {
    "个人简历",
    "求职简历",
    "简历",
    "个人信息",
    "基本信息",
    "求职意向",
    "工作经历",
    "教育经历",
    "项目经验",
    "自我评价",
    "技能特长",
    "联系方式",
    "应聘岗位",
    "期望职位",
    "个人资料"
  }

  /** `_is_valid_name`, check by check in the order of the source: the
      empty string is rejected, the candidate is stripped, its length must
      be 2 to 4, it must not be a title word, it must hold no digit and it
      must match `^[一-鿿]+$` (the stripped text has no trailing newline,
      so `$` can only match at its end). */
  predicate IsValidName(candidate: seq<char>)
  {
    if candidate == [] then false
    else
      var t := Strip(candidate);
      if |t| < 2 || |t| > 4 then false
      else if t in CommonTitleWords then false
      else if HasDigit(t) then false
      else if !(|t| >= 1 && AllHan(t)) then false
      else true
  }

  /** A Han character is never a digit, so the digit check adds nothing to
      the Han-only check. */
  lemma HanHasNoDigit(t: seq<char>)
    requires AllHan(t)
    ensures !HasDigit(t)
  {
  }

  /** `_is_valid_name` holds exactly when the stripped candidate has 2 to 4
      characters, all in the Han range, and is not a title word. */
  lemma ValidNameIff(candidate: seq<char>)
    ensures IsValidName(candidate) <==>
      (var t := Strip(candidate);
       2 <= |t| <= 4 && t !in CommonTitleWords && AllHan(t))
  {
    var t := Strip(candidate);
    if AllHan(t) {
      HanHasNoDigit(t);
    }
    if candidate == [] {
      assert |t| == 0;
    }
  }

  lemma EmptyIsNotValid()
    ensures !IsValidName([])
  {
  }

  /** All fifteen title words consist of Han characters only, and none of
      them is accepted as a name. */
  lemma TitleWordsAreNotNames(w: seq<char>)
    requires w in CommonTitleWords
    ensures AllHan(w) && 2 <= |w| <= 4
    ensures !IsValidName(w)
  {
    assert AllHan(w) && 2 <= |w| <= 4;
    StripNoSpace(w);
  }

  /** Any 2 to 4 Han characters that do not form a title word make a
      valid name. */
  lemma HanNonTitleIsValid(n: seq<char>)
    requires 2 <= |n| <= 4 && AllHan(n) && n !in CommonTitleWords
    ensures IsValidName(n)
  {
    StripNoSpace(n);
    ValidNameIff(n);
  }

  /** A candidate that contains a digit or a Latin letter anywhere is
      rejected: stripping removes only whitespace, so that character stays
      in the stripped text and is not Han. */
  lemma DigitOrLatinIsNotValid(candidate: seq<char>, i: nat)
    requires i < |candidate|
    requires IsDigit(candidate[i]) || IsAsciiLetter(candidate[i])
    ensures !IsValidName(candidate)
  {
    StripKeeps(candidate, i);
    ValidNameIff(candidate);
    var t := Strip(candidate);
    assert !IsHan(t[i - LeadingSpaces(candidate)]);
  }

  /** A valid name, once stripped, is a string of 2 to 4 Han characters
      other than a title word; [CleanName] is that statement for a
      candidate that is already stripped. */
  lemma CleanName(n: seq<char>)
    requires IsValidName(n) && Strip(n) == n
    ensures 2 <= |n| <= 4 && AllHan(n) && n !in CommonTitleWords
    ensures forall i | 0 <= i < |n| :: !IsSpace(n[i])
  {
    ValidNameIff(n);
  }
}
