/** The inputs of the test scripts, with what the model says the
    extractors return on them. */
module ExtractorExamples {
  import opened Text
  import opened Phone
  import opened Email

  /** test_extraction.py:33: a number after a full-width colon, which is
      not a word character, is found. */
  lemma PhoneAfterColon()
    ensures ExtractPhone("电话：13812345678") == Some("13812345678")
  {
    var s := "电话：13812345678";
    assert s[3..14] == "13812345678";
    assert IsMobileNumber(s[3..14]);
    assert !IsWordChar(s[2]);
    assert PhoneAt(s, 3);
    assert !PhoneAt(s, 0) && !PhoneAt(s, 1) && !PhoneAt(s, 2);
  }

  /** The same number glued to a Han character is not found: `\b` fails
      between two word characters. */
  lemma PhoneGluedToHan()
    ensures ExtractPhone("电话13812345678") == None
  {
    var s := "电话13812345678";
    forall p: nat
      ensures !PhoneAt(s, p)
    {
      if p == 2 {
        assert IsWordChar(s[1]);
      } else if p < 2 {
        assert s[p] != '1';
        assert s[p..p + 11][0] == s[p];
      }
    }
  }

  /** No match at `p` when the character there is not `1`. */
  lemma NotOneNoPhone(s: seq<char>, p: nat)
    requires p + 11 <= |s| && s[p] != '1'
    ensures !PhoneAt(s, p)
  {
    assert s[p..p + 11][0] == s[p];
  }

  /** No match at `p` when one of the nine trailing places is not a digit. */
  lemma GapNoPhone(s: seq<char>, p: nat, i: nat)
    requires 2 <= i < 11 && p + 11 <= |s| && !IsDigit(s[p + i])
    ensures !PhoneAt(s, p)
  {
    assert s[p..p + 11][i] == s[p + i];
  }

  /** test_extraction.py:34: a number split by dashes is not found. */
  lemma PhoneWithDashes()
    ensures ExtractPhone("(+86) 159-2842-3292") == None
  {
    var s := "(+86) 159-2842-3292";
    forall p: nat
      ensures !PhoneAt(s, p)
    {
      if p + 11 <= |s| {
        if p == 6 {
          GapNoPhone(s, p, 3);
        } else {
          NotOneNoPhone(s, p);
        }
      }
    }
  }

  /** test_extraction.py:35: a number split by spaces is not found. */
  lemma PhoneWithSpaces()
    ensures ExtractPhone("手机：138 1234 5678") == None
  {
    var s := "手机：138 1234 5678";
    forall p: nat
      ensures !PhoneAt(s, p)
    {
      if p + 11 <= |s| {
        if p == 3 {
          GapNoPhone(s, p, 3);
        } else {
          NotOneNoPhone(s, p);
        }
      }
    }
  }

  /** test_extraction.py:36. */
  lemma PhoneAfterLabel()
    ensures ExtractPhone("联系方式：15912345678") == Some("15912345678")
  {
    var s := "联系方式：15912345678";
    assert s[5..16] == "15912345678";
    assert PhoneAt(s, 5);
    forall q: nat | q < 5
      ensures !PhoneAt(s, q)
    {
      assert s[q..q + 11][0] == s[q] != '1';
    }
  }

  /** The text of test_extraction.py:52. */
  const TwoAddresses: seq<char> := "联系邮箱：5@163.com gsm2832954437@163.com"

  lemma TwoAddressesLocalRun()
    ensures Run(TwoAddresses, 5, IsLocalChar) == 1
  {
    assert TwoAddresses[5] == '5' && TwoAddresses[6] == '@';
    RunStopsAt(TwoAddresses, 5, IsLocalChar, 6);
  }

  lemma TwoAddressesDomainRun()
    ensures Run(TwoAddresses, 7, IsDomainChar) == 7
  {
    var s := TwoAddresses;
    assert s[7] == '1' && s[8] == '6' && s[9] == '3' && s[10] == '.';
    assert s[11] == 'c' && s[12] == 'o' && s[13] == 'm' && s[14] == ' ';
    RunStopsAt(s, 7, IsDomainChar, 14);
  }

  lemma TwoAddressesLetterRun()
    ensures Run(TwoAddresses, 11, IsAsciiLetter) == 3
  {
    var s := TwoAddresses;
    assert s[11] == 'c' && s[12] == 'o' && s[13] == 'm' && s[14] == ' ';
    RunStopsAt(s, 11, IsAsciiLetter, 14);
  }

  lemma TwoAddressesRuns()
    ensures Run(TwoAddresses, 5, IsLocalChar) == 1
    ensures Run(TwoAddresses, 7, IsDomainChar) == 7
    ensures Run(TwoAddresses, 11, IsAsciiLetter) == 3
  {
    TwoAddressesLocalRun();
    TwoAddressesDomainRun();
    TwoAddressesLetterRun();
  }

  lemma TwoAddressesTld()
    ensures LastTld(TwoAddresses, 7, 14) == Some(10)
  {
    var s := TwoAddresses;
    TwoAddressesRuns();
    assert s[10] == '.' && s[11] == 'c' && s[12] == 'o' && s[13] == 'm';
    assert TldAt(s, 10);
    assert !TldAt(s, 11) && !TldAt(s, 12) && !TldAt(s, 13);
    assert LastTld(s, 7, 11) == Some(10);
  }

  lemma TwoAddressesFirstMatch()
    ensures EmailMatchAt(TwoAddresses, 5) == Some(EmailSpan(6, 10, 14))
  {
    TwoAddressesRuns();
    TwoAddressesTld();
    assert TwoAddresses[6] == '@';
  }

  lemma TwoAddressesNoEarlierMatch(q: nat)
    requires q < 5
    ensures !EmailMatches(TwoAddresses, q)
  {
    RunStopsAt(TwoAddresses, q, IsLocalChar, q);
  }

  lemma TwoAddressesFind()
    ensures FindEmail(TwoAddresses) == Some(5)
  {
    TwoAddressesFirstMatch();
    forall q: nat | q < 5
      ensures !EmailMatches(TwoAddresses, q)
    {
      TwoAddressesNoEarlierMatch(q);
    }
    assert EmailMatches(TwoAddresses, 5);
  }

  /** The second address of the text, `gsm2832954437@163.com`, spans the
      indices 15 to 36. */
  lemma TwoAddressesSecond()
    ensures EmailShapeAt(TwoAddresses, 15, 28, 32, 36)
  {
    var s := TwoAddresses;
    assert s[15..28] == "gsm2832954437";
    assert forall k | 15 <= k < 28 :: s[k] == s[15..28][k - 15];
    assert s[28] == '@' && s[29] == '1' && s[30] == '6' && s[31] == '3';
    assert s[32] == '.' && s[33] == 'c' && s[34] == 'o' && s[35] == 'm';
  }

  lemma TwoAddressesFirstText()
    ensures TwoAddresses[5..14] == "5@163.com"
  {
    var s := TwoAddresses;
    assert s[5] == '5' && s[6] == '@' && s[7] == '1' && s[8] == '6' && s[9] == '3';
    assert s[10] == '.' && s[11] == 'c' && s[12] == 'o' && s[13] == 'm';
  }

  /** The result of `extract_email` read off the leftmost match. */
  lemma ExtractEmailAt(text: seq<char>, p: nat, span: EmailSpan)
    requires text != [] && FindEmail(text) == Some(p) && EmailMatchAt(text, p) == Some(span)
    ensures ExtractEmail(text) == Some(text[p..span.end])
  {
  }

  /** test_extraction.py:52: the first address of the text is returned,
      although a longer one follows it. */
  lemma EmailFirstNotLongest()
    ensures ExtractEmail(TwoAddresses) == Some("5@163.com")
    ensures EmailShapeAt(TwoAddresses, 15, 28, 32, 36)
  {
    TwoAddressesFind();
    TwoAddressesFirstMatch();
    ExtractEmailAt(TwoAddresses, 5, EmailSpan(6, 10, 14));
    TwoAddressesFirstText();
    TwoAddressesSecond();
  }
}
