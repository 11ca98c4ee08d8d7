/** What the model says `extract_name` returns on small texts. */
module NameExamples {
  import opened Text
  import opened NameValidation
  import opened NameExtraction

  /** A text without a colon gives the keyword strategy nothing to match:
      every keyword pattern needs `：` or `:` before its group. */
  lemma NoColonNoKeyword(text: seq<char>)
    requires forall i | 0 <= i < |text| :: !IsColon(text[i])
    ensures ByKeyword(text) == None
  {
    forall j | 0 <= j < |KeywordPatterns|
      ensures !Accepts(text, KeywordPatterns[j])
    {
      var lab := KeywordPatterns[j];
      forall q: nat | q <= |text|
        ensures !KeywordMatches(text, lab, q)
      {
      }
    }
    TryPatternsNone(text, KeywordPatterns);
  }

  const Labelled: seq<char> := "姓名：张三"

  lemma LabelledLabel()
    ensures MatchLabel(Labelled, 0, ["姓", "名"]) == Some(2)
  {
    var s := Labelled;
    assert s[0] == '姓' && s[1] == '名' && s[2] == '：';
    assert s[0..1] == "姓" && s[1..2] == "名";
    RunStopsAt(s, 1, IsSpace, 1);
    RunStopsAt(s, 2, IsSpace, 2);
    var rest: Label := ["名"];
    assert rest[1..] == [];
    assert MatchLabel(s, 1, rest) == MatchLabel(s, 2, []);
  }

  lemma LabelledGroup()
    ensures Run(Labelled, 3, IsSpace) == 0 && Run(Labelled, 3, IsNonSpace) == 2
  {
    var s := Labelled;
    assert s[3] == '张' && s[4] == '三';
    RunStopsAt(s, 3, IsSpace, 3);
    RunCovers(s, 3, IsNonSpace, 5);
  }

  lemma LabelledMatch()
    ensures KeywordMatchAt(Labelled, 0, ["姓", "名"]) == Some(Capture(2, 3, 2))
  {
    LabelledLabel();
    LabelledGroup();
    assert Labelled[2] == '：';
    KeywordMatchAfterColon(Labelled, 0, ["姓", "名"], 2, 3, 2);
  }

  lemma LabelledCapture()
    ensures LeftmostCapture(Labelled, KeywordPatterns[0]) == Some("张三")
  {
    LabelledMatch();
    assert KeywordMatches(Labelled, KeywordPatterns[0], 0);
    assert Labelled[3..5] == "张三";
  }

  /** `张三` is two Han characters and no title word. */
  lemma ZhangSanIsValid()
    ensures IsValidName("张三") && Strip("张三") == "张三"
  {
    var n := "张三";
    assert IsHan(n[0]) && IsHan(n[1]);
    assert n != "简历";
    HanNonTitleIsValid(n);
    StripNoSpace(n);
  }

  /** `姓名：张三`: the first keyword pattern captures the name. */
  lemma LabelledName()
    ensures ExtractName(Labelled) == Some("张三")
  {
    LabelledCapture();
    ZhangSanIsValid();
    assert Accepts(Labelled, KeywordPatterns[0]);
    TryPatternsFirst(Labelled, KeywordPatterns, 0);
  }

  const Unlabelled: seq<char> := "个人简历 张三"

  lemma UnlabelledChunks()
    ensures HanChunks(Unlabelled, 0) == ["个人简历", "张三"]
  {
    var s := Unlabelled;
    assert IsHan(s[0]) && IsHan(s[1]) && IsHan(s[2]) && IsHan(s[3]);
    assert !IsHan(s[4]) && IsHan(s[5]) && IsHan(s[6]);
    RunCovers(s, 0, IsHan, 4);
    RunStopsAt(s, 4, IsHan, 4);
    RunCovers(s, 5, IsHan, 7);
    assert s[0..4] == "个人简历" && s[5..7] == "张三";
  }

  /** `个人简历 张三`: without a label the positional strategy runs; its
      first chunk is a title word and is skipped, the second is the name. */
  lemma UnlabelledName()
    ensures ExtractName(Unlabelled) == Some("张三")
  {
    var s := Unlabelled;
    assert s[4] == ' ';
    NoColonNoKeyword(s);
    assert Prefix(s, Window) == s;
    UnlabelledChunks();
    assert "个人简历" in CommonTitleWords;
    ZhangSanIsValid();
    ByPositionFirst(s, 1);
  }

  /** A run of six Han characters gives a chunk of four and then one of
      two. */
  lemma SixHanChunks()
    ensures HanChunks("张三丰李四五", 0) == ["张三丰李", "四五"]
  {
    var w := "张三丰李四五";
    assert forall k | 0 <= k < 6 :: IsHan(w[k]);
    RunCovers(w, 0, IsHan, 6);
    RunCovers(w, 4, IsHan, 6);
    assert w[0..4] == "张三丰李" && w[4..6] == "四五";
  }

  /** A run of five gives one chunk of four; the fifth character is left
      alone and skipped. */
  lemma FiveHanChunks()
    ensures HanChunks("张三丰李四", 0) == ["张三丰李"]
  {
    var w := "张三丰李四";
    assert forall k | 0 <= k < 5 :: IsHan(w[k]);
    RunCovers(w, 0, IsHan, 5);
    RunCovers(w, 4, IsHan, 5);
    assert w[0..4] == "张三丰李";
  }

  /** A two-piece label of single characters fails at 0 when the second
      character of `s` is not blank and does not fold to the second piece. */
  lemma SecondPieceMissing(s: seq<char>, lab: Label)
    requires |lab| == 2 && |lab[0]| == 1 && |lab[1]| == 1 && 2 <= |s|
    requires EqualsIgnoreCase(s[0..1], lab[0]) && !IsSpace(s[1])
    requires FoldCase(s[1]) != FoldCase(lab[1][0])
    ensures MatchLabel(s, 0, lab) == None
  {
    RunStopsAt(s, 1, IsSpace, 1);
    MatchLabelStep(s, 0, lab, 1);
    assert !EqualsIgnoreCase(s[1..2], lab[1..][0]);
    MatchLabelUnfold(s, 1, lab[1..]);
  }

  /** In `姓X：张三` the first label piece `姓` is followed by `X`, not by
      the second piece `名`. */
  lemma BrokenLabelPieces()
    ensures MatchLabel("姓X：张三", 0, ["姓", "名"]) == None
  {
    var s := "姓X：张三";
    var lab: Label := ["姓", "名"];
    assert s[0..1] == "姓";
    assert s[1] == 'X' && lab[1][0] == '名';
    SecondPieceMissing(s, lab);
  }

  /** `姓X：张三` has no word of the first label's language at 0, so the
      keyword pattern does not match there. */
  lemma BrokenLabel()
    ensures KeywordMatchAt("姓X：张三", 0, ["姓", "名"]) == None
  {
    BrokenLabelPieces();
  }
}
