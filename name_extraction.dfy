/** `InfoExtractor.extract_name` and its two strategies,
    `_extract_name_by_keyword` (main.py:313-341) and
    `_extract_name_by_position` (main.py:343-368). */
module NameExtraction {
  import opened Text
  import opened NameValidation

  // ---------------------------------------------------------------------
  // Keyword strategy
  // ---------------------------------------------------------------------

  /** `[：:]`, a full-width or an ASCII colon. */
  predicate IsColon(c: char)
  {
    c == '：' || c == ':'
  }

  /** The label part of a keyword pattern: literal pieces, each followed by
      `\s*`. `姓\s*名\s*` is `["姓", "名"]` and `Name\s*` is `["Name"]`. */
  type Label = seq<seq<char>>

  /** The five patterns of main.py:325-331, in their order. The second
      repeats the first, and under `re.IGNORECASE` the fourth is the third
      again; they are kept so that the list is the source's. */
  const KeywordPatterns: seq<Label> := [["姓", "名"], ["姓", "名"], ["Name"], ["name"], ["名", "字"]]

  /** The words of the label part of a pattern: from `pos`, each piece
      in order, compared without regard to case, each followed by
      whitespace up to the index `gaps` gives for it; the last whitespace
      run ends at `k`. */
  ghost predicate LabelShapeAt(s: seq<char>, pos: nat, lab: Label, gaps: seq<nat>, k: nat)
    decreases |lab|
  {
    && |gaps| == |lab|
    && (if lab == [] then k == pos
        else
          var next := pos + |lab[0]|;
          && next <= gaps[0] <= |s|
          && EqualsIgnoreCase(s[pos..next], lab[0])
          && (forall i | next <= i < gaps[0] :: IsSpace(s[i]))
          && LabelShapeAt(s, gaps[0], lab[1..], gaps[1..], k))
  }

  /** Every piece of the label is non-empty and starts with a character
      that is not whitespace, so no `\s*` can run into the next piece. */
  predicate IsPlainLabel(lab: Label)
  {
    forall i | 0 <= i < |lab| :: lab[i] != [] && !IsSpace(lab[i][0])
  }

  /** The five labels of the source are plain. */
  lemma KeywordPatternsArePlain()
    ensures forall j | 0 <= j < |KeywordPatterns| :: IsPlainLabel(KeywordPatterns[j])
  {
    assert !IsSpace('姓') && !IsSpace('名') && !IsSpace('N') && !IsSpace('n');
  }

  /** Matches the label from `pos`, comparing letters without regard to
      case; returns the index just after the last `\s*`. A `\s*` before a
      piece or a colon, neither of which is whitespace, has to take every
      whitespace character there, so no backtracking is needed. */
  function MatchLabel(s: seq<char>, pos: nat, lab: Label): (r: Option<nat>)
    requires pos <= |s|
    ensures r.Some? ==> pos <= r.value <= |s|
    ensures r.Some? && lab != [] ==> r.value == |s| || !IsSpace(s[r.value])
    decreases |lab|
  {
    if lab == [] then Some(pos)
    else
      var piece := lab[0];
      if pos + |piece| <= |s| && EqualsIgnoreCase(s[pos..pos + |piece|], piece) then
        var next := pos + |piece|;
        MatchLabel(s, next + Run(s, next, IsSpace), lab[1..])
      else None
  }

  /** Where the whitespace runs the label matcher consumes end. */
  ghost function LabelGaps(s: seq<char>, pos: nat, lab: Label): seq<nat>
    requires pos <= |s|
    decreases |lab|
  {
    if lab == [] then []
    else
      var next := pos + |lab[0]|;
      if next <= |s| && EqualsIgnoreCase(s[pos..next], lab[0]) then
        var j := next + Run(s, next, IsSpace);
        [j] + LabelGaps(s, j, lab[1..])
      else []
  }

  /** Where the label matcher goes after its first piece. */
  lemma MatchLabelUnfold(s: seq<char>, pos: nat, lab: Label)
    requires pos <= |s| && lab != []
    ensures MatchLabel(s, pos, lab).Some? ==>
      pos + |lab[0]| <= |s| && EqualsIgnoreCase(s[pos..pos + |lab[0]|], lab[0])
    ensures pos + |lab[0]| <= |s| && EqualsIgnoreCase(s[pos..pos + |lab[0]|], lab[0]) ==>
      MatchLabel(s, pos, lab) == MatchLabel(s, pos + |lab[0]| + Run(s, pos + |lab[0]|, IsSpace), lab[1..])
  {
  }

  /** The same step, once the end `j` of the whitespace run is known. */
  lemma MatchLabelStep(s: seq<char>, pos: nat, lab: Label, j: nat)
    requires lab != [] && pos + |lab[0]| <= |s|
    requires EqualsIgnoreCase(s[pos..pos + |lab[0]|], lab[0])
    requires j == pos + |lab[0]| + Run(s, pos + |lab[0]|, IsSpace)
    ensures j <= |s| && MatchLabel(s, pos, lab) == MatchLabel(s, j, lab[1..])
  {
  }

  lemma LabelGapsStep(s: seq<char>, pos: nat, lab: Label, j: nat)
    requires lab != [] && pos + |lab[0]| <= |s|
    requires EqualsIgnoreCase(s[pos..pos + |lab[0]|], lab[0])
    requires j == pos + |lab[0]| + Run(s, pos + |lab[0]|, IsSpace)
    ensures j <= |s| && LabelGaps(s, pos, lab) == [j] + LabelGaps(s, j, lab[1..])
  {
    var next := pos + |lab[0]|;
    assert next <= |s| && EqualsIgnoreCase(s[pos..next], lab[0]);
  }

  lemma ConsParts(j: nat, rest: seq<nat>)
    ensures ([j] + rest)[0] == j && ([j] + rest)[1..] == rest
  {
  }

  /** What the label matcher consumes is a word of the label language. */
  lemma {:induction false} MatchLabelSound(s: seq<char>, pos: nat, lab: Label)
    requires pos <= |s|
    requires MatchLabel(s, pos, lab).Some?
    ensures LabelShapeAt(s, pos, lab, LabelGaps(s, pos, lab), MatchLabel(s, pos, lab).value)
    decreases |lab|
  {
    if lab != [] {
      MatchLabelUnfold(s, pos, lab);
      var next := pos + |lab[0]|;
      var j := next + Run(s, next, IsSpace);
      var rest := lab[1..];
      MatchLabelStep(s, pos, lab, j);
      MatchLabelSound(s, j, rest);
      LabelGapsStep(s, pos, lab, j);
      ConsParts(j, LabelGaps(s, j, rest));
    }
  }

  /** A character equal to a non-space character up to case is not a
      space: case folding moves only ASCII letters. */
  lemma FoldKeepsSolid(a: char, b: char)
    requires FoldCase(a) == FoldCase(b) && !IsSpace(b)
    ensures !IsSpace(a)
  {
  }

  lemma PlainLabelTail(lab: Label)
    requires lab != [] && IsPlainLabel(lab)
    ensures IsPlainLabel(lab[1..])
  {
    forall i | 0 <= i < |lab| - 1
      ensures lab[1..][i] != [] && !IsSpace(lab[1..][i][0])
    {
      assert lab[1..][i] == lab[i + 1];
    }
  }

  /** A word of a plain label starts with a character that is not
      whitespace. */
  lemma LabelShapeStartsSolid(s: seq<char>, pos: nat, lab: Label, gaps: seq<nat>, k: nat)
    requires lab != [] && IsPlainLabel(lab)
    requires LabelShapeAt(s, pos, lab, gaps, k)
    ensures pos < |s| && !IsSpace(s[pos])
  {
    var piece := lab[0];
    assert s[pos..pos + |piece|][0] == s[pos];
    FoldKeepsSolid(s[pos], piece[0]);
  }

  /** Whitespace from `next` up to a non-space character or the end is
      exactly the run the greedy `\s*` takes. */
  lemma GapIsRun(s: seq<char>, next: nat, j: nat)
    requires next <= j <= |s|
    requires forall i | next <= i < j :: IsSpace(s[i])
    requires j == |s| || !IsSpace(s[j])
    ensures next + Run(s, next, IsSpace) == j
  {
    if j < |s| {
      RunStopsAt(s, next, IsSpace, j);
    } else {
      RunCovers(s, next, IsSpace, j);
    }
  }

  /** The label matcher finds every word of the label language whose
      last whitespace run is maximal, which it is whenever a colon or the
      end of the text follows. */
  lemma {:induction false} MatchLabelComplete(s: seq<char>, pos: nat, lab: Label, gaps: seq<nat>, k: nat)
    requires pos <= |s| && IsPlainLabel(lab)
    requires LabelShapeAt(s, pos, lab, gaps, k)
    requires lab != [] && k < |s| ==> !IsSpace(s[k])
    ensures MatchLabel(s, pos, lab) == Some(k)
    decreases |lab|
  {
    if lab != [] {
      var next := pos + |lab[0]|;
      var j := gaps[0];
      var rest := lab[1..];
      PlainLabelTail(lab);
      if rest != [] {
        LabelShapeStartsSolid(s, j, rest, gaps[1..], k);
      }
      GapIsRun(s, next, j);
      MatchLabelStep(s, pos, lab, j);
      MatchLabelComplete(s, j, rest, gaps[1..], k);
    }
  }

  /** Where a keyword match puts its colon and its capture group. */
  datatype Capture = Capture(colon: nat, start: nat, len: nat)

  /** The words of the language of `<label>[：:]\s*([^\s\n]{2,4})` that
      start at `q`, with the colon and the group `c` puts them. */
  ghost predicate KeywordShapeAt(s: seq<char>, q: nat, lab: Label, gaps: seq<nat>, c: Capture)
  {
    && q <= c.colon < c.start && c.start + c.len <= |s|
    && LabelShapeAt(s, q, lab, gaps, c.colon)
    && IsColon(s[c.colon])
    && (forall k | c.colon < k < c.start :: IsSpace(s[k]))
    && 2 <= c.len <= 4
    && (forall k | c.start <= k < c.start + c.len :: !IsSpace(s[k]))
  }

  /** The pattern `<label>[：:]\s*([^\s\n]{2,4})` matched at `p`. After the colon, `\s*` takes all whitespace (the
      group cannot start with any); the group then takes as many
      non-space characters as it can, up to four, and fails when there are
      fewer than two. */
  function KeywordMatchAt(s: seq<char>, p: nat, lab: Label): (r: Option<Capture>)
    requires p <= |s|
    ensures r.Some? ==> var c := r.value;
      && p <= c.colon < c.start && c.start + c.len <= |s|
      && IsColon(s[c.colon])
      && (forall k | c.colon < k < c.start :: IsSpace(s[k]))
      && 2 <= c.len <= 4
      && (forall k | c.start <= k < c.start + c.len :: !IsSpace(s[k]))
      && (c.len == 4 || c.start + c.len == |s| || IsSpace(s[c.start + c.len]))
    ensures r.Some? ==> MatchLabel(s, p, lab) == Some(r.value.colon)
  {
    match MatchLabel(s, p, lab)
    case None => None
    case Some(k) =>
      if k < |s| && IsColon(s[k]) then
        var start := k + 1 + Run(s, k + 1, IsSpace);
        var n := Run(s, start, IsNonSpace);
        if n < 2 then None else Some(Capture(k, start, Min(n, 4)))
      else None
  }

  /** A keyword match is a word of the pattern's language. */
  lemma KeywordMatchSound(s: seq<char>, p: nat, lab: Label)
    requires p <= |s| && KeywordMatchAt(s, p, lab).Some?
    ensures KeywordShapeAt(s, p, lab, LabelGaps(s, p, lab), KeywordMatchAt(s, p, lab).value)
  {
    MatchLabelSound(s, p, lab);
  }

  /** The match found once the label and the colon are known. */
  lemma KeywordMatchAfterColon(s: seq<char>, p: nat, lab: Label, k: nat, start: nat, n: nat)
    requires p <= |s| && MatchLabel(s, p, lab) == Some(k) && k < |s| && IsColon(s[k])
    requires start == k + 1 + Run(s, k + 1, IsSpace)
    requires n == Run(s, start, IsNonSpace) && 2 <= n
    ensures KeywordMatchAt(s, p, lab) == Some(Capture(k, start, Min(n, 4)))
  {
  }

  /** The matcher finds a match wherever the pattern's language has a
      word, with the same colon and the same group start, and a group at
      least as long as the word's: the greedy `{2,4}` takes the most. */
  lemma KeywordMatchComplete(s: seq<char>, q: nat, lab: Label, gaps: seq<nat>, c: Capture)
    requires q <= |s| && IsPlainLabel(lab)
    requires KeywordShapeAt(s, q, lab, gaps, c)
    ensures KeywordMatchAt(s, q, lab).Some?
    ensures KeywordMatchAt(s, q, lab).value.colon == c.colon
    ensures KeywordMatchAt(s, q, lab).value.start == c.start
    ensures c.len <= KeywordMatchAt(s, q, lab).value.len
  {
    MatchLabelComplete(s, q, lab, gaps, c.colon);
    RunStopsAt(s, c.colon + 1, IsSpace, c.start);
    RunCovers(s, c.start, IsNonSpace, c.start + c.len);
    KeywordMatchAfterColon(s, q, lab, c.colon, c.start, Run(s, c.start, IsNonSpace));
  }

  /** The keyword pattern matches at `q`. */
  predicate KeywordMatches(s: seq<char>, lab: Label, q: nat)
  {
    q <= |s| && KeywordMatchAt(s, q, lab).Some?
  }

  /** `re.search`: the leftmost index where the keyword pattern matches. */
  function FindKeyword(s: seq<char>, lab: Label): (r: Option<nat>)
    ensures r.Some? ==> r.value <= |s| && KeywordMatchAt(s, r.value, lab).Some?
    ensures r.Some? ==> forall q: nat | q < r.value :: !KeywordMatches(s, lab, q)
    ensures r.None? ==> forall q: nat | q <= |s| :: !KeywordMatches(s, lab, q)
  {
    var m := (q: nat) => KeywordMatches(s, lab, q);
    assert forall q: nat :: m(q) == KeywordMatches(s, lab, q);
    Leftmost(0, |s|, m)
  }

  /** For a plain label, `re.search` finds nothing exactly when the
      pattern's language has no word anywhere in the text; otherwise it
      settles on a word, and no word starts before it. */
  lemma FindKeywordLeftmost(s: seq<char>, lab: Label)
    requires IsPlainLabel(lab)
    ensures FindKeyword(s, lab).None? <==>
      forall q: nat, gaps: seq<nat>, c: Capture :: !KeywordShapeAt(s, q, lab, gaps, c)
    ensures FindKeyword(s, lab).Some? ==>
      var p := FindKeyword(s, lab).value;
      && KeywordShapeAt(s, p, lab, LabelGaps(s, p, lab), KeywordMatchAt(s, p, lab).value)
      && forall q: nat, gaps: seq<nat>, c: Capture | q < p :: !KeywordShapeAt(s, q, lab, gaps, c)
  {
    forall q: nat, gaps: seq<nat>, c: Capture | KeywordShapeAt(s, q, lab, gaps, c)
      ensures KeywordMatches(s, lab, q)
    {
      KeywordMatchComplete(s, q, lab, gaps, c);
    }
    if FindKeyword(s, lab).Some? {
      KeywordMatchSound(s, FindKeyword(s, lab).value, lab);
    }
  }

  /** `match.group(1)` of the leftmost match of one keyword pattern: 2 to
      4 non-space characters of the text. */
  function LeftmostCapture(s: seq<char>, lab: Label): (r: Option<seq<char>>)
    ensures r.Some? ==> 2 <= |r.value| <= 4 && IsSubstring(r.value, s)
    ensures r.Some? ==> forall i | 0 <= i < |r.value| :: !IsSpace(r.value[i])
  {
    match FindKeyword(s, lab)
    case None => None
    case Some(p) =>
      var c := KeywordMatchAt(s, p, lab).value;
      assert Occurs(s[c.start..c.start + c.len], s, c.start);
      Some(s[c.start..c.start + c.len])
  }

  /** `c` is the group of a word of the language at `q` that `re.search`
      settles on: no word starts before `q`, and no word at `q` has a
      longer group. */
  ghost predicate LeftmostLongestWord(s: seq<char>, lab: Label, q: nat, gaps: seq<nat>, c: Capture)
  {
    && KeywordShapeAt(s, q, lab, gaps, c)
    && (forall gaps': seq<nat>, c': Capture | KeywordShapeAt(s, q, lab, gaps', c') :: c'.len <= c.len)
    && forall q': nat, gaps': seq<nat>, c': Capture | q' < q :: !KeywordShapeAt(s, q', lab, gaps', c')
  }

  /** The match `re.search` finds is the leftmost word with the longest
      group at its start. */
  lemma FoundIsLeftmostLongest(s: seq<char>, lab: Label)
    requires IsPlainLabel(lab) && FindKeyword(s, lab).Some?
    ensures var p := FindKeyword(s, lab).value;
      LeftmostLongestWord(s, lab, p, LabelGaps(s, p, lab), KeywordMatchAt(s, p, lab).value)
  {
    var p := FindKeyword(s, lab).value;
    FindKeywordLeftmost(s, lab);
    forall gaps': seq<nat>, c': Capture | KeywordShapeAt(s, p, lab, gaps', c')
      ensures c'.len <= KeywordMatchAt(s, p, lab).value.len
    {
      KeywordMatchComplete(s, p, lab, gaps', c');
    }
  }

  /** For a plain label, the capture is absent exactly when the pattern's
      language has no word in the text; otherwise it is the longest group
      of a word at the leftmost start, and no word starts before that. */
  lemma LeftmostCaptureShape(s: seq<char>, lab: Label)
    requires IsPlainLabel(lab)
    ensures LeftmostCapture(s, lab).None? <==>
      forall q: nat, gaps: seq<nat>, c: Capture :: !KeywordShapeAt(s, q, lab, gaps, c)
    ensures LeftmostCapture(s, lab).Some? ==>
      exists q: nat, gaps: seq<nat>, c: Capture ::
        LeftmostLongestWord(s, lab, q, gaps, c) && LeftmostCapture(s, lab).value == s[c.start..c.start + c.len]
  {
    FindKeywordLeftmost(s, lab);
    if FindKeyword(s, lab).Some? {
      var p := FindKeyword(s, lab).value;
      var c := KeywordMatchAt(s, p, lab).value;
      FoundIsLeftmostLongest(s, lab);
      assert LeftmostLongestWord(s, lab, p, LabelGaps(s, p, lab), c);
    }
  }

  /** One turn of the loop of main.py:333-339: the stripped `group(1)` of
      the leftmost match, when it passes `_is_valid_name`. The capture has
      no whitespace, so stripping leaves it as it is. */
  function Verdict(s: seq<char>, lab: Label): (r: Option<seq<char>>)
    ensures r.Some? ==> r == LeftmostCapture(s, lab)
    ensures r.Some? ==> IsValidName(r.value) && Strip(r.value) == r.value && IsSubstring(r.value, s)
    ensures r.Some? <==> LeftmostCapture(s, lab).Some? && IsValidName(LeftmostCapture(s, lab).value)
  {
    match LeftmostCapture(s, lab)
    case Some(capture) =>
      var candidate := Strip(capture);
      StripNoSpace(capture);
      if IsValidName(candidate) then Some(candidate) else None
    case None => None
  }

  /** One pattern of the loop yields a name. */
  predicate Accepts(s: seq<char>, lab: Label)
  {
    Verdict(s, lab).Some?
  }

  /** The results of the turns of the loop, one per pattern. Each turn is
      a pure computation, so computing them all and taking the first name
      gives what the loop returns. */
  function Verdicts(s: seq<char>, patterns: seq<Label>): (vs: seq<Option<seq<char>>>)
    ensures |vs| == |patterns|
    ensures forall j | 0 <= j < |patterns| :: vs[j] == Verdict(s, patterns[j])
  {
    seq(|patterns|, j requires 0 <= j < |patterns| => Verdict(s, patterns[j]))
  }

  /** The first result that is a name, from the `i`-th turn on. */
  function FirstName(vs: seq<Option<seq<char>>>, i: nat): (r: Option<seq<char>>)
    requires i <= |vs|
    ensures r.Some? ==> exists j | i <= j < |vs| :: vs[j] == r
    decreases |vs| - i
  {
    if i == |vs| then None
    else if vs[i].Some? then vs[i]
    else FirstName(vs, i + 1)
  }

  /** The first name is the result of the first turn that yields one. */
  lemma {:induction false} FirstNameAt(vs: seq<Option<seq<char>>>, i: nat, k: nat)
    requires i <= k < |vs|
    requires forall j | i <= j < k :: vs[j].None?
    requires vs[k].Some?
    ensures FirstName(vs, i) == vs[k]
    decreases k - i
  {
    if i < k {
      FirstNameAt(vs, i + 1, k);
    }
  }

  /** There is no first name exactly when no turn yields a name. */
  lemma {:induction false} FirstNameNone(vs: seq<Option<seq<char>>>, i: nat)
    requires i <= |vs|
    ensures FirstName(vs, i).None? <==> forall j | i <= j < |vs| :: vs[j].None?
    decreases |vs| - i
  {
    if i < |vs| {
      FirstNameNone(vs, i + 1);
    }
  }

  /** The `for` loop of main.py:333-339: the first pattern, in list order,
      whose leftmost capture is a valid name gives the result. */
  function TryPatterns(s: seq<char>, patterns: seq<Label>): (r: Option<seq<char>>)
    ensures r.Some? ==> IsValidName(r.value) && Strip(r.value) == r.value && IsSubstring(r.value, s)
  {
    var vs := Verdicts(s, patterns);
    var r := FirstName(vs, 0);
    assert r.Some? ==> exists j | 0 <= j < |vs| :: r == Verdict(s, patterns[j]);
    r
  }

  /** `_extract_name_by_keyword`. */
  function ByKeyword(text: seq<char>): (r: Option<seq<char>>)
    ensures r.Some? ==> IsValidName(r.value) && Strip(r.value) == r.value && IsSubstring(r.value, text)
  {
    TryPatterns(text, KeywordPatterns)
  }

  /** The patterns are tried in list order: when the patterns before the
      `k`-th all fail and the `k`-th accepts, its leftmost capture is the
      result; later patterns, and later matches of the same pattern, are
      never looked at. */
  lemma TryPatternsFirst(s: seq<char>, patterns: seq<Label>, k: nat)
    requires k < |patterns|
    requires forall j | 0 <= j < k :: !Accepts(s, patterns[j])
    requires Accepts(s, patterns[k])
    ensures TryPatterns(s, patterns) == LeftmostCapture(s, patterns[k])
  {
    var vs := Verdicts(s, patterns);
    FirstNameAt(vs, 0, k);
  }

  /** The keyword strategy yields nothing exactly when no pattern accepts. */
  lemma TryPatternsNone(s: seq<char>, patterns: seq<Label>)
    ensures TryPatterns(s, patterns).None? <==> forall j | 0 <= j < |patterns| :: !Accepts(s, patterns[j])
  {
    var vs := Verdicts(s, patterns);
    FirstNameNone(vs, 0);
  }

  // ---------------------------------------------------------------------
  // Positional strategy
  // ---------------------------------------------------------------------

  /** `re.findall(r"[一-鿿]{2,4}", w)` from index `i`: left to right and
      without overlap, each match takes as many Han characters as it can up
      to four; a lone Han character is skipped. */
  function HanChunks(w: seq<char>, i: nat): (r: seq<seq<char>>)
    requires i <= |w|
    ensures forall k | 0 <= k < |r| :: 2 <= |r[k]| <= 4 && AllHan(r[k]) && IsSubstring(r[k], w)
    decreases |w| - i
  {
    if i == |w| then []
    else
      var n := Run(w, i, IsHan);
      if n >= 2 then
        var len := Min(n, 4);
        assert Occurs(w[i..i + len], w, i);
        [w[i..i + len]] + HanChunks(w, i + len)
      else HanChunks(w, i + 1)
  }

  /** Where `findall` from index `i` starts each of its chunks. */
  function HanChunkStarts(w: seq<char>, i: nat): (r: seq<nat>)
    requires i <= |w|
    ensures forall k | 0 <= k < |r| :: i <= r[k] < |w|
    decreases |w| - i
  {
    if i == |w| then []
    else
      var n := Run(w, i, IsHan);
      if n >= 2 then [i] + HanChunkStarts(w, i + Min(n, 4))
      else HanChunkStarts(w, i + 1)
  }

  /** Some chunk covers index `j`. */
  predicate InSomeChunk(starts: seq<nat>, chunks: seq<seq<char>>, j: nat)
  {
    exists k | 0 <= k < |starts| && k < |chunks| :: starts[k] <= j < starts[k] + |chunks[k]|
  }

  /** Each chunk starts, at or after `i`, where a run of at least two Han
      characters starts, and takes up to four of them. */
  predicate ChunksAtRuns(w: seq<char>, i: nat, chunks: seq<seq<char>>, starts: seq<nat>)
  {
    && |starts| == |chunks|
    && forall k | 0 <= k < |chunks| ::
         && i <= starts[k] <= |w|
         && 2 <= Run(w, starts[k], IsHan)
         && starts[k] + Min(Run(w, starts[k], IsHan), 4) <= |w|
         && chunks[k] == w[starts[k]..starts[k] + Min(Run(w, starts[k], IsHan), 4)]
  }

  /** The chunks come in the order of their starts and do not overlap. */
  predicate ChunksInOrder(chunks: seq<seq<char>>, starts: seq<nat>)
  {
    |starts| == |chunks| && forall k | 0 <= k < |chunks| - 1 :: starts[k] + |chunks[k]| <= starts[k + 1]
  }

  /** Every index from `i` that no chunk covers starts a run of fewer
      than two Han characters. */
  predicate UncoveredAreShort(w: seq<char>, i: nat, chunks: seq<seq<char>>, starts: seq<nat>)
  {
    forall j | i <= j < |w| && !InSomeChunk(starts, chunks, j) :: Run(w, j, IsHan) < 2
  }

  /** What a left-to-right, non-overlapping, greedy scan from `i` yields. */
  predicate IsFindallScan(w: seq<char>, i: nat, chunks: seq<seq<char>>, starts: seq<nat>)
  {
    ChunksAtRuns(w, i, chunks, starts) && ChunksInOrder(chunks, starts) && UncoveredAreShort(w, i, chunks, starts)
  }

  /** `HanChunks` is that scan. */
  lemma {:induction false} HanChunksScan(w: seq<char>, i: nat)
    requires i <= |w|
    ensures IsFindallScan(w, i, HanChunks(w, i), HanChunkStarts(w, i))
    decreases |w| - i
  {
    if i < |w| {
      var n := Run(w, i, IsHan);
      if n >= 2 {
        var len := Min(n, 4);
        HanChunksTake(w, i);
        HanChunksScan(w, i + len);
        ScanTake(w, i, HanChunks(w, i), HanChunkStarts(w, i), HanChunks(w, i + len), HanChunkStarts(w, i + len));
      } else {
        HanChunksSkip(w, i);
        HanChunksScan(w, i + 1);
        ScanSkip(w, i, HanChunks(w, i), HanChunkStarts(w, i));
      }
    }
  }

  lemma HanChunksTake(w: seq<char>, i: nat)
    requires i < |w| && Run(w, i, IsHan) >= 2
    ensures var len := Min(Run(w, i, IsHan), 4);
      && HanChunks(w, i) == [w[i..i + len]] + HanChunks(w, i + len)
      && HanChunkStarts(w, i) == [i] + HanChunkStarts(w, i + len)
  {
  }

  lemma HanChunksSkip(w: seq<char>, i: nat)
    requires i < |w| && Run(w, i, IsHan) < 2
    ensures HanChunks(w, i) == HanChunks(w, i + 1)
    ensures HanChunkStarts(w, i) == HanChunkStarts(w, i + 1)
  {
  }

  /** Taking a chunk at `i` in front of a scan from its end is a scan
      from `i`. */
  lemma ScanTake(w: seq<char>, i: nat, c: seq<seq<char>>, st: seq<nat>, rc: seq<seq<char>>, rs: seq<nat>)
    requires i < |w| && Run(w, i, IsHan) >= 2
    requires c == [w[i..i + Min(Run(w, i, IsHan), 4)]] + rc && st == [i] + rs
    requires IsFindallScan(w, i + Min(Run(w, i, IsHan), 4), rc, rs)
    ensures IsFindallScan(w, i, c, st)
  {
    var len := Min(Run(w, i, IsHan), 4);
    forall k | 0 < k < |c|
      ensures c[k] == rc[k - 1] && st[k] == rs[k - 1]
    {
    }
    ScanTakeRuns(w, i, len, c, st, rc, rs);
    ScanTakeOrder(i, len, c, st, rc, rs);
    ScanTakeCover(w, i, len, c, st, rc, rs);
  }

  lemma ScanTakeRuns(w: seq<char>, i: nat, len: nat, c: seq<seq<char>>, st: seq<nat>, rc: seq<seq<char>>, rs: seq<nat>)
    requires i < |w| && Run(w, i, IsHan) >= 2 && len == Min(Run(w, i, IsHan), 4)
    requires |c| == |rc| + 1 && |st| == |rs| + 1 && |rs| == |rc| && c[0] == w[i..i + len] && st[0] == i
    requires forall k | 0 < k < |c| :: c[k] == rc[k - 1] && st[k] == rs[k - 1]
    requires ChunksAtRuns(w, i + len, rc, rs)
    ensures ChunksAtRuns(w, i, c, st)
  {
  }

  lemma ScanTakeOrder(i: nat, len: nat, c: seq<seq<char>>, st: seq<nat>, rc: seq<seq<char>>, rs: seq<nat>)
    requires |c| == |rc| + 1 && |st| == |rs| + 1 && |rs| == |rc| && |c[0]| == len && st[0] == i
    requires forall k | 0 < k < |c| :: c[k] == rc[k - 1] && st[k] == rs[k - 1]
    requires forall k | 0 <= k < |rs| :: i + len <= rs[k]
    requires ChunksInOrder(rc, rs)
    ensures ChunksInOrder(c, st)
  {
  }

  lemma ScanTakeCover(w: seq<char>, i: nat, len: nat, c: seq<seq<char>>, st: seq<nat>, rc: seq<seq<char>>, rs: seq<nat>)
    requires |c| == |rc| + 1 && |st| == |rs| + 1 && |rs| == |rc| && |c[0]| == len && st[0] == i
    requires forall k | 0 < k < |c| :: c[k] == rc[k - 1] && st[k] == rs[k - 1]
    requires UncoveredAreShort(w, i + len, rc, rs)
    ensures forall j | i <= j < |w| && !InSomeChunk(st, c, j) :: Run(w, j, IsHan) < 2
  {
    forall j | i <= j < |w| && !InSomeChunk(st, c, j)
      ensures Run(w, j, IsHan) < 2
    {
      assert !(st[0] <= j < st[0] + |c[0]|);
      forall k | 0 <= k < |rs| && k < |rc|
        ensures !(rs[k] <= j < rs[k] + |rc[k]|)
      {
        assert st[k + 1] == rs[k] && c[k + 1] == rc[k];
      }
      assert !InSomeChunk(rs, rc, j);
    }
  }

  /** Skipping an index where no chunk can start keeps a scan a scan. */
  lemma ScanSkip(w: seq<char>, i: nat, rc: seq<seq<char>>, rs: seq<nat>)
    requires i < |w| && Run(w, i, IsHan) < 2
    requires IsFindallScan(w, i + 1, rc, rs)
    ensures IsFindallScan(w, i, rc, rs)
  {
  }

  /** The `for` loop of main.py:364-366: the first candidate that passes
      the filter `valid`. */
  function FirstValid(candidates: seq<seq<char>>, valid: seq<char> -> bool): (r: Option<seq<char>>)
    ensures r.None? <==> forall k | 0 <= k < |candidates| :: !valid(candidates[k])
    ensures r.Some? ==> r.value in candidates && valid(r.value)
    ensures forall k | 0 <= k < |candidates| && valid(candidates[k]) &&
                       (forall j | 0 <= j < k :: !valid(candidates[j])) ::
      r == Some(candidates[k])
  {
    if candidates == [] then None
    else if valid(candidates[0]) then Some(candidates[0])
    else
      var r := FirstValid(candidates[1..], valid);
      assert forall k | 0 < k < |candidates| :: candidates[k] == candidates[1..][k - 1];
      r
  }

  /** The window the positional strategy looks at, `text[:200]`. */
  const Window: nat := 200

  /** `_extract_name_by_position`. */
  function ByPosition(text: seq<char>): (r: Option<seq<char>>)
    ensures r.Some? ==> 2 <= |r.value| <= 4 && AllHan(r.value) && r.value !in CommonTitleWords
    ensures r.Some? ==> IsValidName(r.value) && IsSubstring(r.value, Prefix(text, Window))
  {
    var chunks := HanChunks(Prefix(text, Window), 0);
    var r := FirstValid(chunks, IsValidName);
    if r.Some? then
      ValidHanIsNotTitle(r.value);
      r
    else r
  }

  lemma ValidHanIsNotTitle(c: seq<char>)
    requires AllHan(c) && IsValidName(c)
    ensures c !in CommonTitleWords
  {
    StripNoSpace(c);
    ValidNameIff(c);
  }

  lemma SubstringOfPrefix(r: seq<char>, text: seq<char>, n: nat)
    requires IsSubstring(r, Prefix(text, n))
    ensures IsSubstring(r, text)
  {
    var i: nat :| i <= |Prefix(text, n)| && Occurs(r, Prefix(text, n), i);
    OccursTransitive(r, Prefix(text, n), text, i, 0);
  }

  /** A findall chunk is 2 to 4 Han characters, so for it the name filter
      only asks that it is not a title word. */
  lemma ChunkValidIff(w: seq<char>, k: nat)
    requires k < |HanChunks(w, 0)|
    ensures IsValidName(HanChunks(w, 0)[k]) <==> HanChunks(w, 0)[k] !in CommonTitleWords
  {
    var c := HanChunks(w, 0)[k];
    StripNoSpace(c);
    ValidNameIff(c);
  }

  /** Two adjacent Han characters at or after `i` give at least one
      chunk, and every chunk is such a pair or longer: `findall` finds
      something exactly when the text holds two Han characters in a row. */
  lemma {:induction false} HanChunksNonEmpty(w: seq<char>, i: nat)
    requires i <= |w|
    ensures HanChunks(w, i) != [] <==> exists j | i <= j && j + 1 < |w| :: IsHan(w[j]) && IsHan(w[j + 1])
    decreases |w| - i
  {
    if i < |w| {
      var n := Run(w, i, IsHan);
      if n >= 2 {
        assert IsHan(w[i]) && IsHan(w[i + 1]);
      } else {
        HanChunksNonEmpty(w, i + 1);
        if exists j | i <= j && j + 1 < |w| :: IsHan(w[j]) && IsHan(w[j + 1]) {
          var j :| i <= j && j + 1 < |w| && IsHan(w[j]) && IsHan(w[j + 1]);
          assert i + 1 <= j;
        }
      }
    }
  }

  /** The positional strategy returns the first chunk that is not a title
      word. */
  lemma ByPositionFirst(text: seq<char>, k: nat)
    requires k < |HanChunks(Prefix(text, Window), 0)|
    requires HanChunks(Prefix(text, Window), 0)[k] !in CommonTitleWords
    requires forall j | 0 <= j < k :: HanChunks(Prefix(text, Window), 0)[j] in CommonTitleWords
    ensures ByPosition(text) == Some(HanChunks(Prefix(text, Window), 0)[k])
  {
    var w := Prefix(text, Window);
    ChunkValidIff(w, k);
    forall j | 0 <= j < k
      ensures !IsValidName(HanChunks(w, 0)[j])
    {
      ChunkValidIff(w, j);
    }
  }

  /** The positional strategy finds nothing exactly when every chunk is a
      title word. */
  lemma ByPositionNone(text: seq<char>)
    ensures ByPosition(text).None? <==>
      forall j | 0 <= j < |HanChunks(Prefix(text, Window), 0)| :: HanChunks(Prefix(text, Window), 0)[j] in CommonTitleWords
  {
    var w := Prefix(text, Window);
    forall j | 0 <= j < |HanChunks(w, 0)|
      ensures IsValidName(HanChunks(w, 0)[j]) <==> HanChunks(w, 0)[j] !in CommonTitleWords
    {
      ChunkValidIff(w, j);
    }
  }

  // ---------------------------------------------------------------------
  // extract_name
  // ---------------------------------------------------------------------

  /** `extract_name` (main.py:285-311): nothing for the empty text; the
      keyword strategy first, the positional strategy only when it yields
      nothing. Every name it returns passes `_is_valid_name`, is 2 to 4 Han
      characters, is never a title word and occurs in the text. */
  function ExtractName(text: seq<char>): (r: Option<seq<char>>)
    ensures text == [] ==> r == None
    ensures ByKeyword(text).Some? ==> r == ByKeyword(text)
    ensures text != [] && ByKeyword(text).None? ==> r == ByPosition(text)
    ensures r.Some? ==> IsValidName(r.value)
    ensures r.Some? ==> 2 <= |r.value| <= 4 && AllHan(r.value) && r.value !in CommonTitleWords
    ensures r.Some? ==> IsSubstring(r.value, text)
  {
    if text == [] then None
    else
      match ByKeyword(text)
      case Some(name) =>
        CleanName(name);
        Some(name)
      case None =>
        var r := ByPosition(text);
        if r.Some? then
          SubstringOfPrefix(r.value, text, Window);
          r
        else r
  }
}
