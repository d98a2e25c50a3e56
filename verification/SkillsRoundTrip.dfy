/** Printing a skill and parsing what was printed. */
module SkillsRoundTrip {
  import opened Models
  import opened Text
  import opened PythonText
  import opened Skills

  // ---- stripping ----

  lemma StripNothing(s: string)
    requires Stripped(s)
    ensures Strip(s) == s
  {
  }

  lemma StripLeadingSpace(s: string)
    ensures Strip(" " + s) == Strip(s)
  {
    assert (" " + s)[0] == ' ' && (" " + s)[1..] == s;
  }

  lemma StripTrailing(s: string, c: char)
    requires Stripped(s) && IsSpace(c)
    ensures Strip(s + [c]) == s
  {
    if s == "" {
      assert s + [c] == [c] && [c][1..] == "";
      assert StripLeft([c]) == "";
    } else {
      assert StripLeft(s + [c]) == s + [c];
      assert (s + [c])[..|s|] == s && (s + [c])[|s|] == c;
      assert StripRight(s) == s && StripRight(s + [c]) == s;
    }
  }

  // ---- line ends ----

  predicate OneLine(s: string) {
    forall i :: 0 <= i < |s| ==> !IsLineBreak(s[i])
  }

  // ---- front matter ----

  lemma {:induction false} UntilBreak(line: string, rest: string)
    requires OneLine(line) && (rest == "" || IsLineBreak(rest[0]))
    ensures Until(line + rest, IsLineBreak) == |line|
  {
    if line == "" {
      assert line + rest == rest;
    } else {
      assert (line + rest)[0] == line[0] && (line + rest)[1..] == line[1..] + rest;
      UntilBreak(line[1..], rest);
    }
  }

  lemma SplitFirstLine(line: string, rest: string)
    requires OneLine(line)
    ensures SplitLines(line + "\n" + rest) == [line] + SplitLines(rest)
  {
    var s := line + "\n" + rest;
    assert s == line + ("\n" + rest) && ("\n" + rest)[0] == '\n';
    UntilBreak(line, "\n" + rest);
    assert s[..|line|] == line && s[|line|] == '\n' && s[|line| + 1..] == rest;
  }

  lemma SplitLastLine(line: string)
    requires OneLine(line) && line != ""
    ensures SplitLines(line) == [line]
  {
    UntilBreak(line, "");
    assert line + "" == line;
  }

  /** No line of the front matter, after the first, starts with a dash. */
  predicate NoFence(front: string) {
    forall k :: 0 <= k < |front| && front[k] == '\n' ==> k + 1 < |front| && front[k + 1] != '-'
  }

  lemma {:induction false} NoEarlierClose(front: string, rest: string, k: nat)
    requires NoFence(front) && k <= |front|
    ensures CloseFrom(front + rest, k) == CloseFrom(front + rest, |front|)
    decreases |front| - k
  {
    if k == |front| {
    } else {
      var s := front + rest;
      assert s[k] == front[k] && (k + 1 < |front| ==> s[k + 1] == front[k + 1]);
      assert k + 4 <= |s| ==> s[k..k + 4][0] == s[k] && s[k..k + 4][1] == s[k + 1];
      assert !(k + 4 <= |s| && s[k..k + 4] == "\n---");
      NoEarlierClose(front, rest, k + 1);
    }
  }

  /** A greedy `\s*\n` after the closing fence leaves the body, give or take white space. */
  lemma AfterFence(body: string)
    requires Stripped(body)
    ensures var after := "\n" + (body + "\n");
            var feed := LastFeed(after, SpaceRun(after));
            feed.Some? && Strip(after[feed.value + 1..]) == body
  {
    var after := "\n" + (body + "\n");
    assert after[1..] == body + "\n";
    if body == "" {
      assert after[1..][1..] == "" && after[2..] == "";
      assert SpaceRun(after) == 2;
    } else {
      assert (body + "\n")[0] == body[0];
      assert SpaceRun(after) == 1;
      StripTrailing(body, '\n');
    }
  }

  /** The closing fence of a printed skill is found, and leaves the body. */
  lemma CloseIsFound(front: string, body: string)
    requires Stripped(body)
    ensures var s := front + ("\n---" + ("\n" + (body + "\n")));
            exists rest :: CloseFrom(s, |front|) == Some(Matter(front, rest)) && Strip(rest) == body
  {
    hide LastFeed, SpaceRun, Strip, Stripped, CloseFrom;
    AfterFence(body);
    CloseAt(front, "\n---", "\n" + (body + "\n"));
  }

  lemma CloseAt(front: string, fence: string, after: string)
    requires fence == "\n---" && LastFeed(after, SpaceRun(after)).Some?
    ensures CloseFrom(front + (fence + after), |front|)
            == Some(Matter(front, after[LastFeed(after, SpaceRun(after)).value + 1..]))
  {
    hide LastFeed, SpaceRun;
    var s := front + (fence + after);
    var feed := LastFeed(after, SpaceRun(after)).value;
    Pieces(front, fence, after, feed + 1);
    assert |fence| == 4;
  }

  lemma Pieces(a: string, b: string, c: string, n: nat)
    requires n <= |c|
    ensures var s := a + (b + c);
            && s[..|a|] == a && s[|a|..|a| + |b|] == b && s[|a| + |b|..] == c
            && s[|a| + |b| + n..] == c[n..]
  {
  }

  lemma OpenIsFound(front: string, rest: string, matter: Matter)
    requires front != "" && !IsSpace(front[0])
    requires CloseFrom(front + rest, 0) == Some(matter)
    ensures MatchFrontMatter("---" + ("\n" + (front + rest))) == Some(matter)
  {
    var s := "\n" + (front + rest);
    assert ("---" + s)[..3] == "---" && ("---" + s)[3..] == s;
    assert s[1..] == front + rest && (front + rest)[0] == front[0];
    assert SpaceRun(s) == 1;
  }

  // ---- keys ----

  /** A printed key line, once stripped, still starts with its key and gives its value back. */
  lemma KeyLine(key: string, value: string)
    requires key != "" && !IsSpace(key[0]) && !IsSpace(key[|key| - 1]) && Stripped(value)
    ensures var line := Strip(key + (" " + value));
            StartsWith(line, key) && Strip(line[|key|..]) == value
  {
    var raw := key + (" " + value);
    if value == "" {
      assert raw == key + [' '];
      StripTrailing(key, ' ');
    } else {
      assert raw[|raw| - 1] == value[|value| - 1];
      StripNothing(raw);
      assert raw[|key|..] == " " + value;
      StripLeadingSpace(value);
      StripNothing(value);
    }
  }

  lemma OtherKey(line: string, key: string, other: string)
    requires StartsWith(line, key) && key != "" && other != "" && key[0] != other[0]
    ensures !StartsWith(line, other)
  {
    assert line[0] == line[..|key|][0] == key[0];
    if |other| <= |line| {
      assert line[..|other|][0] == line[0];
    }
  }

  // ---- the tool list ----

  /** A name that a tool list can carry. */
  predicate ToolName(t: string) {
    t != "" && Stripped(t) && OneLine(t) && forall i :: 0 <= i < |t| ==> t[i] != ',' && !IsBracket(t[i])
  }

  predicate ToolNames(tools: seq<string>) {
    forall i :: 0 <= i < |tools| ==> ToolName(tools[i])
  }

  lemma {:induction false} UntilComma(t: string, rest: string)
    requires (forall i :: 0 <= i < |t| ==> t[i] != ',') && (rest == "" || rest[0] == ',')
    ensures Until(t + rest, c => c == ',') == |t|
  {
    if t == "" {
      assert t + rest == rest;
    } else {
      assert (t + rest)[0] == t[0] && (t + rest)[1..] == t[1..] + rest;
      UntilComma(t[1..], rest);
    }
  }

  lemma SplitFirstComma(t: string, rest: string)
    requires forall i :: 0 <= i < |t| ==> t[i] != ','
    ensures SplitCommas(t + ("," + rest)) == [t] + SplitCommas(rest)
    ensures SplitCommas(t) == [t]
  {
    var s := t + ("," + rest);
    UntilComma(t, "," + rest);
    assert s[..|t|] == t && s[|t| + 1..] == rest;
    UntilComma(t, "");
    assert t + "" == t;
  }

  lemma {:induction false} JoinIsClean(tools: seq<string>)
    requires ToolNames(tools)
    ensures OneLine(Join(", ", tools))
    ensures forall i :: 0 <= i < |Join(", ", tools)| ==> !IsBracket(Join(", ", tools)[i])
  {
    if tools == [] {
    } else {
      assert ToolName(tools[0]);
      if |tools| > 1 {
        JoinIsClean(tools[1..]);
      }
    }
  }

  /** Splitting and trimming undoes joining, with or without the space in front. */
  lemma {:induction false} SplitJoined(tools: seq<string>, gap: string)
    requires ToolNames(tools) && (gap == "" || gap == " ")
    ensures Trimmed(SplitCommas(gap + Join(", ", tools))) == tools
  {
    hide Strip, Trimmed, SplitCommas, OneLine, Stripped;
    if tools == [] {
      SplitFirstComma(gap, "");
      assert gap + Join(", ", tools) == gap;
      TrimmedOne(gap, []);
      StripBlank(gap);
    } else {
      var t, rest := tools[0], tools[1..];
      assert ToolName(t);
      StripGap(gap, t);
      StripNothing(t);
      if rest == [] {
        SplitFirstComma(gap + t, "");
        TrimmedOne(gap + t, []);
      } else {
        assert gap + Join(", ", tools) == (gap + t) + ("," + (" " + Join(", ", rest)));
        SplitFirstComma(gap + t, " " + Join(", ", rest));
        TrimmedOne(gap + t, SplitCommas(" " + Join(", ", rest)));
        SplitJoined(rest, " ");
      }
    }
  }

  lemma StripBlank(gap: string)
    requires gap == "" || gap == " "
    ensures Strip(gap) == ""
  {
    StripGap(gap, "");
    assert gap + "" == gap;
  }

  lemma StripGap(gap: string, t: string)
    requires gap == "" || gap == " "
    ensures Strip(gap + t) == Strip(t)
  {
    if gap == "" {
      assert gap + t == t;
    } else {
      StripLeadingSpace(t);
    }
  }

  lemma TrimmedOne(piece: string, pieces: seq<string>)
    ensures Trimmed([piece] + pieces) == (if Strip(piece) == "" then [] else [Strip(piece)]) + Trimmed(pieces)
    ensures Trimmed([piece]) == if Strip(piece) == "" then [] else [Strip(piece)]
  {
    assert ([piece] + pieces)[1..] == pieces && [piece][1..] == [];
  }

  lemma StripTheBrackets(s: string)
    requires forall i :: 0 <= i < |s| ==> !IsBracket(s[i])
    ensures StripBrackets("[" + s + "]") == s
  {
    var whole := "[" + s + "]";
    assert whole[0] == '[' && whole[1..] == s + "]";
    if s == "" {
      assert s + "]" == "]" && "]"[1..] == "";
      assert StripBracketsLeft("]") == StripBracketsLeft("") == "";
      assert StripBracketsLeft(whole) == "";
      assert StripBracketsRight("") == "";
    } else {
      assert (s + "]")[0] == s[0];
      assert StripBracketsLeft(whole) == s + "]";
      assert (s + "]")[..|s|] == s && (s + "]")[|s|] == ']';
      assert !IsBracket(s[|s| - 1]) && StripBracketsRight(s) == s;
    }
  }

  lemma ToolsComeBack(tools: seq<string>)
    requires ToolNames(tools)
    ensures ParseTools("[" + Join(", ", tools) + "]") == tools
  {
    JoinIsClean(tools);
    StripTheBrackets(Join(", ", tools));
    SplitJoined(tools, "");
    assert "" + Join(", ", tools) == Join(", ", tools);
  }

  // ---- the round trip ----

  /** A skill that its file format can carry. */
  predicate WellFormed(skill: Skill) {
    && Stripped(skill.name) && OneLine(skill.name)
    && Stripped(skill.description) && OneLine(skill.description)
    && ToolNames(skill.tools)
    && Stripped(skill.body)
  }

  function NameLine(skill: Skill): string {
    NAME_KEY + (" " + skill.name)
  }

  function DescriptionLine(skill: Skill): string {
    DESCRIPTION_KEY + (" " + skill.description)
  }

  function ToolsLine(skill: Skill): string {
    TOOLS_KEY + (" " + ("[" + Join(", ", skill.tools) + "]"))
  }

  function Front(skill: Skill): string {
    NameLine(skill) + "\n" + (DescriptionLine(skill) + "\n" + ToolsLine(skill))
  }

  lemma RenderShape(skill: Skill)
    ensures Render(skill) == "---" + ("\n" + (Front(skill) + ("\n---" + ("\n" + (skill.body + "\n")))))
  {
    hide Join;
    Regroup("---", "\n", NameLine(skill), DescriptionLine(skill), ToolsLine(skill), skill.body);
    assert "---\n" == "---" + "\n" && "\n---" == "\n" + "---";
    assert "tools: [" + Join(", ", skill.tools) + "]\n" == ToolsLine(skill) + "\n";
    assert "name: " + skill.name + "\n" == NameLine(skill) + "\n";
    assert "description: " + skill.description + "\n" == DescriptionLine(skill) + "\n";
  }

  lemma Regroup(dash: string, feed: string, a: string, b: string, c: string, body: string)
    ensures (dash + feed) + (a + feed) + (b + feed) + (c + feed) + (dash + feed) + (body + feed)
            == dash + (feed + ((a + feed + (b + feed + c)) + ((feed + dash) + (feed + (body + feed)))))
  {
  }

  lemma LinesAreOneLine(skill: Skill)
    requires WellFormed(skill)
    ensures OneLine(NameLine(skill)) && OneLine(DescriptionLine(skill)) && OneLine(ToolsLine(skill))
  {
    JoinIsClean(skill.tools);
  }

  lemma FrontSplits(skill: Skill)
    requires WellFormed(skill)
    ensures SplitLines(Front(skill)) == [NameLine(skill), DescriptionLine(skill), ToolsLine(skill)]
  {
    hide NameLine, DescriptionLine;
    LinesAreOneLine(skill);
    SplitFirstLine(NameLine(skill), DescriptionLine(skill) + "\n" + ToolsLine(skill));
    SplitFirstLine(DescriptionLine(skill), ToolsLine(skill));
    SplitLastLine(ToolsLine(skill));
  }

  lemma FrontHasNoFence(skill: Skill)
    requires WellFormed(skill)
    ensures NoFence(Front(skill)) && NoReturns(Front(skill))
  {
    LinesAreOneLine(skill);
    var front := Front(skill);
    var a, b, c := NameLine(skill), DescriptionLine(skill), ToolsLine(skill);
    assert b[0] == 'd' && c[0] == 't';
    forall k | 0 <= k < |front|
      ensures front[k] == '\n' ==> k + 1 < |front| && front[k + 1] != '-'
      ensures front[k] != '\r'
    {
      if k < |a| {
        assert front[k] == a[k];
      } else if k == |a| {
        assert front[k + 1] == b[0];
      } else if k < |a| + 1 + |b| {
        assert front[k] == b[k - |a| - 1];
      } else if k == |a| + 1 + |b| {
        assert front[k + 1] == c[0];
      } else {
        assert front[k] == c[k - |a| - |b| - 2];
      }
    }
  }

  lemma NameIsRead(base: Skill, skill: Skill)
    requires WellFormed(skill)
    ensures ReadKey(base, NameLine(skill)) == base.(name := skill.name)
  {
    KeyLine(NAME_KEY, skill.name);
  }

  lemma DescriptionIsRead(base: Skill, skill: Skill)
    requires WellFormed(skill)
    ensures ReadKey(base, DescriptionLine(skill)) == base.(description := skill.description)
  {
    hide Strip;
    KeyLine(DESCRIPTION_KEY, skill.description);
    OtherKey(Strip(DescriptionLine(skill)), DESCRIPTION_KEY, NAME_KEY);
  }

  lemma ToolsAreRead(base: Skill, skill: Skill)
    requires WellFormed(skill)
    ensures ReadKey(base, ToolsLine(skill)) == base.(tools := skill.tools)
  {
    hide Strip, ParseTools;
    var value := "[" + Join(", ", skill.tools) + "]";
    assert value[0] == '[' && value[|value| - 1] == ']';
    KeyLine(TOOLS_KEY, value);
    OtherKey(Strip(ToolsLine(skill)), TOOLS_KEY, NAME_KEY);
    OtherKey(Strip(ToolsLine(skill)), TOOLS_KEY, DESCRIPTION_KEY);
    ToolsComeBack(skill.tools);
  }

  lemma KeysAreRead(base: Skill, skill: Skill)
    requires WellFormed(skill)
    ensures ReadKeys(base, [NameLine(skill), DescriptionLine(skill), ToolsLine(skill)])
            == Skill(skill.name, skill.description, skill.tools, base.body)
  {
    hide NameLine, DescriptionLine, ToolsLine, ReadKey, WellFormed;
    var a, b, c := NameLine(skill), DescriptionLine(skill), ToolsLine(skill);
    assert [a, b, c][..2] == [a, b] && [a, b][..1] == [a] && [a][..0] == [];
    NameIsRead(base, skill);
    var named := base.(name := skill.name);
    DescriptionIsRead(named, skill);
    var described := named.(description := skill.description);
    ToolsAreRead(described, skill);
    assert ReadKeys(base, []) == base;
    assert ReadKeys(base, [a]) == named;
    assert ReadKeys(base, [a, b]) == described;
  }

  /** What a file reader makes of a printed skill. */
  lemma ReadAsPrinted(skill: Skill)
    requires WellFormed(skill)
    ensures UniversalNewlines(Render(skill))
            == "---" + ("\n" + (Front(skill) + ("\n---" + ("\n" + (UniversalNewlines(skill.body) + "\n")))))
  {
    hide Front, UniversalNewlines;
    var head := "---" + ("\n" + (Front(skill) + ("\n---" + "\n")));
    var tail := skill.body + "\n";
    RenderShape(skill);
    FrontHasNoFence(skill);
    assert Render(skill) == head + tail;
    NewlinesConcat(head, tail);
    NewlinesExactly(head);
    NewlinesConcat(skill.body, "\n");
    NewlinesExactly("\n");
    assert head + (UniversalNewlines(skill.body) + "\n")
        == "---" + ("\n" + (Front(skill) + ("\n---" + ("\n" + (UniversalNewlines(skill.body) + "\n")))));
  }

  lemma BodyStaysStripped(body: string)
    requires Stripped(body)
    ensures Stripped(UniversalNewlines(body))
  {
    if body != "" {
      NewlinesEnds(body);
    }
  }

  /** Parsing a printed skill gives back its name, description and tools, and its
      body as a text file keeps it, even when the body has fences of its own. */
  lemma ParsePrinted(skill: Skill, folder: string)
    requires WellFormed(skill)
    ensures Parse(Render(skill), folder) == Some(skill.(body := UniversalNewlines(skill.body)))
  {
    hide Front, CloseFrom, MatchFrontMatter, SplitLines, UniversalNewlines, Render, Strip, Join, NoFence, NoReturns,
         ToolNames, NameLine, DescriptionLine, ToolsLine, ReadKeys;
    var body := UniversalNewlines(skill.body);
    var front := Front(skill);
    var rest := "\n---" + ("\n" + (body + "\n"));
    ReadAsPrinted(skill);
    BodyStaysStripped(skill.body);
    FrontHasNoFence(skill);
    CloseIsFound(front, body);
    var left :| CloseFrom(front + rest, |front|) == Some(Matter(front, left)) && Strip(left) == body;
    NoEarlierClose(front, rest, 0);
    FrontStarts(skill);
    OpenIsFound(front, rest, Matter(front, left));
    FrontSplits(skill);
    KeysAreRead(Skill(folder, "", [], ""), skill);
  }

  lemma FrontStarts(skill: Skill)
    ensures Front(skill) != "" && !IsSpace(Front(skill)[0])
  {
    assert Front(skill)[0] == 'n';
  }

  /** The round trip is exact precisely for the bodies without a CR. */
  lemma RoundTripExactly(skill: Skill, folder: string)
    requires WellFormed(skill)
    ensures Parse(Render(skill), folder) == Some(skill) <==> '\r' !in skill.body
  {
    ParsePrinted(skill, folder);
    NewlinesExactly(skill.body);
    assert NoReturns(skill.body) <==> '\r' !in skill.body;
  }
}
