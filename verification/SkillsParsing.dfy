/** What the skill parser accepts, and what it reads there. */
module SkillsParsing {
  import opened Models
  import opened PythonText
  import opened Skills

  // ---- front matter ----

  predicate AllSpace(s: string) {
    forall i :: 0 <= i < |s| ==> IsSpace(s[i])
  }

  /** The text has the shape of the expression `^---\s*\n(.*?)\n---\s*\n(.*)$`. */
  ghost predicate IsShape(text: string, gap: string, front: string, gap': string, body: string) {
    AllSpace(gap) && AllSpace(gap') && text == "---" + (gap + ("\n" + (front + ("\n---" + (gap' + ("\n" + body))))))
  }

  /** The closing fence stands at `j`. */
  predicate ClosesAt(s: string, j: nat) {
    j + 4 <= |s| && s[j..j + 4] == "\n---" && LastFeed(s[j + 4..], SpaceRun(s[j + 4..])).Some?
  }

  /** The front matter before a closing fence and the body behind it. */
  function MatterAt(s: string, j: nat): Matter
    requires ClosesAt(s, j)
  {
    var after := s[j + 4..];
    Matter(s[..j], after[LastFeed(after, SpaceRun(after)).value + 1..])
  }

  lemma {:induction false} CloseStep(s: string, k: nat)
    requires k <= |s|
    ensures CloseFrom(s, k) == if ClosesAt(s, k) then Some(MatterAt(s, k))
                               else if k < |s| then CloseFrom(s, k + 1) else None
  {
    hide LastFeed, SpaceRun;
    if ClosesAt(s, k) {
      var feed := LastFeed(s[k + 4..], SpaceRun(s[k + 4..])).value;
      assert s[k + 4..][feed + 1..] == s[k + 4 + feed + 1..];
    }
  }

  /** The first closing fence from `k` on stands at `j`. */
  ghost predicate FirstCloses(s: string, k: nat, j: nat) {
    k <= j <= |s| && ClosesAt(s, j) && forall i :: k <= i < j ==> !ClosesAt(s, i)
  }

  /** The first closing fence is found, if there is one. */
  lemma {:induction false} CloseExactly(s: string, k: nat)
    requires k <= |s|
    ensures CloseFrom(s, k) == None <==> forall j :: k <= j <= |s| ==> !ClosesAt(s, j)
    ensures CloseFrom(s, k).Some? ==> exists j :: FirstCloses(s, k, j) && CloseFrom(s, k).value == MatterAt(s, j)
    decreases |s| - k
  {
    hide ClosesAt, MatterAt, CloseFrom;
    CloseStep(s, k);
    if ClosesAt(s, k) {
      assert FirstCloses(s, k, k);
    } else if k == |s| {
    } else {
      CloseExactly(s, k + 1);
      if CloseFrom(s, k + 1).Some? {
        var j :| FirstCloses(s, k + 1, j) && CloseFrom(s, k + 1).value == MatterAt(s, j);
        assert FirstCloses(s, k, j);
      }
    }
  }

  /** A line feed behind white space is among the feeds of its run. */
  lemma {:induction false} RunReaches(gap: string, rest: string)
    requires AllSpace(gap)
    ensures |gap| < SpaceRun(gap + ("\n" + rest))
  {
    var s := gap + ("\n" + rest);
    if gap == "" {
      assert s == "\n" + rest;
    } else {
      assert s[0] == gap[0] && s[1..] == gap[1..] + ("\n" + rest);
      RunReaches(gap[1..], rest);
    }
  }

  lemma {:induction false} LastFeedReaches(s: string, n: nat, f: nat)
    requires f < n <= |s| && s[f] == '\n'
    ensures LastFeed(s, n).Some? && LastFeed(s, n).value >= f
  {
    if n - 1 == f || s[n - 1] == '\n' {
    } else {
      LastFeedReaches(s, n - 1, f);
    }
  }

  /** The opening fence is tried at every line feed of its white space. */
  lemma {:induction false} OpenExactly(s: string, n: nat)
    requires n <= |s|
    ensures OpenUpTo(s, n) == None <==>
            forall f :: 0 <= f < n && s[f] == '\n' ==> CloseFrom(s[f + 1..], 0) == None
    ensures OpenUpTo(s, n).Some? ==>
              exists f :: 0 <= f < n && s[f] == '\n' && CloseFrom(s[f + 1..], 0) == OpenUpTo(s, n)
  {
    hide CloseFrom;
    var feed := LastFeed(s, n);
    forall f | 0 <= f < n && s[f] == '\n'
      ensures feed.Some? && feed.value >= f
    {
      LastFeedReaches(s, n, f);
    }
    if feed.Some? && CloseFrom(s[feed.value + 1..], 0) == None {
      OpenExactly(s, feed.value);
    }
  }

  /** The parser finds front matter exactly in the texts of the expression's shape. */
  lemma {:induction false} MatchesExactly(text: string)
    ensures MatchFrontMatter(text).Some? <==>
            exists gap, front, gap', body :: IsShape(text, gap, front, gap', body)
  {
    hide IsShape, MatchFrontMatter;
    if MatchFrontMatter(text).Some? {
      var gap, gap' := MatchIsShape(text);
    }
    if gap, front, gap', body :| IsShape(text, gap, front, gap', body) {
      ShapeMatches(text, gap, front, gap', body);
    }
  }

  /** What it finds are parts of the text, in the expression's places. */
  lemma {:induction false} MatchIsShape(text: string) returns (gap: string, gap': string)
    requires MatchFrontMatter(text).Some?
    ensures var m := MatchFrontMatter(text).value; IsShape(text, gap, m.front, gap', m.body)
  {
    hide CloseFrom, OpenUpTo, LastFeed, IsShape, SpaceRun, AllSpace;
    var s := text[3..];
    OpenExactly(s, SpaceRun(s));
    var f :| 0 <= f < SpaceRun(s) && s[f] == '\n' && CloseFrom(s[f + 1..], 0) == OpenUpTo(s, SpaceRun(s));
    var t := s[f + 1..];
    gap := s[..f];
    gap' := CloseIsShape(t);
    CutAtFeed(text, f);
    Compose(text, s, gap, t, CloseFrom(t, 0).value, gap');
  }

  lemma {:induction false} CutAtFeed(text: string, f: nat)
    requires |text| >= 3 && text[..3] == "---" && f < SpaceRun(text[3..]) && text[3..][f] == '\n'
    ensures var s := text[3..];
            text == "---" + s && s == s[..f] + ("\n" + s[f + 1..]) && AllSpace(s[..f])
  {
    hide SpaceRun;
    assert text == text[..3] + text[3..];
  }

  lemma {:induction false} Compose(text: string, s: string, gap: string, t: string, m: Matter, gap': string)
    requires text == "---" + s && s == gap + ("\n" + t) && AllSpace(gap) && AllSpace(gap')
    requires t == m.front + ("\n---" + (gap' + ("\n" + m.body)))
    ensures IsShape(text, gap, m.front, gap', m.body)
  {
  }

  lemma {:induction false} CloseIsShape(t: string) returns (gap: string)
    requires CloseFrom(t, 0).Some?
    ensures var m := CloseFrom(t, 0).value; AllSpace(gap) && t == m.front + ("\n---" + (gap + ("\n" + m.body)))
  {
    hide CloseFrom, ClosesAt, MatterAt, AllSpace;
    CloseExactly(t, 0);
    var j :| FirstCloses(t, 0, j) && CloseFrom(t, 0).value == MatterAt(t, j);
    gap := AroundFence(t, j);
  }

  lemma {:induction false} AroundFence(t: string, j: nat) returns (gap: string)
    requires ClosesAt(t, j)
    ensures var m := MatterAt(t, j); AllSpace(gap) && t == m.front + ("\n---" + (gap + ("\n" + m.body)))
  {
    hide LastFeed, SpaceRun;
    var after := t[j + 4..];
    var feed := LastFeed(after, SpaceRun(after)).value;
    gap := after[..feed];
    assert after == gap + ("\n" + after[feed + 1..]);
    assert t == t[..j] + (t[j..j + 4] + after);
  }

  lemma {:induction false} ShapeMatches(text: string, gap: string, front: string, gap': string, body: string)
    requires IsShape(text, gap, front, gap', body)
    ensures MatchFrontMatter(text).Some?
  {
    hide CloseFrom, OpenUpTo, LastFeed, SpaceRun, ClosesAt;
    var t := front + ("\n---" + (gap' + ("\n" + body)));
    var s := gap + ("\n" + t);
    assert text[..3] == "---" && text[3..] == s;
    RunReaches(gap, t);
    assert s[|gap|] == '\n' && s[|gap| + 1..] == t;
    FenceCloses(front, gap', body);
    CloseExactly(t, 0);
    OpenExactly(s, SpaceRun(s));
  }

  lemma {:induction false} FenceCloses(front: string, gap: string, body: string)
    requires AllSpace(gap)
    ensures ClosesAt(front + ("\n---" + (gap + ("\n" + body))), |front|)
  {
    hide LastFeed, SpaceRun;
    var after := gap + ("\n" + body);
    var t := front + ("\n---" + after);
    RunReaches(gap, body);
    assert after[|gap|] == '\n';
    LastFeedReaches(after, SpaceRun(after), |gap|);
    assert t[|front|..|front| + 4] == "\n---" && t[|front| + 4..] == after;
  }

  // ---- cutting ----

  predicate OneLine(s: string) {
    forall i :: 0 <= i < |s| ==> !IsLineBreak(s[i])
  }

  /** A line ends at the first line break, of whatever kind, and a CR LF pair is one. */
  lemma {:induction false} SplitsAtBreak(line: string, end: string, rest: string)
    requires OneLine(line)
    requires || end == ['\r', '\n']
             || (|end| == 1 && IsLineBreak(end[0]) && (end[0] == '\r' ==> rest == "" || rest[0] != '\n'))
    ensures SplitLines(line + end + rest) == [line] + SplitLines(rest)
  {
    var s := line + end + rest;
    assert forall i :: 0 <= i < |line| ==> s[i] == line[i];
    assert s[|line|] == end[0];
    StopsAt(s, IsLineBreak, |line|);
    assert s[..|line|] == line && s[|line| + |end|..] == rest;
    if |end| == 2 {
      assert s[|line| + 1] == end[1];
    } else if rest != "" {
      assert s[|line| + 1] == rest[0];
    }
  }

  lemma {:induction false} StopsAt(s: string, stop: char -> bool, n: nat)
    requires n < |s| && stop(s[n]) && forall i :: 0 <= i < n ==> !stop(s[i])
    ensures Until(s, stop) == n
  {
    if n == 0 {
    } else {
      StopsAt(s[1..], stop, n - 1);
    }
  }

  /** Stripping brackets takes them off both ends and nothing else. */
  lemma {:induction false} StripBracketsExactly(s: string) returns (before: string, after: string)
    ensures var t := StripBrackets(s);
            s == before + t + after && (t == "" || (!IsBracket(t[0]) && !IsBracket(t[|t| - 1])))
    ensures forall i :: 0 <= i < |before| ==> IsBracket(before[i])
    ensures forall i :: 0 <= i < |after| ==> IsBracket(after[i])
  {
    before := BracketsOffLeft(s);
    after := BracketsOffRight(StripBracketsLeft(s));
  }

  lemma {:induction false} BracketsOffLeft(s: string) returns (before: string)
    ensures var t := StripBracketsLeft(s); s == before + t && (t == "" || !IsBracket(t[0]))
    ensures forall i :: 0 <= i < |before| ==> IsBracket(before[i])
  {
    if s == "" || !IsBracket(s[0]) {
      before := "";
    } else {
      var more := BracketsOffLeft(s[1..]);
      before := [s[0]] + more;
    }
  }

  lemma {:induction false} BracketsOffRight(s: string) returns (after: string)
    ensures var t := StripBracketsRight(s); s == t + after && (t == "" || !IsBracket(t[|t| - 1]))
    ensures forall i :: 0 <= i < |after| ==> IsBracket(after[i])
  {
    if s == "" || !IsBracket(s[|s| - 1]) {
      after := "";
    } else {
      var more := BracketsOffRight(s[..|s| - 1]);
      after := more + [s[|s| - 1]];
    }
  }

  // ---- keys ----

  predicate HasKey(line: string, key: string) {
    StartsWith(Strip(line), key)
  }

  /** A line with one of the keys has no other, as their first letters differ. */
  lemma {:induction false} OneKey(line: string)
    ensures HasKey(line, "name:") ==> !HasKey(line, "description:") && !HasKey(line, "tools:")
    ensures HasKey(line, "description:") ==> !HasKey(line, "tools:")
  {
    hide Strip;
    var s := Strip(line);
    assert forall key :: key in ["name:", "description:", "tools:"] && StartsWith(s, key) ==> s[..|key|][0] == s[0];
  }

  /** Line `i` is the last that has the key. */
  ghost predicate LastWith(lines: seq<string>, key: string, i: nat) {
    i < |lines| && HasKey(lines[i], key) && forall k :: i < k < |lines| ==> !HasKey(lines[k], key)
  }

  ghost predicate NoneWith(lines: seq<string>, key: string) {
    forall k :: 0 <= k < |lines| ==> !HasKey(lines[k], key)
  }

  /** Each part of the skill is what the last line with its key says, stripped, and
      what it was before when no line has the key. */
  lemma {:induction false} LastLineWins(skill: Skill, lines: seq<string>)
    ensures var read := ReadKeys(skill, lines);
            && (NoneWith(lines, "name:") ==> read.name == skill.name)
            && (forall i: nat :: LastWith(lines, "name:", i) ==> read.name == Strip(Strip(lines[i])[5..]))
            && (NoneWith(lines, "description:") ==> read.description == skill.description)
            && (forall i: nat :: LastWith(lines, "description:", i) ==>
                  read.description == Strip(Strip(lines[i])[12..]))
            && (NoneWith(lines, "tools:") ==> read.tools == skill.tools)
            && (forall i: nat :: LastWith(lines, "tools:", i) ==>
                  read.tools == ParseTools(Strip(Strip(lines[i])[6..])))
            && read.body == skill.body
  {
    hide Strip, ParseTools, LastWith, NoneWith, HasKey, ReadKey;
    if lines == [] {
      NothingWith("name:");
      NothingWith("description:");
      NothingWith("tools:");
    } else {
      var n := |lines| - 1;
      LastLineWins(skill, lines[..n]);
      OneLineRead(ReadKeys(skill, lines[..n]), lines[n]);
      LastSnoc(lines, "name:");
      LastSnoc(lines, "description:");
      LastSnoc(lines, "tools:");
    }
  }

  /** What one line does to the skill so far. */
  lemma {:induction false} OneLineRead(skill: Skill, line: string)
    ensures var read := ReadKey(skill, line);
            && read.name == (if HasKey(line, "name:") then Strip(Strip(line)[5..]) else skill.name)
            && read.description
               == (if HasKey(line, "description:") then Strip(Strip(line)[12..]) else skill.description)
            && read.tools == (if HasKey(line, "tools:") then ParseTools(Strip(Strip(line)[6..])) else skill.tools)
            && read.body == skill.body
    ensures HasKey(line, "name:") ==> |Strip(line)| >= 5
    ensures HasKey(line, "description:") ==> |Strip(line)| >= 12
    ensures HasKey(line, "tools:") ==> |Strip(line)| >= 6
  {
    hide Strip, ParseTools;
    OneKey(line);
  }

  lemma {:induction false} NothingWith(key: string)
    ensures forall i: nat :: !LastWith([], key, i)
  {
  }

  lemma {:induction false} LastSnoc(lines: seq<string>, key: string)
    requires lines != []
    ensures var n := |lines| - 1;
            && (NoneWith(lines, key) ==> NoneWith(lines[..n], key) && !HasKey(lines[n], key))
            && forall i: nat :: LastWith(lines, key, i) ==>
                 i < |lines| && if i == n then HasKey(lines[n], key)
                                else LastWith(lines[..n], key, i) && lines[..n][i] == lines[i] && !HasKey(lines[n], key)
  {
    hide HasKey;
    var n := |lines| - 1;
    forall i: nat | LastWith(lines, key, i) && i != n
      ensures LastWith(lines[..n], key, i) && !HasKey(lines[n], key)
    {
    }
  }

  /** A file parses exactly when it has front matter, a skill whose front matter
      gives no name has that of its folder, and the body is what follows, stripped. */
  lemma {:induction false} ParsesExactly(file: string, folder: string)
    ensures var matter := MatchFrontMatter(UniversalNewlines(file));
            && (Parse(file, folder) == None <==> matter == None)
            && (matter.Some? ==>
                  var skill := Parse(file, folder).value;
                  var lines := SplitLines(matter.value.front);
                  && (NoneWith(lines, "name:") ==> skill.name == folder)
                  && (forall i: nat :: LastWith(lines, "name:", i) ==> skill.name == Strip(Strip(lines[i])[5..]))
                  && (NoneWith(lines, "description:") ==> skill.description == "")
                  && (NoneWith(lines, "tools:") ==> skill.tools == [])
                  && skill.body == Strip(matter.value.body))
  {
    hide MatchFrontMatter, UniversalNewlines, SplitLines, ReadKeys, Strip, NoneWith, LastWith;
    var matter := MatchFrontMatter(UniversalNewlines(file));
    if matter.Some? {
      LastLineWins(Skill(folder, "", [], ""), SplitLines(matter.value.front));
    }
  }
}
