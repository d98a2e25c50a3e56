/** Skill files: the printer and the parser of `SKILL.md`. */
module Skills {
  import opened Models
  import opened Text
  import opened PythonText

  datatype Skill = Skill(name: string, description: string, tools: seq<string>, body: string)

  // ---- cutting a text into pieces ----

  /** The characters at which `splitlines` cuts (a CR LF pair is one cut). */
  predicate IsLineBreak(c: char) {
    var n := c as int;
    0x0A <= n <= 0x0D || 0x1C <= n <= 0x1E || n == 0x85 || n == 0x2028 || n == 0x2029
  }

  predicate IsBracket(c: char) {
    c == '[' || c == ']'
  }

  function StripBracketsLeft(s: string): string {
    if s != "" && IsBracket(s[0]) then StripBracketsLeft(s[1..]) else s
  }

  function StripBracketsRight(s: string): string {
    if s != "" && IsBracket(s[|s| - 1]) then StripBracketsRight(s[..|s| - 1]) else s
  }

  /** `s.strip("[]")`. */
  function StripBrackets(s: string): string {
    StripBracketsRight(StripBracketsLeft(s))
  }

  /** `s.splitlines()`. */
  function SplitLines(s: string): seq<string>
    decreases |s|
  {
    if s == "" then []
    else
      var n := Until(s, IsLineBreak);
      if n == |s| then [s]
      else
        var next := if s[n] == '\r' && n + 1 < |s| && s[n + 1] == '\n' then n + 2 else n + 1;
        [s[..n]] + SplitLines(s[next..])
  }

  /** `s.split(",")`. */
  function SplitCommas(s: string): seq<string>
    decreases |s|
  {
    var n := Until(s, c => c == ',');
    if n == |s| then [s] else [s[..n]] + SplitCommas(s[n + 1..])
  }

  // ---- the printer ----

  function Render(skill: Skill): string {
    "---\n"
    + ("name: " + skill.name + "\n")
    + ("description: " + skill.description + "\n")
    + ("tools: [" + Join(", ", skill.tools) + "]\n")
    + "---\n"
    + (skill.body + "\n")
  }

  // ---- the parser ----

  /** How many white-space characters a text starts with. */
  function SpaceRun(s: string): (n: nat)
    ensures n <= |s|
    ensures forall i :: 0 <= i < n ==> IsSpace(s[i])
    ensures n < |s| ==> !IsSpace(s[n])
  {
    if s == "" || !IsSpace(s[0]) then 0 else 1 + SpaceRun(s[1..])
  }

  /** The last line feed among the first `n` characters, if any: where a greedy
      `\s*\n` ends up first. */
  function LastFeed(s: string, n: nat): (r: Option<nat>)
    requires n <= |s|
    ensures r.Some? ==> r.value < n && s[r.value] == '\n'
  {
    if n == 0 then None
    else if s[n - 1] == '\n' then Some(n - 1)
    else LastFeed(s, n - 1)
  }

  datatype Matter = Matter(front: string, body: string)

  /** The lazy `(.*?)\n---\s*\n(.*)$` from position `k` on: the first place where
      the closing fence fits. */
  function CloseFrom(s: string, k: nat): Option<Matter>
    requires k <= |s|
    decreases |s| - k
  {
    if k + 4 <= |s| && s[k..k + 4] == "\n---" && LastFeed(s[k + 4..], SpaceRun(s[k + 4..])).Some? then
      var feed := LastFeed(s[k + 4..], SpaceRun(s[k + 4..])).value;
      Some(Matter(s[..k], s[k + 4 + feed + 1..]))
    else if k < |s| then CloseFrom(s, k + 1)
    else None
  }

  /** `^---\s*\n` tried greedily, giving back one line feed at a time. */
  function OpenUpTo(s: string, n: nat): Option<Matter>
    requires n <= |s|
  {
    var feed := LastFeed(s, n);
    if feed.None? then None
    else
      var rest := CloseFrom(s[feed.value + 1..], 0);
      if rest.Some? then rest else OpenUpTo(s, feed.value)
  }

  /** The front matter regular expression. */
  function MatchFrontMatter(text: string): Option<Matter> {
    if |text| < 3 || text[..3] != "---" then None
    else OpenUpTo(text[3..], SpaceRun(text[3..]))
  }

  predicate StartsWith(s: string, prefix: string) {
    |prefix| <= |s| && s[..|prefix|] == prefix
  }

  const NAME_KEY := "name:"
  const DESCRIPTION_KEY := "description:"
  const TOOLS_KEY := "tools:"

  /** The pieces that are not blank, stripped. */
  function Trimmed(pieces: seq<string>): seq<string> {
    if pieces == [] then []
    else (if Strip(pieces[0]) == "" then [] else [Strip(pieces[0])]) + Trimmed(pieces[1..])
  }

  function ParseTools(raw: string): seq<string> {
    Trimmed(SplitCommas(StripBrackets(raw)))
  }

  /** One line of front matter, read into the skill so far. */
  function ReadKey(skill: Skill, rawLine: string): Skill {
    var line := Strip(rawLine);
    if StartsWith(line, NAME_KEY) then skill.(name := Strip(line[|NAME_KEY|..]))
    else if StartsWith(line, DESCRIPTION_KEY) then skill.(description := Strip(line[|DESCRIPTION_KEY|..]))
    else if StartsWith(line, TOOLS_KEY) then skill.(tools := ParseTools(Strip(line[|TOOLS_KEY|..])))
    else skill
  }

  function ReadKeys(skill: Skill, lines: seq<string>): Skill {
    if lines == [] then skill else ReadKey(ReadKeys(skill, lines[..|lines| - 1]), lines[|lines| - 1])
  }

  function Parse(file: string, folder: string): Option<Skill> {
    var matter := MatchFrontMatter(UniversalNewlines(file));
    if matter.None? then None
    else
      var skill := ReadKeys(Skill(folder, "", [], ""), SplitLines(matter.value.front));
      Some(skill.(body := Strip(matter.value.body)))
  }

  /** `parse_skill_file` on the text of a file in a folder. */
  method ParseSkillFile(file: string, folder: string) returns (skill: Option<Skill>)
    ensures skill == Parse(file, folder)
  {
    var matter := MatchFrontMatter(UniversalNewlines(file));
    if matter.None? {
      return None;
    }
    var name, description, tools := folder, "", [];
    var lines := SplitLines(matter.value.front);
    for i := 0 to |lines|
      invariant Skill(name, description, tools, "") == ReadKeys(Skill(folder, "", [], ""), lines[..i])
    {
      assert lines[..i + 1][..i] == lines[..i];
      var line := Strip(lines[i]);
      if StartsWith(line, NAME_KEY) {
        name := Strip(line[|NAME_KEY|..]);
      } else if StartsWith(line, DESCRIPTION_KEY) {
        description := Strip(line[|DESCRIPTION_KEY|..]);
      } else if StartsWith(line, TOOLS_KEY) {
        tools := ParseTools(Strip(line[|TOOLS_KEY|..]));
      }
    }
    assert lines[..|lines|] == lines;
    return Some(Skill(name, description, tools, Strip(matter.value.body)));
  }
}
